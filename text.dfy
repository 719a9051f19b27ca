/**
 * Bytes, characters and the ordinal string operations of .NET that the
 * container, the frame splitter and the frame reader rely on:
 * IndexOf / LastIndexOf with ordinal comparison, char.IsWhiteSpace,
 * TrimStart / TrimEnd / Trim, and the frame marker token.
 */
module Text {

  type byte = b: int | 0 <= b < 256

  datatype Option<T> = None | Some(value: T)

  /** The token that ends every frame of the text payload. */
  const Marker: string := "FRAME_END"

  /** The same token as the bytes of its UTF-8 (here: ASCII) encoding. */
  const MarkerBytes: seq<byte> := [0x46, 0x52, 0x41, 0x4D, 0x45, 0x5F, 0x45, 0x4E, 0x44]

  const MarkerLength: nat := 9

  /** The marker is nine capital letters and underscores: no white space, no line break. */
  lemma MarkerChars()
    ensures |Marker| == MarkerLength
    ensures forall k :: 0 <= k < |Marker| ==> ('A' <= Marker[k] <= 'Z' || Marker[k] == '_')
  {
  }

  /** Environment.NewLine on Windows, the only platform the WPF programs run on. */
  const NewLine: string := "\r\n"

  /** `pat` occurs in `s` starting at index `i`. */
  predicate OccursAt<T(==)>(s: seq<T>, pat: seq<T>, i: int)
  {
    0 <= i && i + |pat| <= |s| && s[i..i + |pat|] == pat
  }

  /** `pat` occurs nowhere in `s`. */
  ghost predicate Free<T>(s: seq<T>, pat: seq<T>)
  {
    forall i :: !OccursAt(s, pat, i)
  }

  /** Ordinal IndexOf from position `i`: the first occurrence at or after `i`, or -1. */
  function IndexFrom<T(==)>(s: seq<T>, pat: seq<T>, i: nat): (r: int)
    requires |pat| > 0
    ensures r == -1 || (i <= r && OccursAt(s, pat, r))
    ensures forall j :: i <= j && (r == -1 || j < r) ==> !OccursAt(s, pat, j)
    decreases |s| - i
  {
    if i + |pat| > |s| then -1
    else if s[i..i + |pat|] == pat then i
    else IndexFrom(s, pat, i + 1)
  }

  /** string.IndexOf(pat, StringComparison.Ordinal). */
  function IndexOf<T(==)>(s: seq<T>, pat: seq<T>): (r: int)
    requires |pat| > 0
    ensures r == -1 <==> Free(s, pat)
    ensures r != -1 ==> OccursAt(s, pat, r) && forall j :: 0 <= j < r ==> !OccursAt(s, pat, j)
  {
    IndexFrom(s, pat, 0)
  }

  /** Ordinal LastIndexOf looking at start positions `i` and below. */
  function LastIndexFrom<T(==)>(s: seq<T>, pat: seq<T>, i: int): (r: int)
    requires |pat| > 0
    ensures r == -1 || (0 <= r <= i && OccursAt(s, pat, r))
    ensures forall j :: j <= i && r < j ==> !OccursAt(s, pat, j)
    decreases i
  {
    if i < 0 then -1
    else if OccursAt(s, pat, i) then i
    else LastIndexFrom(s, pat, i - 1)
  }

  /** string.LastIndexOf(pat, StringComparison.Ordinal): the last occurrence, or -1. */
  function LastIndexOf<T(==)>(s: seq<T>, pat: seq<T>): (r: int)
    requires |pat| > 0
    ensures r == -1 <==> Free(s, pat)
    ensures r != -1 ==> OccursAt(s, pat, r) && forall j :: r < j ==> !OccursAt(s, pat, j)
  {
    LastIndexFrom(s, pat, |s| - |pat|)
  }

  /** char.IsWhiteSpace: the Unicode space separators plus U+0009..U+000D, U+0085, U+00A0. */
  predicate IsWhiteSpace(c: char)
  {
    c == ' ' || ('\t' <= c <= '\r') || c == '\U{0085}' || c == '\U{00A0}' || c == '\U{1680}'
    || ('\U{2000}' <= c <= '\U{200A}') || c == '\U{2028}' || c == '\U{2029}'
    || c == '\U{202F}' || c == '\U{205F}' || c == '\U{3000}'
  }

  /** string.TrimEnd(): the longest prefix that does not end in white space. */
  function TrimEnd(s: string): (r: string)
    ensures |r| <= |s| && r == s[..|r|]
    ensures forall i :: |r| <= i < |s| ==> IsWhiteSpace(s[i])
    ensures r == [] || !IsWhiteSpace(r[|r| - 1])
    decreases |s|
  {
    if |s| > 0 && IsWhiteSpace(s[|s| - 1]) then TrimEnd(s[..|s| - 1]) else s
  }

  /** string.TrimStart(): the longest suffix that does not start with white space. */
  function TrimStart(s: string): (r: string)
    ensures |r| <= |s| && r == s[|s| - |r|..]
    ensures forall i :: 0 <= i < |s| - |r| ==> IsWhiteSpace(s[i])
    ensures r == [] || !IsWhiteSpace(r[0])
    decreases |s|
  {
    if |s| > 0 && IsWhiteSpace(s[0]) then TrimStart(s[1..]) else s
  }

  /** string.Trim(). */
  function Trim(s: string): string
  {
    TrimStart(TrimEnd(s))
  }

  /** TrimEnd leaves a string that already ends in a non-space character alone. */
  lemma TrimEndKeeps(s: string)
    requires s != [] && !IsWhiteSpace(s[|s| - 1])
    ensures TrimEnd(s) == s
  {
  }

  /** Only white space before `t`: TrimEnd of `w + t` is `w + TrimEnd(t)` unless `t` trims to nothing. */
  lemma {:induction false} TrimEndAppend(w: string, t: string)
    requires TrimEnd(t) != []
    ensures TrimEnd(w + t) == w + TrimEnd(t)
    decreases |t|
  {
    if t != [] && IsWhiteSpace(t[|t| - 1]) {
      assert (w + t)[..|w + t| - 1] == w + t[..|t| - 1];
      TrimEndAppend(w, t[..|t| - 1]);
    } else {
      assert t != [];
      assert (w + t)[|w + t| - 1] == t[|t| - 1];
    }
  }

  /** A string of white space trims to nothing, whatever precedes it trims as if alone. */
  lemma {:induction false} TrimEndSpaces(w: string, t: string)
    requires forall i :: 0 <= i < |t| ==> IsWhiteSpace(t[i])
    ensures TrimEnd(w + t) == TrimEnd(w)
    decreases |t|
  {
    if t != [] {
      assert (w + t)[|w + t| - 1] == t[|t| - 1];
      assert (w + t)[..|w + t| - 1] == w + t[..|t| - 1];
      TrimEndSpaces(w, t[..|t| - 1]);
    } else {
      assert w + t == w;
    }
  }

  /** An occurrence in `a` or in `b` is an occurrence in `a + b`; one that is in neither crosses the seam. */
  lemma OccursInConcat<T>(a: seq<T>, b: seq<T>, pat: seq<T>, i: int)
    requires OccursAt(a + b, pat, i)
    ensures i + |pat| <= |a| ==> OccursAt(a, pat, i)
    ensures |a| <= i ==> OccursAt(b, pat, i - |a|)
  {
    if i + |pat| <= |a| {
      assert (a + b)[i..i + |pat|] == a[i..i + |pat|];
    }
    if |a| <= i {
      assert (a + b)[i..i + |pat|] == b[i - |a|..i - |a| + |pat|];
    }
  }

  /**
   * Gluing two pattern-free strings never creates an occurrence when the
   * glue point is a character that the pattern does not contain.
   */
  lemma FreeConcat<T>(a: seq<T>, b: seq<T>, pat: seq<T>)
    requires Free(a, pat) && Free(b, pat)
    requires a != [] && a[|a| - 1] !in pat
    ensures Free(a + b, pat)
  {
    forall i | 0 <= i && i + |pat| <= |a + b|
      ensures !OccursAt(a + b, pat, i)
    {
      if i + |pat| <= |a| {
        assert (a + b)[i..i + |pat|] == a[i..i + |pat|];
        assert !OccursAt(a, pat, i);
      } else if |a| <= i {
        assert (a + b)[i..i + |pat|] == b[i - |a|..i - |a| + |pat|];
        assert !OccursAt(b, pat, i - |a|);
      } else {
        assert (a + b)[i..i + |pat|][|a| - 1 - i] == a[|a| - 1];
      }
    }
  }

  /** A prefix of a pattern-free string is pattern-free. */
  lemma FreePrefix<T>(s: seq<T>, k: nat, pat: seq<T>)
    requires k <= |s| && Free(s, pat)
    ensures Free(s[..k], pat)
  {
    forall i | 0 <= i && i + |pat| <= k
      ensures !OccursAt(s[..k], pat, i)
    {
      assert s[..k][i..i + |pat|] == s[i..i + |pat|];
      assert !OccursAt(s, pat, i);
    }
  }

  /** Strings of characters that are not in the pattern contain no occurrence of it. */
  lemma FreeOfForeign<T>(s: seq<T>, pat: seq<T>)
    requires |pat| > 0
    requires forall i :: 0 <= i < |s| ==> s[i] !in pat
    ensures Free(s, pat)
  {
    forall i | 0 <= i && i + |pat| <= |s|
      ensures !OccursAt(s, pat, i)
    {
      assert s[i..i + |pat|][0] == s[i];
    }
  }

  /** Concatenations regrouped to the right. */
  lemma Regroup<T>(a: seq<T>, b: seq<T>, c: seq<T>, d: seq<T>)
    ensures a + b + c + d == a + (b + (c + d))
  {
  }

  lemma Regroup3<T>(a: seq<T>, b: seq<T>, c: seq<T>)
    ensures a + b + c == a + (b + c)
  {
  }

  /** The last of four concatenated parts is what is left after the first three. */
  lemma LastPart<T>(a: seq<T>, b: seq<T>, c: seq<T>, d: seq<T>)
    ensures var s := a + (b + (c + d)); s[|s| - |d|..] == d
  {
    var s := a + (b + (c + d));
    assert s == (a + b + c) + d;
  }

  /** The last of three concatenated parts is what is left after the first two. */
  lemma LastOfThree<T>(a: seq<T>, b: seq<T>, c: seq<T>)
    ensures var s := a + (b + c); s[|s| - |c|..] == c
  {
    var s := a + (b + c);
    assert s == (a + b) + c;
  }
}
