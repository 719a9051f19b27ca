/**
 * The text payload of a packed file: frame blocks as the converters write
 * them, and the separator split with which the exporters and the legacy
 * player cut the payload back into frames.
 */
module Frames {
  import opened Text
  import Utf8

  // ---------------------------------------------------------------- writing

  /** The rows of one frame, each followed by a line break (StringBuilder.AppendLine). */
  function RowText(rows: seq<string>): (r: string)
    ensures |rows| == 0 <==> |r| == 0
    ensures |r| > 0 ==> r[|r| - 1] == '\n'
  {
    if |rows| == 0 then [] else RowText(rows[..|rows| - 1]) + (rows[|rows| - 1] + NewLine)
  }

  /** One frame block: its rows, then the marker on a line of its own. */
  function FrameBlock(rows: seq<string>): string
  {
    RowText(rows) + (Marker + NewLine)
  }

  /** The text file the frame loop writes: the frame blocks one after the other. */
  function Payload(frames: seq<seq<string>>): string
  {
    if |frames| == 0 then [] else FrameBlock(frames[0]) + Payload(frames[1..])
  }

  /** The frames' row texts, those of frames without rows left out. */
  function NonEmptyTexts(frames: seq<seq<string>>): seq<string>
  {
    if |frames| == 0 then []
    else (if |frames[0]| == 0 then [] else [RowText(frames[0])]) + NonEmptyTexts(frames[1..])
  }

  /** Writing one more block after a payload gives the payload of one more frame. */
  lemma {:induction false} PayloadAppend(frames: seq<seq<string>>, f: seq<string>)
    ensures Payload(frames + [f]) == Payload(frames) + FrameBlock(f)
    decreases |frames|
  {
    if |frames| > 0 {
      assert (frames + [f])[1..] == frames[1..] + [f];
      PayloadAppend(frames[1..], f);
    } else {
      assert Payload([f][1..]) == [];
    }
  }

  /** A character that is in no row and is not a line break is not in the rows' text. */
  lemma {:induction false} RowTextWithout(rows: seq<string>, c: char)
    requires c != '\r' && c != '\n'
    requires forall k :: 0 <= k < |rows| ==> c !in rows[k]
    ensures c !in RowText(rows)
    decreases |rows|
  {
    if |rows| > 0 {
      RowTextWithout(rows[..|rows| - 1], c);
      assert c !in rows[|rows| - 1];
    }
  }

  // ---------------------------------------------------------------- splitting

  /**
   * How much String.Split takes at a marker found at `i`: the separators are
   * tried in the order "FRAME_END\r\n", "FRAME_END\n", "FRAME_END", so the
   * line break after the marker goes with it.
   */
  function SeparatorLength(s: string, i: nat): (n: nat)
    requires OccursAt(s, Marker, i)
    ensures n == 9 || n == 10 || n == 11
    ensures i + n <= |s|
  {
    var j := i + MarkerLength;
    if j + 2 <= |s| && s[j] == '\r' && s[j + 1] == '\n' then 11
    else if j + 1 <= |s| && s[j] == '\n' then 10
    else 9
  }

  /**
   * String.Split(["FRAME_END\r\n", "FRAME_END\n", "FRAME_END"],
   * StringSplitOptions.RemoveEmptyEntries): cut at every separator, scanning
   * left to right, and drop the empty pieces.
   */
  function Split(s: string): seq<string>
    decreases |s|
  {
    var i := IndexOf(s, Marker);
    if i == -1 then (if |s| == 0 then [] else [s])
    else
      var head := s[..i];
      (if |head| == 0 then [] else [head]) + Split(s[i + SeparatorLength(s, i)..])
  }

  /** The part of `s` before the first occurrence at `i` contains no occurrence. */
  lemma FreeBeforeFirst(s: string, i: nat)
    requires i <= |s|
    requires forall j :: 0 <= j < i ==> !OccursAt(s, Marker, j)
    ensures Free(s[..i], Marker)
  {
    MarkerChars();
    forall j | 0 <= j && j + MarkerLength <= i
      ensures !OccursAt(s[..i], Marker, j)
    {
      assert s[..i][j..j + MarkerLength] == s[j..j + MarkerLength];
      assert !OccursAt(s, Marker, j);
    }
  }

  /** Every piece Split returns is non-empty and free of the marker. */
  lemma {:induction false} SplitPieces(s: string)
    ensures forall k :: 0 <= k < |Split(s)| ==> |Split(s)[k]| > 0 && Free(Split(s)[k], Marker)
    decreases |s|
  {
    var i := IndexOf(s, Marker);
    if i != -1 {
      var head := s[..i];
      var rest := s[i + SeparatorLength(s, i)..];
      FreeBeforeFirst(s, i);
      SplitPieces(rest);
      var first: seq<string> := if |head| == 0 then [] else [head];
      assert Split(s) == first + Split(rest);
      forall k | 0 <= k < |Split(s)|
        ensures |Split(s)[k]| > 0 && Free(Split(s)[k], Marker)
      {
        if k >= |first| {
          assert Split(s)[k] == Split(rest)[k - |first|];
        }
      }
    }
  }

  /** A string free of the marker is one piece, or none when empty. */
  lemma SplitFree(s: string)
    requires Free(s, Marker)
    ensures Split(s) == if |s| == 0 then [] else [s]
  {
  }

  // ---------------------------------------------------------------- round trip

  /** The first occurrence is at `i` when there is one there and none before. */
  lemma FirstAt(s: string, i: nat)
    requires OccursAt(s, Marker, i)
    requires forall j :: 0 <= j < i ==> !OccursAt(s, Marker, j)
    ensures IndexOf(s, Marker) == i
  {
    var r := IndexOf(s, Marker);
    assert !Free(s, Marker);
    assert OccursAt(s, Marker, r);
  }

  /**
   * In marker-free text that ends in a line break, followed by anything, no
   * marker starts before the end of that text: the marker has no line break.
   */
  lemma NoMarkerWithin(r: string, t: string)
    requires Free(r, Marker)
    requires |r| > 0 && r[|r| - 1] == '\n'
    ensures forall j :: 0 <= j < |r| ==> !OccursAt(r + t, Marker, j)
  {
    MarkerChars();
    var s := r + t;
    forall j | 0 <= j < |r|
      ensures !OccursAt(s, Marker, j)
    {
      if j + MarkerLength <= |r| {
        assert s[j..j + MarkerLength] == r[j..j + MarkerLength];
        assert !OccursAt(r, Marker, j);
      } else if j + MarkerLength <= |s| {
        assert s[j..j + MarkerLength][|r| - 1 - j] == r[|r| - 1] == '\n';
        assert Marker[|r| - 1 - j] != '\n';
      }
    }
  }

  /**
   * After marker-free rows ending in a line break, the first marker is the
   * one that closes the block: none starts inside the rows, and none
   * straddles their end.
   */
  lemma BlockFirstMarker(rows: seq<string>, rest: string)
    requires Free(RowText(rows), Marker)
    ensures var s := FrameBlock(rows) + rest;
      IndexOf(s, Marker) == |RowText(rows)| && SeparatorLength(s, |RowText(rows)|) == 11
  {
    var r := RowText(rows);
    var t := Marker + NewLine + rest;
    var s := FrameBlock(rows) + rest;
    assert s == r + t;
    assert t[..MarkerLength] == Marker;
    assert s[|r|..|r| + MarkerLength] == t[..MarkerLength];
    if |r| > 0 {
      NoMarkerWithin(r, t);
    }
    FirstAt(s, |r|);
    assert s[|r| + MarkerLength] == '\r' && s[|r| + MarkerLength + 1] == '\n';
  }

  /** Split cuts one frame block off the front of a payload. */
  lemma SplitBlock(rows: seq<string>, rest: string)
    requires Free(RowText(rows), Marker)
    ensures Split(FrameBlock(rows) + rest) == (if |rows| == 0 then [] else [RowText(rows)]) + Split(rest)
  {
    var r := RowText(rows);
    var s := FrameBlock(rows) + rest;
    BlockFirstMarker(rows, rest);
    assert s == r + (Marker + NewLine) + rest;
    assert s[..|r|] == r;
    assert s[|r| + 11..] == rest;
  }

  /**
   * Splitting the payload gives back each frame's row text, in order, as
   * long as no row text contains the marker; frames without rows vanish.
   */
  lemma {:induction false} SplitPayload(frames: seq<seq<string>>)
    requires forall k :: 0 <= k < |frames| ==> Free(RowText(frames[k]), Marker)
    ensures Split(Payload(frames)) == NonEmptyTexts(frames)
    decreases |frames|
  {
    if |frames| > 0 {
      SplitBlock(frames[0], Payload(frames[1..]));
      SplitPayload(frames[1..]);
    }
  }

  /**
   * The exporters and the legacy player read the payload back through UTF-8
   * before splitting it, which changes nothing.
   */
  lemma SplitPayloadBytes(frames: seq<seq<string>>)
    requires forall k :: 0 <= k < |frames| ==> Free(RowText(frames[k]), Marker)
    ensures Split(Utf8.Decode(Utf8.Encode(Payload(frames)))) == NonEmptyTexts(frames)
  {
    Utf8.DecodeEncode(Payload(frames));
    SplitPayload(frames);
  }

  /** A row text over characters that miss one of the marker's characters is free of the marker. */
  lemma {:induction false} FreeOfMissing(s: string, c: char)
    requires c in Marker && c !in s
    ensures Free(s, Marker)
  {
    MarkerChars();
    var k :| 0 <= k < |Marker| && Marker[k] == c;
    forall i | 0 <= i && i + MarkerLength <= |s|
      ensures !OccursAt(s, Marker, i)
    {
      assert s[i..i + MarkerLength][k] == s[i + k];
    }
  }
}
