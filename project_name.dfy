/**
 * The project name of a conversion (ConvertButton_Click): the text of the
 * name box, trimmed, "OutputVideo" when that leaves nothing, with every run
 * of characters Windows refuses in a file name replaced by one underscore.
 */
module ProjectName {
  import opened Text

  /** Path.GetInvalidFileNameChars() on Windows: the control characters and " < > | : * ? \ /. */
  predicate InvalidFileNameChar(c: char)
  {
    c < ' ' || c in "\"<>|:*?\\/"
  }

  /** A string Windows accepts as (part of) a file name. */
  predicate Clean(s: string)
  {
    forall i :: 0 <= i < |s| ==> !InvalidFileNameChar(s[i])
  }

  /** The run read so far, unless it is empty (StringSplitOptions.RemoveEmptyEntries). */
  function Flush(cur: string): (r: seq<string>)
    ensures cur == [] <==> r == []
  {
    if cur == [] then [] else [cur]
  }

  /**
   * string.Split(invalidChars, RemoveEmptyEntries) on `s`, where `cur` is the
   * run of kept characters read before `s`: the maximal runs of valid
   * characters, in order.
   */
  function Runs(s: string, cur: string): seq<string>
    decreases |s|
  {
    if |s| == 0 then Flush(cur)
    else if InvalidFileNameChar(s[0]) then Flush(cur) + Runs(s[1..], [])
    else Runs(s[1..], cur + [s[0]])
  }

  /** string.Join(sep, parts). */
  function Join(sep: string, parts: seq<string>): string
  {
    if |parts| == 0 then []
    else if |parts| == 1 then parts[0]
    else parts[0] + sep + Join(sep, parts[1..])
  }

  /** The name box's text trimmed, or "OutputVideo" when nothing is left. */
  function RawName(text: string): (raw: string)
    ensures raw != []
  {
    if Trim(text) == [] then "OutputVideo" else Trim(text)
  }

  /** The project name as ConvertButton_Click computes it. */
  function SanitizeName(text: string): string
  {
    Join("_", Runs(RawName(text), []))
  }

  // ---------------------------------------------------------------- runs

  /** Every run is non-empty and clean. */
  lemma {:induction false} RunsClean(s: string, cur: string)
    requires Clean(cur)
    ensures forall k :: 0 <= k < |Runs(s, cur)| ==> Runs(s, cur)[k] != [] && Clean(Runs(s, cur)[k])
    decreases |s|
  {
    if |s| > 0 {
      if InvalidFileNameChar(s[0]) {
        RunsClean(s[1..], []);
      } else {
        RunsClean(s[1..], cur + [s[0]]);
      }
    }
  }

  /** Joining clean parts with a clean separator gives a clean string. */
  lemma {:induction false} JoinClean(sep: string, parts: seq<string>)
    requires Clean(sep)
    requires forall k :: 0 <= k < |parts| ==> Clean(parts[k])
    ensures Clean(Join(sep, parts))
    decreases |parts|
  {
    if |parts| > 1 {
      JoinClean(sep, parts[1..]);
      var rest := Join(sep, parts[1..]);
      assert Join(sep, parts) == parts[0] + sep + rest;
      forall i | 0 <= i < |parts[0] + sep + rest|
        ensures !InvalidFileNameChar((parts[0] + sep + rest)[i])
      {
        if i >= |parts[0]| + |sep| {
          assert (parts[0] + sep + rest)[i] == rest[i - |parts[0]| - |sep|];
        }
      }
    }
  }

  /** Valid characters extend the current run. */
  lemma {:induction false} RunsKeep(a: string, rest: string, cur: string)
    requires Clean(a)
    ensures Runs(a + rest, cur) == Runs(rest, cur + a)
    decreases |a|
  {
    if |a| == 0 {
      assert a + rest == rest;
      assert cur + a == cur;
    } else {
      assert (a + rest)[0] == a[0];
      assert (a + rest)[1..] == a[1..] + rest;
      RunsKeep(a[1..], rest, cur + [a[0]]);
      assert cur + [a[0]] + a[1..] == cur + a;
    }
  }

  /** A run of invalid characters ends the current run and starts a new one. */
  lemma {:induction false} RunsSkip(r: string, rest: string, cur: string)
    requires r != [] && forall i :: 0 <= i < |r| ==> InvalidFileNameChar(r[i])
    ensures Runs(r + rest, cur) == Flush(cur) + Runs(rest, [])
    decreases |r|
  {
    assert (r + rest)[0] == r[0];
    assert (r + rest)[1..] == r[1..] + rest;
    if |r| > 1 {
      RunsSkip(r[1..], rest, []);
    } else {
      assert r[1..] + rest == rest;
    }
  }

  /** A clean, non-empty string is one run, joined back unchanged. */
  lemma JoinRunsOfClean(s: string)
    requires s != [] && Clean(s)
    ensures Join("_", Runs(s, [])) == s
  {
    RunsKeep(s, [], []);
    assert s + [] == s;
    assert [] + s == s;
  }

  /** Two clean runs around a run of invalid characters are joined by one underscore. */
  lemma JoinRunsAround(a: string, r: string, b: string)
    requires a != [] && Clean(a) && b != [] && Clean(b)
    requires r != [] && forall i :: 0 <= i < |r| ==> InvalidFileNameChar(r[i])
    ensures Join("_", Runs(a + r + b, [])) == a + "_" + b
  {
    assert a + r + b == a + (r + b);
    RunsKeep(a, r + b, []);
    assert [] + a == a;
    RunsSkip(r, b, a);
    RunsKeep(b, [], []);
    assert b + [] == b;
    assert [] + b == b;
    assert Runs(a + r + b, []) == [a] + [b];
  }

  /** Joined runs never hold an invalid character. */
  lemma JoinRunsClean(s: string)
    ensures Clean(Join("_", Runs(s, [])))
  {
    RunsClean(s, []);
    JoinClean("_", Runs(s, []));
  }

  lemma DefaultClean()
    ensures Clean("OutputVideo")
  {
  }

  // ---------------------------------------------------------------- the name

  /** The project name never holds a character Windows refuses in a file name. */
  lemma SanitizeNameClean(text: string)
    ensures Clean(SanitizeName(text))
  {
    JoinRunsClean(RawName(text));
  }

  /** A clean name keeps its trimmed text. */
  lemma SanitizeNameKeeps(text: string)
    requires Trim(text) != [] && Clean(Trim(text))
    ensures SanitizeName(text) == Trim(text)
  {
    JoinRunsOfClean(RawName(text));
  }

  /** A blank name becomes "OutputVideo". */
  lemma SanitizeNameBlank(text: string)
    requires Trim(text) == []
    ensures SanitizeName(text) == "OutputVideo"
  {
    DefaultClean();
    JoinRunsOfClean(RawName(text));
  }

  /** Each run of invalid characters between kept characters becomes one underscore. */
  lemma RunBecomesUnderscore(text: string, a: string, r: string, b: string)
    requires Trim(text) == a + r + b
    requires a != [] && Clean(a) && b != [] && Clean(b)
    requires r != [] && forall i :: 0 <= i < |r| ==> InvalidFileNameChar(r[i])
    ensures SanitizeName(text) == a + "_" + b
  {
    assert RawName(text) == a + r + b;
    JoinRunsAround(a, r, b);
  }

  // ---------------------------------------------------------------- the empty name

  /**
   * A name made only of invalid characters (such as "?") is not blank, so
   * the "OutputVideo" default is skipped, and then every character is
   * removed: the project name is empty and the file is saved as ".asciiv".
   */
  lemma InvalidNameBecomesEmpty(text: string)
    requires Trim(text) != []
    requires forall i :: 0 <= i < |Trim(text)| ==> InvalidFileNameChar(Trim(text)[i])
    ensures SanitizeName(text) == []
  {
    var t := Trim(text);
    RunsSkip(t, [], []);
    assert t + [] == t;
  }

  /** The concrete case: the name "?". */
  lemma QuestionMarkBecomesEmpty()
    ensures SanitizeName("?") == []
  {
    assert TrimEnd("?") == "?";
    assert TrimStart("?") == "?";
    InvalidNameBecomesEmpty("?");
  }

  /** The name with the default applied after sanitising, where an empty result is caught too. */
  function SanitizeNameFixed(text: string): string
  {
    var joined := Join("_", Runs(Trim(text), []));
    if joined == [] then "OutputVideo" else joined
  }

  /** The corrected name is never empty and never holds an invalid character. */
  lemma SanitizeNameFixedClean(text: string)
    ensures SanitizeNameFixed(text) != [] && Clean(SanitizeNameFixed(text))
  {
    JoinRunsClean(Trim(text));
    DefaultClean();
  }

  /** The corrected name is the name as written whenever that one is not empty. */
  lemma SanitizeNameFixedAgrees(text: string)
    requires SanitizeName(text) != []
    ensures SanitizeNameFixed(text) == SanitizeName(text)
  {
    if Trim(text) == [] {
      assert Runs(Trim(text), []) == [];
      SanitizeNameBlank(text);
    } else {
      assert RawName(text) == Trim(text);
    }
  }
}
