/**
 * The streaming player's view of a packed file: the offsets at which its
 * frames start, as the chunked scan for the marker bytes finds them, and
 * the text it makes of the bytes between two offsets.
 */
module FrameIndex {
  import opened Text
  import Utf8

  // ---------------------------------------------------------------- arithmetic

  /**
   * Where the byte `d` bytes after the start of the scan falls within its
   * read of `chunk` bytes: `d` modulo `chunk`.
   */
  function InRead(d: nat, chunk: nat): (r: nat)
    requires chunk > 0
    ensures r < chunk
    decreases d
  {
    if d < chunk then d else InRead(d - chunk, chunk)
  }

  /** The `i`-th byte after the start of a read is at position `i` of that read. */
  lemma {:induction false} InReadAfter(d: nat, chunk: nat, i: nat)
    requires chunk > 0 && InRead(d, chunk) == 0 && i < chunk
    ensures InRead(d + i, chunk) == i
    decreases d
  {
    if d >= chunk {
      InReadAfter(d - chunk, chunk, i);
    }
  }

  // ---------------------------------------------------------------- the index

  /**
   * The scan from `start` in `chunk`-byte reads finds a marker at `p` when
   * the marker bytes are there and all nine lie in the same read: one that
   * straddles two reads is not recognised.
   */
  predicate Seen(file: seq<byte>, start: nat, chunk: nat, p: nat)
    requires chunk > 0
  {
    start <= p && OccursAt(file, MarkerBytes, p) && InRead(p - start, chunk) + MarkerLength <= chunk
  }

  /**
   * The offsets the scan adds for markers at positions below `hi`, in scan
   * order: the end of each marker it finds, unless that is the end of the file.
   */
  function MarkerEnds(file: seq<byte>, start: nat, chunk: nat, hi: nat): (ends: seq<nat>)
    requires chunk > 0
    ensures forall k :: 0 <= k < |ends| ==> start + MarkerLength <= ends[k] < |file|
    ensures forall k :: 0 <= k < |ends| ==> ends[k] < hi + MarkerLength
    decreases hi
  {
    if hi <= start then []
    else
      var p := hi - 1;
      MarkerEnds(file, start, chunk, p)
        + (if Seen(file, start, chunk, p) && p + MarkerLength < |file| then [p + MarkerLength] else [])
  }

  /** One more position of the scan adds the end of a marker seen there, unless it is the end of the file. */
  lemma MarkerEndsStep(file: seq<byte>, start: nat, chunk: nat, hi: nat)
    requires chunk > 0 && start < hi
    ensures MarkerEnds(file, start, chunk, hi) == MarkerEnds(file, start, chunk, hi - 1)
      + (if Seen(file, start, chunk, hi - 1) && hi - 1 + MarkerLength < |file| then [hi - 1 + MarkerLength] else [])
  {
  }

  /** The frame offsets of a file whose text starts at `start`: that position, then every marker end found. */
  function Index(file: seq<byte>, start: nat, chunk: nat): (offsets: seq<nat>)
    requires chunk > 0
    ensures |offsets| >= 1 && offsets[0] == start
  {
    [start] + MarkerEnds(file, start, chunk, |file|)
  }

  /** Two occurrences of the marker never overlap: no proper suffix of it is a prefix. */
  lemma NoOverlap(s: seq<byte>, p: nat, q: nat)
    requires OccursAt(s, MarkerBytes, p) && OccursAt(s, MarkerBytes, q) && p < q
    ensures p + MarkerLength <= q
  {
    forall r | p < r < p + MarkerLength && r + MarkerLength <= |s|
      ensures !OccursAt(s, MarkerBytes, r)
    {
      assert s[r] == s[p..p + MarkerLength][r - p];
      assert s[r..r + MarkerLength][0] == s[r];
    }
  }

  /** An offset is added exactly for each marker found, ending before the end of the file and below `hi`. */
  lemma {:induction false} MarkerEndsMembers(file: seq<byte>, start: nat, chunk: nat, hi: nat)
    requires chunk > 0
    ensures forall e :: e in MarkerEnds(file, start, chunk, hi) <==>
      start + MarkerLength <= e < hi + MarkerLength && e < |file| && Seen(file, start, chunk, e - MarkerLength)
    decreases hi
  {
    if hi > start {
      var p := hi - 1;
      var front := MarkerEnds(file, start, chunk, p);
      var last: seq<nat> := if Seen(file, start, chunk, p) && p + MarkerLength < |file| then [p + MarkerLength] else [];
      assert MarkerEnds(file, start, chunk, hi) == front + last;
      MarkerEndsMembers(file, start, chunk, p);
      forall e
        ensures e in front + last <==>
          start + MarkerLength <= e < hi + MarkerLength && e < |file| && Seen(file, start, chunk, e - MarkerLength)
      {
        assert e in front + last <==> e in front || e in last;
        assert e in last <==> e == p + MarkerLength && Seen(file, start, chunk, p) && p + MarkerLength < |file|;
      }
    }
  }

  predicate Increasing(s: seq<int>)
  {
    forall i, j :: 0 <= i < j < |s| ==> s[i] < s[j]
  }

  /** The offsets are added in increasing order. */
  lemma {:induction false} MarkerEndsIncreasing(file: seq<byte>, start: nat, chunk: nat, hi: nat)
    requires chunk > 0
    ensures Increasing(MarkerEnds(file, start, chunk, hi))
    decreases hi
  {
    if hi > start {
      var front := MarkerEnds(file, start, chunk, hi - 1);
      var ends := MarkerEnds(file, start, chunk, hi);
      var p := hi - 1;
      var last: seq<nat> := if Seen(file, start, chunk, p) && p + MarkerLength < |file| then [p + MarkerLength] else [];
      assert ends == front + last;
      MarkerEndsIncreasing(file, start, chunk, p);
      forall i, j | 0 <= i < j < |ends|
        ensures ends[i] < ends[j]
      {
        assert ends[i] == front[i];
        if j < |front| {
          assert ends[j] == front[j];
        } else {
          assert ends[j] == last[0] == p + MarkerLength;
          assert front[i] < p + MarkerLength;
        }
      }
    }
  }

  /**
   * The index starts with the text start; every later entry is the end of
   * a marker the scan saw, strictly inside the file, and every such marker
   * end is in the index; the entries strictly increase.
   */
  lemma IndexShape(file: seq<byte>, start: nat, chunk: nat)
    requires chunk > 0
    ensures var offsets := Index(file, start, chunk);
      && offsets[0] == start
      && (forall e :: e in offsets[1..] <==>
            start + MarkerLength <= e < |file| && Seen(file, start, chunk, e - MarkerLength))
      && Increasing(offsets)
  {
    var offsets := Index(file, start, chunk);
    var ends := MarkerEnds(file, start, chunk, |file|);
    assert offsets[1..] == ends;
    MarkerEndsMembers(file, start, chunk, |file|);
    MarkerEndsIncreasing(file, start, chunk, |file|);
    forall i, j | 0 <= i < j < |offsets|
      ensures offsets[i] < offsets[j]
    {
      assert offsets[j] == ends[j - 1];
      if i > 0 {
        assert offsets[i] == ends[i - 1];
      } else {
        assert offsets[i] == start;
        assert start + MarkerLength <= ends[j - 1];
      }
    }
  }

  /** A marker that straddles two reads is never indexed. */
  lemma StraddleMissed(file: seq<byte>, start: nat, chunk: nat, p: nat)
    requires chunk > 0 && start <= p
    requires InRead(p - start, chunk) + MarkerLength > chunk
    ensures p + MarkerLength !in Index(file, start, chunk)
  {
    MarkerEndsMembers(file, start, chunk, |file|);
  }

  /** When the whole text fits in one read, every marker in it is seen. */
  lemma OneChunkSeesAll(file: seq<byte>, start: nat, chunk: nat, p: nat)
    requires chunk > 0 && start + chunk >= |file|
    requires start <= p && OccursAt(file, MarkerBytes, p)
    ensures Seen(file, start, chunk, p)
  {
  }

  /** Positions without a marker add no offset. */
  lemma {:induction false} MarkerEndsSkip(file: seq<byte>, start: nat, chunk: nat, lo: nat, hi: nat)
    requires chunk > 0 && start <= lo <= hi
    requires forall p :: lo <= p < hi ==> !OccursAt(file, MarkerBytes, p)
    ensures MarkerEnds(file, start, chunk, hi) == MarkerEnds(file, start, chunk, lo)
    decreases hi
  {
    if hi > lo {
      MarkerEndsSkip(file, start, chunk, lo, hi - 1);
    }
  }

  /**
   * The index depends on the read size: with 4-byte reads the marker at
   * the start of this text straddles two reads and is missed; with 64 KiB
   * reads it is found and a second frame starts after it.
   */
  lemma ChunkSizeMatters()
    ensures Index(MarkerBytes + [0x0D, 0x0A], 0, 4) == [0]
    ensures Index(MarkerBytes + [0x0D, 0x0A], 0, 65536) == [0, 9]
  {
    var file := MarkerBytes + [0x0D, 0x0A];
    assert OccursAt(file, MarkerBytes, 0);
    forall p | 1 <= p < |file|
      ensures !OccursAt(file, MarkerBytes, p)
    {
      assert file[p] != 0x46;
    }
    MarkerEndsSkip(file, 0, 4, 1, |file|);
    MarkerEndsSkip(file, 0, 65536, 1, |file|);
  }

  // ---------------------------------------------------------------- reading a frame

  /**
   * The text of a frame's bytes once decoded: the part before the last
   * marker with trailing white space removed, or the whole text trimmed
   * when there is no marker.
   */
  function StripMarker(raw: string): string
  {
    var k := LastIndexOf(raw, Marker);
    if k >= 0 then TrimEnd(raw[..k]) else TrimEnd(raw)
  }

  /** A text that ends with the marker loses it and its trailing white space, whatever comes before. */
  lemma StripClosingMarker(w: string)
    ensures StripMarker(w + Marker) == TrimEnd(w)
  {
    var raw := w + Marker;
    assert raw[|w|..|w| + |Marker|] == Marker;
    assert OccursAt(raw, Marker, |w|);
    assert raw[..|w|] == w;
  }

  /**
   * ReadFrame(index): the bytes from the frame's offset to the next one,
   * or to the end of the file for the last frame, decoded and stripped;
   * the empty string when no file is open, the index is out of range, the
   * range is empty or the read fails.
   */
  function FrameText(file: Option<seq<byte>>, offsets: seq<int>, index: int): (text: string)
    ensures file.None? || index < 0 || index >= |offsets| ==> text == ""
  {
    if file.None? || index < 0 || index >= |offsets| then ""
    else
      var start := offsets[index];
      var end := if index + 1 < |offsets| then offsets[index + 1] else |file.value|;
      if end - start <= 0 || start < 0 || end > |file.value| then ""
      else StripMarker(Utf8.Decode(file.value[start..end]))
  }

  /** The marker bytes decode to the marker. */
  lemma DecodeMarker()
    ensures Utf8.Decode(MarkerBytes) == Marker
  {
    assert Utf8.IsAscii(Marker);
    assert Utf8.AsciiBytes(Marker) == MarkerBytes;
    Utf8.DecodeAscii(Marker);
  }

  /**
   * Consecutive entries of an index are at least a marker apart, and a
   * marker ends at every entry after the first.
   */
  lemma IndexGap(file: seq<byte>, start: nat, chunk: nat, i: nat)
    requires chunk > 0
    requires i + 1 < |Index(file, start, chunk)|
    ensures var offsets := Index(file, start, chunk);
      offsets[i] + MarkerLength <= offsets[i + 1] <= |file|
      && OccursAt(file, MarkerBytes, offsets[i + 1] - MarkerLength)
  {
    var offsets := Index(file, start, chunk);
    IndexShape(file, start, chunk);
    var e := offsets[i + 1];
    assert e in offsets[1..] by {
      assert offsets[1..][i] == e;
    }
    if i > 0 {
      assert offsets[i] in offsets[1..] by {
        assert offsets[1..][i - 1] == offsets[i];
      }
      NoOverlap(file, offsets[i] - MarkerLength, e - MarkerLength);
    }
  }

  /** Text followed by the marker bytes decodes to its own text followed by the marker. */
  lemma DecodeBeforeMarker(w: seq<byte>)
    ensures Utf8.Decode(w + MarkerBytes) == Utf8.Decode(w) + Marker
  {
    Utf8.DecodeAppend(w, MarkerBytes);
    DecodeMarker();
  }

  /** A frame that is not the last reads the bytes up to the next offset. */
  lemma InnerFrame(file: seq<byte>, offsets: seq<int>, i: nat)
    requires i + 1 < |offsets|
    requires 0 <= offsets[i] < offsets[i + 1] <= |file|
    ensures FrameText(Some(file), offsets, i) == StripMarker(Utf8.Decode(file[offsets[i]..offsets[i + 1]]))
  {
  }

  /** A frame whose range ends with the marker bytes reads as the text before them, trimmed. */
  lemma FrameBeforeMarker(file: seq<byte>, offsets: seq<int>, i: nat)
    requires i + 1 < |offsets|
    requires 0 <= offsets[i] && offsets[i] + MarkerLength <= offsets[i + 1] <= |file|
    requires OccursAt(file, MarkerBytes, offsets[i + 1] - MarkerLength)
    ensures FrameText(Some(file), offsets, i)
      == TrimEnd(Utf8.Decode(file[offsets[i]..offsets[i + 1] - MarkerLength]))
  {
    var p := offsets[i + 1] - MarkerLength;
    var w := file[offsets[i]..p];
    var raw := file[offsets[i]..offsets[i + 1]];
    assert raw == w + MarkerBytes;
    InnerFrame(file, offsets, i);
    DecodeBeforeMarker(w);
    var text := Utf8.Decode(w);
    assert Utf8.Decode(raw) == text + Marker;
    StripClosingMarker(text);
  }

  /**
   * Every frame of an index but the last is the text between its offset
   * and the marker that closes it, trimmed at the end.
   */
  lemma IndexedFrame(file: seq<byte>, start: nat, chunk: nat, i: nat)
    requires chunk > 0
    requires i + 1 < |Index(file, start, chunk)|
    ensures var offsets := Index(file, start, chunk);
      offsets[i] + MarkerLength <= offsets[i + 1] <= |file|
      && FrameText(Some(file), offsets, i)
         == TrimEnd(Utf8.Decode(file[offsets[i]..offsets[i + 1] - MarkerLength]))
  {
    IndexGap(file, start, chunk, i);
    FrameBeforeMarker(file, Index(file, start, chunk), i);
  }
}
