/**
 * The streaming player (ASCIIV.Player): it opens a packed file, reads the
 * header, indexes the frames by scanning the text for the marker bytes in
 * fixed-size reads, and then, tick by tick, shows the frame that the audio
 * position or its own stopwatch points at, reading only that frame from
 * the file.
 */
module Player {
  import opened Text
  import Utf8
  import Container
  import Clock
  import FrameIndex

  /** The calls the player makes on its MediaPlayer, in order. */
  datatype MediaCall = Open(audio: seq<byte>) | Play | Pause | Stop | Close | Seek(position: real)

  /** What the player keeps of the project it loaded. */
  datatype Project = Project(fps: real, colorName: string)

  /**
   * The project after the header reads of `data`: set from the fps and the
   * colour name as soon as both are read, whatever follows; `before` when
   * either of them fails.
   */
  function ProjectAfter(data: seq<byte>, binary64: seq<byte> -> real, before: Option<Project>): (p: Option<Project>)
    ensures Container.ParseHeader(data).Ok? ==> p == Some(Project(binary64(Container.ParseHeader(data).value.fps),
                                                                  Container.ParseHeader(data).value.ColorName()))
    ensures Container.ReadDouble(data).Err? ==> p == before
  {
    match Container.ReadProjectFields(data)
    case Ok((fps, colorBytes)) => Some(Project(binary64(fps), Utf8.Decode(colorBytes)))
    case Err(_) => before
  }

  function Min(a: int, b: int): int
  {
    if a <= b then a else b
  }

  // ---------------------------------------------------------------- timing

  /**
   * The playback time of a tick, in seconds: the audio position while audio
   * plays, except that a position still at zero after more than 500 ms of
   * stopwatch time counts as stuck and the stopwatch plus the seek offset is
   * used instead; without audio, always the stopwatch plus the seek offset.
   */
  function PlaybackTime(audio: bool, audioPosition: real, watch: Clock.Stopwatch, seekOffset: real): (t: real)
    ensures audio && audioPosition != 0.0 ==> t == audioPosition
    ensures !audio ==> t == watch.elapsed + seekOffset
  {
    if audio && !(audioPosition == 0.0 && Clock.ElapsedMilliseconds(watch) > 500) then audioPosition
    else watch.elapsed + seekOffset
  }

  /** The frame shown at `t` seconds: seconds times frames per second, truncated. */
  function FrameAt(t: real, fps: real): int
  {
    Clock.Truncate(t * fps)
  }

  /** The frame a tick targets. */
  function TargetFrame(audio: bool, audioPosition: real, watch: Clock.Stopwatch, seekOffset: real, fps: real): int
  {
    FrameAt(PlaybackTime(audio, audioPosition, watch, seekOffset), fps)
  }

  /**
   * After the slider is dropped on frame `n`, the seek offset is `n / fps`
   * and the stopwatch restarts, so a tick before any time passes targets
   * frame `n` again, both on the stopwatch and on the audio position the
   * seek moved the media player to.
   */
  lemma SeekLandsOnFrame(n: int, fps: real, audio: bool, watch: Clock.Stopwatch)
    requires fps != 0.0
    ensures var t := n as real / fps;
      TargetFrame(false, 0.0, Clock.Restart(watch), t, fps) == n
      && TargetFrame(true, t, Clock.Restart(watch), t, fps) == n
  {
    var t := n as real / fps;
    var w := Clock.Restart(watch);
    assert t * fps == n as real;
    Clock.TruncateWhole(n);
    assert FrameAt(t, fps) == n;
    assert Clock.ElapsedMilliseconds(w) == 0;
    assert PlaybackTime(false, 0.0, w, t) == t;
    assert PlaybackTime(true, t, w, t) == t;
  }

  /** Without audio and with a non-negative frame rate, the target frame never moves back as time passes. */
  lemma TargetNeverMovesBack(watch: Clock.Stopwatch, dt: real, seekOffset: real, fps: real, audioPosition: real)
    requires dt >= 0.0 && fps >= 0.0
    ensures TargetFrame(false, audioPosition, watch, seekOffset, fps)
         <= TargetFrame(false, audioPosition, Clock.Advance(watch, dt), seekOffset, fps)
  {
    var before := (watch.elapsed + seekOffset) * fps;
    var after := (Clock.Advance(watch, dt).elapsed + seekOffset) * fps;
    assert before <= after;
    Clock.TruncateMonotone(before, after);
  }

  /**
   * While the audio plays, its position decides the frame; only a position
   * stuck at zero for more than half a second of stopwatch time hands over
   * to the stopwatch.
   */
  lemma AudioDecides(audioPosition: real, watch: Clock.Stopwatch, seekOffset: real)
    ensures audioPosition != 0.0 ==> PlaybackTime(true, audioPosition, watch, seekOffset) == audioPosition
    ensures watch.elapsed >= 0.0 && watch.elapsed * 1000.0 < 501.0
      ==> PlaybackTime(true, 0.0, watch, seekOffset) == 0.0
    ensures watch.elapsed * 1000.0 >= 501.0
      ==> PlaybackTime(true, 0.0, watch, seekOffset) == watch.elapsed + seekOffset
  {
  }

  // ---------------------------------------------------------------- reading

  /** Stream.Read on the file at `position`: as many bytes as fit in the buffer and are left. */
  method ReadChunk(file: seq<byte>, position: nat, buffer: array<byte>) returns (n: nat)
    requires position < |file|
    modifies buffer
    ensures n == Min(buffer.Length, |file| - position)
    ensures buffer[..n] == file[position..position + n]
  {
    n := Min(buffer.Length, |file| - position);
    for k := 0 to n
      invariant buffer[..k] == file[position..position + k]
    {
      buffer[k] := file[position + k];
      assert buffer[..k + 1] == buffer[..k] + [buffer[k]];
    }
  }

  /**
   * IsMatch: whether the marker, whose first byte the caller has already
   * matched, continues at `index` within the `count` bytes read.
   */
  method IsMatch(buffer: array<byte>, index: nat, count: nat) returns (b: bool)
    requires count <= buffer.Length
    ensures b <==> (index + MarkerLength <= count
      && buffer[index + 1..index + MarkerLength] == MarkerBytes[1..])
  {
    if index + MarkerLength > count {
      return false;
    }
    var j := 1;
    while j < MarkerLength
      invariant 1 <= j <= MarkerLength
      invariant buffer[index + 1..index + j] == MarkerBytes[1..j]
    {
      if buffer[index + j] != MarkerBytes[j] {
        assert buffer[index + 1..index + MarkerLength][j - 1] != MarkerBytes[1..][j - 1];
        return false;
      }
      assert buffer[index + 1..index + j + 1] == buffer[index + 1..index + j] + [buffer[index + j]];
      assert MarkerBytes[1..j + 1] == MarkerBytes[1..j] + [MarkerBytes[j]];
      j := j + 1;
    }
    return true;
  }

  /**
   * The byte tests of the scan at the `i`-th byte of a read of `n` bytes
   * starting at `q` find exactly the markers the scan sees there: a read
   * is `chunk` bytes unless it reaches the end of the file.
   */
  lemma SeenIff(file: seq<byte>, start: nat, chunk: nat, q: nat, i: nat, n: nat, read: seq<byte>)
    requires 0 < chunk && start <= q && i < n <= chunk && FrameIndex.InRead(q + i - start, chunk) == i
    requires q + n <= |file| && (n < chunk ==> q + n == |file|)
    requires read == file[q..q + n]
    ensures FrameIndex.Seen(file, start, chunk, q + i)
      <==> (i + MarkerLength <= n && read[i] == MarkerBytes[0]
            && read[i + 1..i + MarkerLength] == MarkerBytes[1..])
  {
    if i + MarkerLength <= n {
      var w := read[i..i + MarkerLength];
      assert forall k :: 0 <= k < MarkerLength ==> w[k] == read[i + k] == file[q + i + k];
      assert file[q + i..q + i + MarkerLength] == w;
      assert w == [read[i]] + read[i + 1..i + MarkerLength];
      assert MarkerBytes == [MarkerBytes[0]] + MarkerBytes[1..];
    }
  }

  /**
   * Whether the scan finds a marker at byte `j` of the read held in the
   * first `n` bytes of `b`: the first byte matches and IsMatch confirms
   * the rest.
   */
  ghost predicate FoundAt(b: seq<byte>, n: nat, j: nat)
    requires j < n <= |b|
  {
    b[j] == MarkerBytes[0] && j + MarkerLength <= n && b[j + 1..j + MarkerLength] == MarkerBytes[1..]
  }

  /** The offset a marker found at `p` adds: its end, unless that is the end of the file. */
  function MarkerEnd(found: bool, p: int, len: int): seq<nat>
  {
    if found && 0 <= p && p + MarkerLength < len then [p + MarkerLength] else []
  }

  /**
   * At position `p`, within the read held in the first `n` bytes of `b`
   * taken at `q`: the offset the whole-file scan adds there is the one the byte
   * tests add.
   */
  lemma SeenFound(file: seq<byte>, start: nat, chunk: nat, q: nat, p: nat, n: nat, b: seq<byte>)
    requires 0 < chunk && start <= q <= p < q + n && n <= chunk && FrameIndex.InRead(q - start, chunk) == 0
    requires q + n <= |file| && (n < chunk ==> q + n == |file|)
    requires n <= |b| && b[..n] == file[q..q + n]
    ensures (if FrameIndex.Seen(file, start, chunk, p) && p + MarkerLength < |file| then [p + MarkerLength] else [])
      == MarkerEnd(FoundAt(b, n, p - q), p, |file|)
  {
    var i := p - q;
    FrameIndex.InReadAfter(q - start, chunk, i);
    var read := b[..n];
    assert b[i] == read[i];
    if i + MarkerLength <= n {
      assert forall k :: i + 1 <= k < i + MarkerLength ==> b[k] == read[k];
      assert b[i + 1..i + MarkerLength] == read[i + 1..i + MarkerLength];
    }
    SeenIff(file, start, chunk, q, i, n, read);
  }

  /**
   * One more position of the scan, on the buffer `b` whose first `n` bytes
   * are the read taken at `q`: the end of a marker at `hi - 1` is added
   * exactly when the byte tests find it and it does not end the file.
   */
  lemma ScanAt(file: seq<byte>, start: nat, chunk: nat, q: nat, hi: nat, n: nat, b: seq<byte>)
    requires 0 < chunk && start <= q < hi <= q + n && n <= chunk && FrameIndex.InRead(q - start, chunk) == 0
    requires q + n <= |file| && (n < chunk ==> q + n == |file|)
    requires n <= |b| && b[..n] == file[q..q + n]
    ensures FrameIndex.MarkerEnds(file, start, chunk, hi)
      == FrameIndex.MarkerEnds(file, start, chunk, hi - 1) + MarkerEnd(FoundAt(b, n, hi - 1 - q), hi - 1, |file|)
  {
    var p := hi - 1;
    SeenFound(file, start, chunk, q, p, n, b);
    FrameIndex.MarkerEndsStep(file, start, chunk, hi);
    var last := if FrameIndex.Seen(file, start, chunk, p) && p + MarkerLength < |file| then [p + MarkerLength] else [];
    assert last == MarkerEnd(FoundAt(b, n, p - q), p, |file|);
  }

  /**
   * The offsets the scan of the read held in the first `n` bytes of `b`,
   * taken at `q` from a file of `len` bytes, adds for the positions below `hi`.
   */
  ghost function ScanEnds(b: seq<byte>, n: nat, q: nat, len: nat, hi: nat): seq<nat>
    requires q <= hi <= q + n && n <= |b|
    decreases hi
  {
    if hi == q then [] else ScanEnds(b, n, q, len, hi - 1) + MarkerEnd(FoundAt(b, n, hi - 1 - q), hi - 1, len)
  }

  /** Scanning a read byte by byte finds what the scan of the whole file finds within it. */
  lemma {:induction false} ScanEndsAgree(file: seq<byte>, start: nat, chunk: nat, q: nat, n: nat, b: seq<byte>, hi: nat)
    requires 0 < chunk && start <= q && n <= chunk && FrameIndex.InRead(q - start, chunk) == 0
    requires q + n <= |file| && (n < chunk ==> q + n == |file|)
    requires n <= |b| && b[..n] == file[q..q + n] && q <= hi <= q + n
    ensures FrameIndex.MarkerEnds(file, start, chunk, hi)
      == FrameIndex.MarkerEnds(file, start, chunk, q) + ScanEnds(b, n, q, |file|, hi)
    decreases hi
  {
    if hi > q {
      ScanEndsAgree(file, start, chunk, q, n, b, hi - 1);
      ScanAt(file, start, chunk, q, hi, n, b);
      Regroup3(FrameIndex.MarkerEnds(file, start, chunk, q), ScanEnds(b, n, q, |file|, hi - 1),
               MarkerEnd(FoundAt(b, n, hi - 1 - q), hi - 1, |file|));
    }
  }

  /**
   * The for loop of IndexFileFrames over one read of `n` bytes taken at
   * `position`, the start of a read: where a byte equals the marker's first
   * byte and IsMatch confirms the rest, the marker's end is added, unless
   * it is the end of the file. Returns the offsets added, in order.
   */
  method ScanRead(file: seq<byte>, start: nat, chunk: nat, position: nat, buffer: array<byte>, n: nat)
    returns (added: seq<nat>)
    requires chunk > 0 && buffer.Length == chunk && start <= position < |file|
    requires FrameIndex.InRead(position - start, chunk) == 0 && n == Min(chunk, |file| - position)
    requires buffer[..n] == file[position..position + n]
    ensures FrameIndex.MarkerEnds(file, start, chunk, position + n)
      == FrameIndex.MarkerEnds(file, start, chunk, position) + added
  {
    ghost var b := buffer[..];
    added := [];
    for i := 0 to n
      invariant added == ScanEnds(b, n, position, |file|, position + i)
    {
      var found := false;
      if buffer[i] == MarkerBytes[0] {
        found := IsMatch(buffer, i, n);
      }
      var markerEndPos: nat := position + i + MarkerLength;
      // the byte tests, in the terms in which ScanEnds unfolds at the next position
      assert found == FoundAt(b, n, position + i + 1 - 1 - position);
      if found && markerEndPos < |file| {
        added := added + [markerEndPos];
      }
    }
    ScanEndsAgree(file, start, chunk, position, n, b, position + n);
  }

  /** The player window's playback state. */
  class PlayerWindow {
    /** Bytes per read of the indexer; the source reads 64 KiB at a time. */
    const chunk: nat
    /** The open file, none when closed. */
    var stream: Option<seq<byte>>
    /** The byte offset at which each frame starts. */
    var offsets: seq<nat>
    var paused: bool
    var dragging: bool
    var hasAudio: bool
    /** Whether the media player has a source open. */
    var mediaOpen: bool
    var mediaLog: seq<MediaCall>
    var project: Option<Project>
    var stopwatch: Clock.Stopwatch
    /** The playback time the stopwatch counts from. */
    var seekOffset: real
    var slider: real
    var sliderMax: int
    var display: string
    /** Where the text of the open file starts. */
    ghost var textStart: nat

    /** The offsets always index the open file, and there are none without one. */
    ghost predicate Valid()
      reads this
    {
      chunk > 0
      && (stream.None? ==> offsets == [])
      && (stream.Some? ==> textStart <= |stream.value| && offsets == FrameIndex.Index(stream.value, textStart, chunk))
    }

    constructor (chunk: nat)
      requires chunk > 0
      ensures Valid() && this.chunk == chunk
      ensures stream.None? && !paused && !dragging && !hasAudio && !mediaOpen && mediaLog == []
      ensures project.None? && stopwatch == Clock.Fresh && seekOffset == 0.0
    {
      this.chunk := chunk;
      stream := None;
      offsets := [];
      paused := false;
      dragging := false;
      hasAudio := false;
      mediaOpen := false;
      mediaLog := [];
      project := None;
      stopwatch := Clock.Fresh;
      seekOffset := 0.0;
      slider := 0.0;
      sliderMax := 0;
      display := "";
      textStart := 0;
    }

    /** StopPlayback: pause, reset the clock, drop the audio, close the file and forget the index. */
    method StopPlayback()
      requires chunk > 0
      modifies this`paused, this`stopwatch, this`mediaLog, this`mediaOpen, this`hasAudio,
        this`seekOffset, this`stream, this`offsets
      ensures Valid()
      ensures paused && stopwatch == Clock.Fresh && !hasAudio && seekOffset == 0.0
      ensures mediaLog == old(mediaLog) + [Stop, Close] && !mediaOpen
      ensures stream.None? && offsets == []
    {
      paused := true;
      stopwatch := Clock.Reset(Clock.Stop(stopwatch));
      mediaLog := mediaLog + [Stop, Close];
      mediaOpen := false;
      hasAudio := false;
      seekOffset := 0.0;
      stream := None;
      offsets := [];
    }

    /**
     * IndexFileFrames: the text start is the first offset; then the file is
     * read from there in `chunk`-byte reads, and the end of every marker
     * found within a read is added, unless it is the end of the file.
     */
    method IndexFileFrames(start: nat)
      requires chunk > 0 && stream.Some?
      modifies this`offsets
      ensures offsets == FrameIndex.Index(stream.value, start, chunk)
    {
      var file := stream.value;
      offsets := [start];
      var buffer := new byte[chunk];
      var position := start;
      while position < |file|
        invariant start <= position
        invariant position <= |file| || position == start
        invariant position < |file| ==> FrameIndex.InRead(position - start, chunk) == 0
        invariant offsets == [start] + FrameIndex.MarkerEnds(file, start, chunk, position)
        decreases |file| - position
      {
        var n := ReadChunk(file, position, buffer);
        var added := ScanRead(file, start, chunk, position, buffer, n);
        Regroup3([start], FrameIndex.MarkerEnds(file, start, chunk, position), added);
        offsets := offsets + added;
        position := position + n;
      }
      if position > |file| {
        assert FrameIndex.MarkerEnds(file, start, chunk, |file|) == [];
      }
    }

    /**
     * ReadFrame: the text of frame `index`, read from the file between its
     * offset and the next one (the end of the file for the last frame).
     */
    method ReadFrame(index: int) returns (text: string)
      ensures text == FrameIndex.FrameText(stream, offsets, index)
    {
      if stream.None? || index < 0 || index >= |offsets| {
        return "";
      }
      var file := stream.value;
      var startPos := offsets[index];
      var endPos := if index + 1 < |offsets| then offsets[index + 1] else |file|;
      var length := endPos - startPos;
      if length <= 0 || startPos < 0 || endPos > |file| {
        return "";
      }
      var frameBytes := new byte[length];
      for k := 0 to length
        invariant frameBytes[..k] == file[startPos..startPos + k]
      {
        frameBytes[k] := file[startPos + k];
        assert frameBytes[..k + 1] == frameBytes[..k] + [frameBytes[k]];
      }
      assert frameBytes[..] == file[startPos..endPos];
      text := FrameIndex.StripMarker(Utf8.Decode(frameBytes[..]));
    }

    /** StartSyncPlayback: start the audio, if any, and the stopwatch. */
    method StartSyncPlayback()
      modifies this`mediaLog, this`stopwatch
      ensures mediaLog == old(mediaLog) + (if hasAudio then [Play] else [])
      ensures stopwatch == Clock.Start(old(stopwatch))
    {
      if hasAudio {
        mediaLog := mediaLog + [Play];
      }
      stopwatch := Clock.Start(stopwatch);
    }

    /**
     * The header reads of LoadProject: the fps, the colour name (the project
     * is set as soon as both are read), the audio length and, when it is
     * positive, the audio, which is opened on the media player.
     */
    method ReadHeader(data: seq<byte>, binary64: seq<byte> -> real) returns (h: Container.Result<Container.Header>)
      modifies this`project, this`mediaLog, this`mediaOpen, this`hasAudio
      ensures h == Container.ParseHeader(data) && (h.Ok? ==> h.value.textStart <= |data|)
      ensures h.Ok? ==> project == Some(Project(binary64(h.value.fps), h.value.ColorName()))
      ensures project == ProjectAfter(data, binary64, old(project))
      ensures hasAudio == (old(hasAudio) || (h.Ok? && h.value.audioSize > 0))
      ensures mediaOpen == (old(mediaOpen) || (h.Ok? && h.value.audioSize > 0))
      ensures mediaLog == old(mediaLog) + (if h.Ok? && h.value.audioSize > 0 then [Open(h.value.audio)] else [])
    {
      var fpsRead := Container.ReadDouble(data);
      if fpsRead.Err? {
        Container.ParseHeaderStopsAtFps(data);
        return Container.Err(fpsRead.error);
      }
      var (fps, afterFps) := fpsRead.value;
      var colorRead := Container.ReadPrefixedBytes(afterFps);
      if colorRead.Err? {
        Container.ParseHeaderStopsAtColor(data, fps, afterFps);
        return Container.Err(colorRead.error);
      }
      var (colorBytes, afterColor) := colorRead.value;
      project := Some(Project(binary64(fps), Utf8.Decode(colorBytes)));
      var sizeRead := Container.ReadInt32(afterColor);
      if sizeRead.Err? {
        Container.ParseHeaderStopsAtAudio(data, fps, afterFps, colorBytes, afterColor);
        return Container.Err(sizeRead.error);
      }
      var (audioSize, rest) := sizeRead.value;
      Container.ReadAudioAfter(afterColor, audioSize, rest);
      var audio: seq<byte> := [];
      if audioSize > 0 {
        var (bytes, afterAudio) := Container.ReadBytes(rest, audioSize);
        audio, rest := bytes, afterAudio;
        mediaLog := mediaLog + [Open(audio)];
        mediaOpen := true;
        hasAudio := true;
      }
      Container.ParseHeaderOf(data, fps, afterFps, colorBytes, afterColor, audioSize, audio, rest);
      h := Container.Ok(Container.Header(fps, colorBytes, audioSize, audio, |data| - |rest|));
    }

    /**
     * LoadProject on the file's bytes: read the header, index the frames from
     * where the text starts, size the slider and start playing. A header that
     * does not parse stops playback instead.
     */
    method LoadProject(data: seq<byte>, binary64: seq<byte> -> real)
      requires chunk > 0
      modifies this`stream, this`project, this`mediaLog, this`mediaOpen, this`hasAudio, this`paused,
        this`stopwatch, this`seekOffset, this`offsets, this`textStart, this`display, this`sliderMax
      ensures Valid()
      ensures paused == (old(paused) || Container.ParseHeader(data).Err?)
      ensures project == ProjectAfter(data, binary64, old(project))
      ensures match Container.ParseHeader(data)
        case Err(_) =>
          && stream.None? && offsets == [] && stopwatch == Clock.Fresh && !hasAudio && !mediaOpen
          && seekOffset == 0.0 && mediaLog == old(mediaLog) + [Stop, Close]
          && display == old(display) && sliderMax == old(sliderMax)
        case Ok(h) =>
          var openCall := if h.audioSize > 0 then [Open(h.audio)] else [];
          && stream == Some(data) && textStart == h.textStart
          && offsets == FrameIndex.Index(data, h.textStart, chunk)
          && project == Some(Project(binary64(h.fps), h.ColorName()))
          && hasAudio == (old(hasAudio) || h.audioSize > 0)
          && mediaOpen == (old(mediaOpen) || h.audioSize > 0)
          && mediaLog == old(mediaLog) + openCall + (if hasAudio then [Play] else [])
          && sliderMax == |offsets| - 1
          && stopwatch == Clock.Start(old(stopwatch)) && seekOffset == old(seekOffset)
          && display == "Indexing Frames..."
    {
      stream := Some(data);
      var header := ReadHeader(data, binary64);
      if header.Err? {
        StopPlayback();
        return;
      }
      IndexAndPlay(header.value.textStart);
    }

    /**
     * The rest of LoadProject once the header is read: index the frames from
     * where the text starts, size the slider to the frames and start playing.
     */
    method IndexAndPlay(start: nat)
      requires chunk > 0 && stream.Some? && start <= |stream.value|
      modifies this`textStart, this`display, this`offsets, this`sliderMax, this`mediaLog, this`stopwatch
      ensures Valid() && textStart == start && offsets == FrameIndex.Index(stream.value, start, chunk)
      ensures sliderMax == |offsets| - 1 && display == "Indexing Frames..."
      ensures mediaLog == old(mediaLog) + (if hasAudio then [Play] else [])
      ensures stopwatch == Clock.Start(old(stopwatch))
    {
      textStart := start;
      display := "Indexing Frames...";
      IndexFileFrames(start);
      sliderMax := |offsets| - 1;
      StartSyncPlayback();
    }

    /**
     * One pass of PlayLoop. Paused, it changes nothing. Otherwise it takes
     * the target frame: one in range is read and shown, and the slider
     * follows unless the user is dragging it; past the last frame, playback
     * ends: paused, clock reset, slider and display back at frame 0.
     */
    method Tick(audioPosition: real)
      requires project.Some?
      modifies this`paused, this`stopwatch, this`seekOffset, this`mediaLog, this`slider, this`display
      ensures old(paused) ==> (paused && stopwatch == old(stopwatch) && seekOffset == old(seekOffset)
        && mediaLog == old(mediaLog) && slider == old(slider) && display == old(display))
      ensures !old(paused) ==>
        var f := TargetFrame(hasAudio && mediaOpen, audioPosition, old(stopwatch), old(seekOffset), project.value.fps);
        if f < |offsets| then
          && !paused && stopwatch == old(stopwatch) && seekOffset == old(seekOffset) && mediaLog == old(mediaLog)
          && display == FrameIndex.FrameText(stream, offsets, f)
          && slider == (if dragging then old(slider) else if f < 0 then 0.0 else f as real)
        else
          && paused && stopwatch == Clock.Fresh && seekOffset == 0.0
          && mediaLog == old(mediaLog) + (if hasAudio then [Stop] else [])
          && slider == 0.0 && display == FrameIndex.FrameText(stream, offsets, 0)
    {
      if paused {
        return;
      }
      var currentTime: real;
      if hasAudio && mediaOpen {
        currentTime := audioPosition;
        if currentTime == 0.0 && Clock.ElapsedMilliseconds(stopwatch) > 500 {
          currentTime := stopwatch.elapsed + seekOffset;
        }
      } else {
        currentTime := stopwatch.elapsed + seekOffset;
      }
      assert currentTime == PlaybackTime(hasAudio && mediaOpen, audioPosition, stopwatch, seekOffset);
      var frameIndex := FrameAt(currentTime, project.value.fps);
      if frameIndex < |offsets| {
        display := ReadFrame(frameIndex);
        if !dragging {
          // the slider's Minimum is 0 and WPF clamps the value to it
          slider := if frameIndex < 0 then 0.0 else frameIndex as real;
        }
      } else {
        paused := true;
        stopwatch := Clock.Reset(stopwatch);
        seekOffset := 0.0;
        if hasAudio {
          mediaLog := mediaLog + [Stop];
        }
        slider := 0.0;
        display := ReadFrame(0);
      }
    }

    /** Time passes between ticks: the stopwatch accumulates it while it runs. */
    method Elapse(dt: real)
      requires dt >= 0.0
      modifies this`stopwatch
      ensures stopwatch == Clock.Advance(old(stopwatch), dt)
    {
      stopwatch := Clock.Advance(stopwatch, dt);
    }

    /** The user moves the slider thumb; the slider keeps its value between 0 and its maximum. */
    method MoveSlider(v: real)
      modifies this`slider
      ensures 0.0 <= sliderMax as real ==> 0.0 <= slider <= sliderMax as real
      ensures 0.0 <= v <= sliderMax as real ==> slider == v
    {
      slider := if v < 0.0 then 0.0 else if v > sliderMax as real then sliderMax as real else v;
    }

    /** ProgressSlider_DragStarted: ticks stop moving the slider. */
    method DragStarted()
      modifies this`dragging
      ensures dragging
    {
      dragging := true;
    }

    /**
     * ProgressSlider_DragCompleted: seek to the frame the slider was dropped
     * on. The seek offset becomes that frame's time, the audio (if any) is
     * moved there, the stopwatch restarts from zero and the frame is shown
     * at once.
     */
    method DragCompleted()
      requires project.Some? && project.value.fps != 0.0
      modifies this`dragging, this`seekOffset, this`stopwatch, this`mediaLog, this`display
      ensures !dragging
      ensures var n := Clock.Truncate(slider);
        && seekOffset == n as real / project.value.fps
        && stopwatch == Clock.Restart(old(stopwatch))
        && mediaLog == old(mediaLog) + (if hasAudio then [Seek(seekOffset)] else [])
        && display == FrameIndex.FrameText(stream, offsets, n)
    {
      dragging := false;
      var newFrameIndex := Clock.Truncate(slider);
      var newTime := newFrameIndex as real / project.value.fps;
      if hasAudio {
        mediaLog := mediaLog + [Seek(newTime)];
        stopwatch := Clock.Restart(stopwatch);
        seekOffset := newTime;
      } else {
        seekOffset := newTime;
        stopwatch := Clock.Restart(stopwatch);
      }
      display := ReadFrame(newFrameIndex);
    }

    /**
     * PlayPauseButton_Click: toggle pause; the stopwatch stops or starts
     * without being reset, so the time played survives a pause.
     */
    method PlayPause()
      modifies this`paused, this`stopwatch, this`mediaLog
      ensures paused == !old(paused)
      ensures stopwatch.elapsed == old(stopwatch).elapsed && stopwatch.running == !paused
      ensures mediaLog == old(mediaLog) + (if hasAudio then [if paused then Pause else Play] else [])
    {
      if paused {
        paused := false;
        stopwatch := Clock.Start(stopwatch);
        if hasAudio {
          mediaLog := mediaLog + [Play];
        }
      } else {
        paused := true;
        stopwatch := Clock.Stop(stopwatch);
        if hasAudio {
          mediaLog := mediaLog + [Pause];
        }
      }
    }
  }
}
