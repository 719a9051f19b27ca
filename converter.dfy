/**
 * The converter (AsciiConverter's MainWindow): it names the project, picks
 * the character ramp, maps every grey pixel of every frame to a character
 * of the ramp, writes the frames as blocks closed by the marker, reports
 * progress, and reads packed files back for the MP4 export.
 */
module Converter {
  import opened Text
  import Utf8
  import Container
  import Clock
  import Frames

  // ---------------------------------------------------------------- ramps

  /** The character ramps, darkest first (the long ones written in two parts). */
  const StandardRamp: string := "@%#*+=-:. "
  const HighDetailRamp: string := "$@B%8&WM#*oahkbdpqwmZO0QLCJUYXzcvunxrjft"
    + "/\\\\|()1{}[]?-_+~<>i!lI;:,\\\"^`' "
  const BlockRamp: string := "█▓▒░ "
  const BinaryRamp: string := "01"
  const GlitchRamp: string := "@%#*+=~-:,. "
  const OptimizedRamp: string := "@&%QWNM0gB$#DR8mHXKAUbGOpV4d9h6PkqwSE2]"
    + "ayjxY5Zoen[ult13If}C{iF|(|7J)vTLs?z/*cr!+<>;=^,_:'-. "

  /**
   * The ramp for the text of the style box: one of the six named styles,
   * the standard ramp when the text is empty, and otherwise the text
   * itself, character by character. Never empty.
   */
  function RampFor(style: string): (ramp: string)
    ensures |ramp| > 0
  {
    if style == "Standard" then StandardRamp
    else if style == "Binary" then BinaryRamp
    else if style == "High Detail" then HighDetailRamp
    else if style == "Blocks" then BlockRamp
    else if style == "Glitch" then GlitchRamp
    else if style == "Optimized" then OptimizedRamp
    else if style == "" then StandardRamp
    else style
  }

  /** The high-detail ramp has no 'F', checked in its two parts. */
  lemma HighDetailLacksF()
    ensures 'F' !in HighDetailRamp
  {
    var front := "$@B%8&WM#*oahkbdpqwmZO0QLCJUYXzcvunxrjft";
    var back := "/\\\\|()1{}[]?-_+~<>i!lI;:,\\\"^`' ";
    assert HighDetailRamp == front + back;
    assert forall i | 0 <= i < |front| :: front[i] != 'F';
    assert forall i | 0 <= i < |back| :: back[i] != 'F';
  }

  /**
   * The named ramps other than the optimized one miss the marker's 'F', so
   * no frame drawn with them can contain the marker.
   */
  lemma NamedRampsLackF(style: string)
    requires style in ["Standard", "Binary", "High Detail", "Blocks", "Glitch", ""]
    ensures 'F' in Marker && 'F' !in RampFor(style)
  {
    MarkerChars();
    if style == "High Detail" {
      HighDetailLacksF();
    }
  }

  /** The optimized ramp holds every character of the marker. */
  lemma OptimizedHoldsMarker()
    ensures forall c :: c in Marker ==> c in OptimizedRamp
  {
    MarkerChars();
    var ramp := OptimizedRamp;
    assert ramp[5] == 'N';
    assert ramp[6] == 'M';
    assert ramp[12] == 'D';
    assert ramp[13] == 'R';
    assert ramp[19] == 'A';
    assert ramp[36] == 'E';
    assert ramp[61] == 'F';
    assert ramp[86] == '_';
  }

  // ---------------------------------------------------------------- pixels

  /** A grey value's share of 255, times the last index of a ramp of `length`. */
  function Scaled(pixel: byte, length: int): (x: real)
    ensures length >= 1 ==> 0.0 <= x <= (length - 1) as real
  {
    var share := pixel as real / 255.0;
    assert length >= 1 ==> share * (length - 1) as real <= 1.0 * (length - 1) as real by {
      if length >= 1 {
        assert (1.0 - share) * (length - 1) as real >= 0.0;
      }
    }
    share * (length - 1) as real
  }

  /**
   * MapPixelToCharIndex: the ramp index of a grey value, its scaled share
   * truncated, so black is the first character and white the last.
   */
  function MapPixelToCharIndex(pixel: byte, length: int): (index: int)
    ensures length >= 1 ==> 0 <= index <= length - 1
    ensures pixel == 0 ==> index == 0
    ensures pixel == 255 ==> index == length - 1
  {
    Clock.Truncate(Scaled(pixel, length))
  }

  lemma {:induction false} ScaledMonotone(p: byte, q: byte, length: int)
    requires p <= q && length >= 1
    ensures Scaled(p, length) <= Scaled(q, length)
  {
    var a := p as real / 255.0;
    var b := q as real / 255.0;
    assert (b - a) * (length - 1) as real >= 0.0;
  }

  /** A lighter pixel never maps to a darker character. */
  lemma MapPixelMonotone(p: byte, q: byte, length: int)
    requires p <= q && length >= 1
    ensures MapPixelToCharIndex(p, length) <= MapPixelToCharIndex(q, length)
  {
    ScaledMonotone(p, q, length);
    Clock.TruncateMonotone(Scaled(p, length), Scaled(q, length));
  }

  // ---------------------------------------------------------------- colour and frame rate

  /** The digits of the X2 format specifier, uppercase. */
  const HexDigits: string := "0123456789ABCDEF"

  /** A byte as two uppercase hexadecimal digits ({0:X2}). */
  function Hex2(v: byte): (s: string)
    ensures |s| == 2
  {
    [HexDigits[v / 16], HexDigits[v % 16]]
  }

  /** The custom colour string: '#', then red, green and blue as two uppercase hex digits each. */
  function HexColor(r: byte, g: byte, b: byte): (s: string)
    ensures |s| == 7 && s[0] == '#'
    ensures forall i :: 1 <= i < 7 ==> s[i] in HexDigits
  {
    "#" + Hex2(r) + Hex2(g) + Hex2(b)
  }

  /** The value of an uppercase hex digit. */
  function DigitValue(c: char): (d: Option<nat>)
    ensures d.Some? ==> d.value < 16
  {
    if '0' <= c <= '9' then Some(c as int - '0' as int)
    else if 'A' <= c <= 'F' then Some(c as int - 'A' as int + 10)
    else None
  }

  /** Two hex digits as a byte. */
  function ParseHex2(c: char, d: char): Option<byte>
  {
    match (DigitValue(c), DigitValue(d))
    case (Some(h), Some(l)) => Some(16 * h + l)
    case _ => None
  }

  /** A "#RRGGBB" string as its three components, or nothing. */
  function ParseHexColor(s: string): Option<(byte, byte, byte)>
  {
    if |s| != 7 || s[0] != '#' then None
    else match (ParseHex2(s[1], s[2]), ParseHex2(s[3], s[4]), ParseHex2(s[5], s[6]))
      case (Some(r), Some(g), Some(b)) => Some((r, g, b))
      case _ => None
  }

  lemma DigitValueOf(d: nat)
    requires d < 16
    ensures DigitValue(HexDigits[d]) == Some(d)
  {
    if d < 10 {
      assert HexDigits[d] as int == '0' as int + d;
    } else {
      assert HexDigits[d] as int == 'A' as int + d - 10;
    }
  }

  lemma ParseHex2Digits(h: nat, l: nat)
    requires h < 16 && l < 16
    ensures ParseHex2(HexDigits[h], HexDigits[l]) == Some(16 * h + l)
  {
    DigitValueOf(h);
    DigitValueOf(l);
  }

  lemma DivMod16(v: byte)
    ensures v / 16 < 16 && 16 * (v / 16) + v % 16 == v
  {
  }

  lemma ParseHex2Of(v: byte)
    ensures ParseHex2(Hex2(v)[0], Hex2(v)[1]) == Some(v)
  {
    DivMod16(v);
    ParseHex2Digits(v / 16, v % 16);
  }

  /** The custom colour string reads back as the colour picked. */
  lemma ParseHexColorOf(r: byte, g: byte, b: byte)
    ensures ParseHexColor(HexColor(r, g, b)) == Some((r, g, b))
  {
    var s := HexColor(r, g, b);
    ParseHex2Of(r);
    ParseHex2Of(g);
    ParseHex2Of(b);
    assert s[1] == Hex2(r)[0] && s[2] == Hex2(r)[1];
    assert s[3] == Hex2(g)[0] && s[4] == Hex2(g)[1];
    assert s[5] == Hex2(b)[0] && s[6] == Hex2(b)[1];
  }

  /** The colour used before any is picked is white. */
  lemma DefaultColorIsWhite()
    ensures HexColor(255, 255, 255) == "#FFFFFF"
  {
    assert Hex2(255) == "FF";
  }

  /** The frame rate written: the capture's, or 30 when the capture reports none. */
  function NormalizeFps(fps: real): (r: real)
    ensures r > 0.0
    ensures fps > 0.0 ==> r == fps
  {
    if fps <= 0.0 then 30.0 else fps
  }

  // ---------------------------------------------------------------- frame blocks

  /** One grey row drawn with the ramp: each pixel becomes the character its value maps to. */
  function RowChars(row: seq<byte>, ramp: string): (line: string)
    requires |ramp| > 0
    ensures |line| == |row|
  {
    seq(|row|, x requires 0 <= x < |row| => ramp[MapPixelToCharIndex(row[x], |ramp|)])
  }

  /** A grey frame drawn with the ramp, row by row. */
  function Rows(grid: seq<seq<byte>>, ramp: string): (rows: seq<string>)
    requires |ramp| > 0
    ensures |rows| == |grid|
  {
    seq(|grid|, y requires 0 <= y < |grid| => RowChars(grid[y], ramp))
  }

  /** Every character drawn comes from the ramp, lighter pixels from further along it. */
  lemma DrawnFromRamp(grid: seq<seq<byte>>, ramp: string, y: nat, x: nat)
    requires |ramp| > 0 && y < |grid| && x < |grid[y]|
    ensures var i := MapPixelToCharIndex(grid[y][x], |ramp|);
      0 <= i < |ramp| && Rows(grid, ramp)[y][x] == ramp[i]
  {
  }

  /**
   * The frame block the StringBuilder assembles: every row of characters,
   * each closed by a line break, then the marker on a line of its own.
   */
  method BuildFrameBlock(grid: seq<seq<byte>>, ramp: string) returns (block: string)
    requires |ramp| > 0
    ensures block == Frames.FrameBlock(Rows(grid, ramp))
  {
    ghost var rows := Rows(grid, ramp);
    var sb: string := [];
    for y := 0 to |grid|
      invariant sb == Frames.RowText(rows[..y])
    {
      ghost var front := sb;
      for x := 0 to |grid[y]|
        invariant sb == front + rows[y][..x]
      {
        var charIndex := MapPixelToCharIndex(grid[y][x], |ramp|);
        sb := sb + [ramp[charIndex]];
        assert rows[y][..x + 1] == rows[y][..x] + [rows[y][x]];
      }
      sb := sb + NewLine;
      assert rows[y][..|grid[y]|] == rows[y];
      assert rows[..y + 1][..y] == rows[..y];
    }
    assert rows[..|grid|] == rows;
    sb := sb + (Marker + NewLine);
    block := sb;
  }

  /** With a ramp that misses the marker's 'F', no frame drawn can hold the marker. */
  lemma RowsAvoidMarker(grid: seq<seq<byte>>, ramp: string)
    requires |ramp| > 0 && 'F' !in ramp
    ensures Free(Frames.RowText(Rows(grid, ramp)), Marker)
  {
    var rows := Rows(grid, ramp);
    forall k | 0 <= k < |rows|
      ensures 'F' !in rows[k]
    {
      forall x | 0 <= x < |rows[k]|
        ensures rows[k][x] != 'F'
      {
        DrawnFromRamp(grid, ramp, k, x);
      }
    }
    Frames.RowTextWithout(rows, 'F');
    MarkerChars();
    Frames.FreeOfMissing(Frames.RowText(rows), 'F');
  }

  // ---------------------------------------------------------------- the frame loop

  /** Every frame read, drawn with the ramp. */
  function Drawn(grids: seq<seq<seq<byte>>>, ramp: string): (frames: seq<seq<string>>)
    requires |ramp| > 0
    ensures |frames| == |grids|
  {
    seq(|grids|, k requires 0 <= k < |grids| => Rows(grids[k], ramp))
  }

  /** The share of the frames done, in per cent. */
  function Percent(k: int, total: int): (x: real)
    requires total > 0
    ensures k >= 0 ==> x >= 0.0
  {
    var share := k as real / total as real;
    assert k >= 0 ==> share * 100.0 >= 0.0;
    share * 100.0
  }

  /** The progress after `k` frames: (int)((double)k / totalFrames * 100). */
  function ProgressAt(k: int, total: int): (p: int)
    requires total > 0
    ensures k >= 0 ==> p >= 0
  {
    Clock.Truncate(Percent(k, total))
  }

  lemma {:induction false} PercentMonotone(j: int, k: int, total: int)
    requires total > 0 && j <= k
    ensures Percent(j, total) <= Percent(k, total)
  {
    var a := j as real / total as real;
    var b := k as real / total as real;
    assert a <= b;
    assert (b - a) * 100.0 >= 0.0;
  }

  /** More frames done never shows less progress. */
  lemma ProgressMonotone(j: int, k: int, total: int)
    requires total > 0 && j <= k
    ensures ProgressAt(j, total) <= ProgressAt(k, total)
  {
    PercentMonotone(j, k, total);
    Clock.TruncateMonotone(Percent(j, total), Percent(k, total));
  }

  /**
   * The frame loop: every frame read is drawn and written as a block, in
   * order; the progress bar is set only when the frame count is known and
   * the new value is above the last one set, so the values set rise
   * strictly and are exactly the distinct progress values of the frames.
   */
  method ConvertFrames(grids: seq<seq<seq<byte>>>, ramp: string, totalFrames: int)
    returns (written: string, reports: seq<int>)
    requires |ramp| > 0
    ensures written == Frames.Payload(Drawn(grids, ramp))
    ensures forall i, j :: 0 <= i < j < |reports| ==> reports[i] < reports[j]
    ensures totalFrames <= 0 ==> reports == []
    ensures totalFrames > 0 ==>
      forall v :: v in reports <==> exists k :: 1 <= k <= |grids| && v == ProgressAt(k, totalFrames)
  {
    ghost var frames := Drawn(grids, ramp);
    written := [];
    reports := [];
    var currentFrameIndex := 0;
    var lastProgress := -1;
    while currentFrameIndex < |grids|
      invariant 0 <= currentFrameIndex <= |grids|
      invariant written == Frames.Payload(frames[..currentFrameIndex])
      invariant forall i, j :: 0 <= i < j < |reports| ==> reports[i] < reports[j]
      invariant reports == [] <==> lastProgress == -1
      invariant reports != [] ==> reports[|reports| - 1] == lastProgress
      invariant totalFrames <= 0 ==> reports == []
      invariant totalFrames > 0 && currentFrameIndex == 0 ==> reports == []
      invariant totalFrames > 0 && currentFrameIndex > 0 ==> lastProgress == ProgressAt(currentFrameIndex, totalFrames)
      invariant totalFrames > 0 ==>
        forall v :: v in reports <==> exists k :: 1 <= k <= currentFrameIndex && v == ProgressAt(k, totalFrames)
    {
      var block := BuildFrameBlock(grids[currentFrameIndex], ramp);
      Frames.PayloadAppend(frames[..currentFrameIndex], frames[currentFrameIndex]);
      assert frames[..currentFrameIndex + 1] == frames[..currentFrameIndex] + [frames[currentFrameIndex]];
      written := written + block;
      currentFrameIndex := currentFrameIndex + 1;
      if totalFrames <= 0 {
        continue;
      }
      var currentProgress := ProgressAt(currentFrameIndex, totalFrames);
      ProgressMonotone(currentFrameIndex - 1, currentFrameIndex, totalFrames);
      if currentProgress <= lastProgress {
        continue;
      }
      lastProgress := currentProgress;
      reports := reports + [currentProgress];
    }
    assert frames[..|grids|] == frames;
  }

  // ---------------------------------------------------------------- the MP4 export

  /** What ConvertToMp4 reads out of a packed file before it renders. */
  datatype Render = Render(fps: seq<byte>, colorName: string, audio: Option<seq<byte>>, frames: seq<string>)

  /**
   * The unpacking in ConvertToMp4: the header fields in order, the audio
   * only when its length is positive, then the rest of the file as text,
   * split at the marker. A header that does not parse ends the export.
   */
  function UnpackForRender(data: seq<byte>): (r: Container.Result<Render>)
    ensures r.Ok? <==> Container.ParseHeader(data).Ok?
  {
    Container.ParseHeaderShape(data);
    match Container.ParseHeader(data)
    case Err(e) => Container.Err(e)
    case Ok(h) =>
      Container.Ok(Render(h.fps, h.ColorName(), if h.audioSize > 0 then Some(h.audio) else None,
                          Frames.Split(Utf8.Decode(data[h.textStart..]))))
  }

  /** Every frame the export renders is non-empty and free of the marker. */
  lemma RenderedFramesClean(data: seq<byte>)
    requires UnpackForRender(data).Ok?
    ensures var frames := UnpackForRender(data).value.frames;
      forall k :: 0 <= k < |frames| ==> |frames[k]| > 0 && Free(frames[k], Marker)
  {
    Container.ParseHeaderShape(data);
    var h := Container.ParseHeader(data).value;
    Frames.SplitPieces(Utf8.Decode(data[h.textStart..]));
  }

  /** The audio a packed file is read back with: the audio written, unless it was empty. */
  function AudioBack(audio: Option<seq<byte>>): Option<seq<byte>>
  {
    if Container.AudioLength(audio) > 0 then audio else None
  }

  /** Unpacking reads what the header parse reads, then splits the rest of the file. */
  lemma UnpackOf(data: seq<byte>, h: Container.Header)
    requires Container.ParseHeader(data) == Container.Ok(h)
    ensures h.textStart <= |data|
    ensures UnpackForRender(data) == Container.Ok(Render(h.fps, h.ColorName(),
      if h.audioSize > 0 then Some(h.audio) else None, Frames.Split(Utf8.Decode(data[h.textStart..]))))
  {
    Container.ParseHeaderShape(data);
  }

  /** Unpacking a packed file gives back its fps, colour bytes, audio and the split of its text. */
  lemma UnpackPacked(fps: seq<byte>, colorBytes: seq<byte>, audio: Option<seq<byte>>, text: seq<byte>)
    requires |fps| == 8 && |colorBytes| < Container.TwoTo31
    requires audio.Some? ==> |audio.value| < Container.TwoTo31
    ensures UnpackForRender(Container.Packed(fps, colorBytes, audio, text))
      == Container.Ok(Render(fps, Utf8.Decode(colorBytes), AudioBack(audio), Frames.Split(Utf8.Decode(text))))
  {
    var data := Container.Packed(fps, colorBytes, audio, text);
    Container.ParsePacked(fps, colorBytes, audio, text);
    var h := Container.ParseHeader(data).value;
    UnpackOf(data, h);
    Container.PackedText(fps, colorBytes, audio, text);
    assert data[h.textStart..] == text;
    assert h.ColorName() == Utf8.Decode(colorBytes);
    assert (if h.audioSize > 0 then Some(h.audio) else None) == AudioBack(audio);
  }

  /** With the colour name written as PackToSingleFile writes it, the name comes back too. */
  lemma UnpackPackedText(fps: seq<byte>, colorName: string, audio: Option<seq<byte>>, text: seq<byte>)
    requires |fps| == 8 && |Utf8.Encode(colorName)| < Container.TwoTo31
    requires audio.Some? ==> |audio.value| < Container.TwoTo31
    ensures UnpackForRender(Container.Packed(fps, Utf8.Encode(colorName), audio, text))
      == Container.Ok(Render(fps, colorName, AudioBack(audio), Frames.Split(Utf8.Decode(text))))
  {
    UnpackPacked(fps, Utf8.Encode(colorName), audio, text);
    Utf8.DecodeEncode(colorName);
  }

  /**
   * A file packed from frames whose rows hold no marker unpacks to the row
   * texts of the frames that have rows, in order.
   */
  lemma UnpackPackedFrames(fps: seq<byte>, colorName: string, audio: Option<seq<byte>>, frames: seq<seq<string>>)
    requires |fps| == 8 && |Utf8.Encode(colorName)| < Container.TwoTo31
    requires audio.Some? ==> |audio.value| < Container.TwoTo31
    requires forall k :: 0 <= k < |frames| ==> Free(Frames.RowText(frames[k]), Marker)
    ensures UnpackForRender(Container.Packed(fps, Utf8.Encode(colorName), audio, Utf8.Encode(Frames.Payload(frames))))
      == Container.Ok(Render(fps, colorName, AudioBack(audio), Frames.NonEmptyTexts(frames)))
  {
    UnpackPackedText(fps, colorName, audio, Utf8.Encode(Frames.Payload(frames)));
    Frames.SplitPayloadBytes(frames);
  }

  /**
   * The whole converter and export with one of the named ramps other than
   * the optimized one: the frames drawn, written and packed come back as
   * the row texts of the frames that have rows.
   */
  lemma ConvertThenExport(fps: seq<byte>, colorName: string, audio: Option<seq<byte>>,
                          grids: seq<seq<seq<byte>>>, style: string)
    requires |fps| == 8 && |Utf8.Encode(colorName)| < Container.TwoTo31
    requires audio.Some? ==> |audio.value| < Container.TwoTo31
    requires style in ["Standard", "Binary", "High Detail", "Blocks", "Glitch", ""]
    ensures var frames := Drawn(grids, RampFor(style));
      UnpackForRender(Container.Packed(fps, Utf8.Encode(colorName), audio, Utf8.Encode(Frames.Payload(frames))))
      == Container.Ok(Render(fps, colorName, AudioBack(audio), Frames.NonEmptyTexts(frames)))
  {
    var ramp := RampFor(style);
    NamedRampsLackF(style);
    var frames := Drawn(grids, ramp);
    forall k | 0 <= k < |frames|
      ensures Free(Frames.RowText(frames[k]), Marker)
    {
      RowsAvoidMarker(grids[k], ramp);
    }
    UnpackPackedFrames(fps, colorName, audio, frames);
  }
}
