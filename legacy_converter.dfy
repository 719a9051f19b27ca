/**
 * The legacy converter (the root MainWindow): one fixed ten-character ramp,
 * the same frame blocks as the current converter, progress set after every
 * frame without a gate, and an MP4 export that reads the legacy layout.
 */
module LegacyConverter {
  import opened Text
  import Utf8
  import Container
  import Clock
  import Frames
  import Converter

  /** The legacy ramp, darkest first. */
  const AsciiChars: string := "@%#*+=-:. "

  /** The legacy MapPixelToCharIndex: the current one over the fixed ramp. */
  function MapPixelToCharIndex(pixel: byte): (index: int)
    ensures 0 <= index <= 9
    ensures pixel == 0 ==> index == 0
    ensures pixel == 255 ==> index == 9
  {
    Converter.MapPixelToCharIndex(pixel, |AsciiChars|)
  }

  /** The legacy ramp misses the marker's 'F', so its frames never hold the marker. */
  lemma LegacyRowsAvoidMarker(grid: seq<seq<byte>>)
    ensures Free(Frames.RowText(Converter.Rows(grid, AsciiChars)), Marker)
  {
    assert 'F' !in AsciiChars;
    Converter.RowsAvoidMarker(grid, AsciiChars);
  }

  // ---------------------------------------------------------------- the frame loop

  /**
   * The progress after `k` frames, (int)((double)k / totalFrames * 100),
   * with no check that the count is known: a zero count divides by zero,
   * giving positive infinity, whose cast to int is left to the runtime and
   * taken here as the parameter `infinityCast`.
   */
  function LegacyProgressAt(k: nat, total: int, infinityCast: int): (p: int)
    requires k > 0
    ensures total > 0 ==> p == Converter.ProgressAt(k, total)
  {
    if total == 0 then infinityCast else Clock.Truncate(k as real / total as real * 100.0)
  }

  /**
   * The legacy frame loop: every frame is drawn with the fixed ramp and
   * written as a block, and after every frame the progress bar is set,
   * whatever the value.
   */
  method LegacyConvertFrames(grids: seq<seq<seq<byte>>>, totalFrames: int, infinityCast: int)
    returns (written: string, reports: seq<int>)
    ensures written == Frames.Payload(Converter.Drawn(grids, AsciiChars))
    ensures |reports| == |grids|
    ensures forall k :: 0 <= k < |reports| ==> reports[k] == LegacyProgressAt(k + 1, totalFrames, infinityCast)
  {
    ghost var frames := Converter.Drawn(grids, AsciiChars);
    written := [];
    reports := [];
    var currentFrameIndex := 0;
    while currentFrameIndex < |grids|
      invariant 0 <= currentFrameIndex <= |grids|
      invariant written == Frames.Payload(frames[..currentFrameIndex])
      invariant |reports| == currentFrameIndex
      invariant forall k :: 0 <= k < |reports| ==> reports[k] == LegacyProgressAt(k + 1, totalFrames, infinityCast)
    {
      var block := Converter.BuildFrameBlock(grids[currentFrameIndex], AsciiChars);
      Frames.PayloadAppend(frames[..currentFrameIndex], frames[currentFrameIndex]);
      assert frames[..currentFrameIndex + 1] == frames[..currentFrameIndex] + [frames[currentFrameIndex]];
      written := written + block;
      currentFrameIndex := currentFrameIndex + 1;
      var progress := LegacyProgressAt(currentFrameIndex, totalFrames, infinityCast);
      reports := reports + [progress];
    }
    assert frames[..|grids|] == frames;
  }

  /**
   * With a known frame count the values set never fall, but unlike the
   * current converter's they repeat, and they pass 100 when the video has
   * more frames than it reported.
   */
  lemma LegacyProgressRises(grids: seq<seq<seq<byte>>>, totalFrames: int, infinityCast: int, reports: seq<int>)
    requires totalFrames > 0 && |reports| == |grids|
    requires forall k :: 0 <= k < |reports| ==> reports[k] == LegacyProgressAt(k + 1, totalFrames, infinityCast)
    ensures forall i, j :: 0 <= i <= j < |reports| ==> reports[i] <= reports[j]
  {
    forall i, j | 0 <= i <= j < |reports|
      ensures reports[i] <= reports[j]
    {
      Converter.ProgressMonotone(i + 1, j + 1, totalFrames);
    }
  }

  // ---------------------------------------------------------------- the MP4 export

  /** What the legacy ConvertToMp4 reads out of a packed file before it renders. */
  datatype Render = Render(fps: seq<byte>, audio: Option<seq<byte>>, frames: seq<string>)

  /**
   * The unpacking in the legacy ConvertToMp4: fps, the audio length, the
   * audio only when the length is positive, then the rest as text split at
   * the marker.
   */
  function LegacyUnpackForRender(data: seq<byte>): (r: Container.Result<Render>)
    ensures r.Ok? <==> |data| >= 12
  {
    match Container.ParseLegacyHeader(data)
    case Err(e) => Container.Err(e)
    case Ok(h) =>
      Container.Ok(Render(h.fps, if h.audioSize > 0 then Some(h.audio) else None,
                          Frames.Split(Utf8.Decode(data[h.textStart..]))))
  }

  /** Every frame the legacy export renders is non-empty and free of the marker. */
  lemma LegacyRenderedFramesClean(data: seq<byte>)
    requires LegacyUnpackForRender(data).Ok?
    ensures var frames := LegacyUnpackForRender(data).value.frames;
      forall k :: 0 <= k < |frames| ==> |frames[k]| > 0 && Free(frames[k], Marker)
  {
    var h := Container.ParseLegacyHeader(data).value;
    Frames.SplitPieces(Utf8.Decode(data[h.textStart..]));
  }

  /** Unpacking a file of the legacy layout gives back its fps, audio and the split of its text. */
  lemma LegacyUnpackPacked(fps: seq<byte>, audio: Option<seq<byte>>, text: seq<byte>)
    requires |fps| == 8
    requires audio.Some? ==> |audio.value| < Container.TwoTo31
    ensures LegacyUnpackForRender(Container.LegacyPacked(fps, audio, text))
      == Container.Ok(Render(fps, Converter.AudioBack(audio), Frames.Split(Utf8.Decode(text))))
  {
    var data := Container.LegacyPacked(fps, audio, text);
    Container.ParseLegacyPacked(fps, audio, text);
    var h := Container.ParseLegacyHeader(data).value;
    assert data[h.textStart..] == text;
    assert (if h.audioSize > 0 then Some(h.audio) else None) == Converter.AudioBack(audio);
  }

  /**
   * The whole legacy converter and export: the frames drawn with the fixed
   * ramp, written and packed, come back as the row texts of the frames
   * that have rows.
   */
  lemma LegacyConvertThenExport(fps: seq<byte>, audio: Option<seq<byte>>, grids: seq<seq<seq<byte>>>)
    requires |fps| == 8
    requires audio.Some? ==> |audio.value| < Container.TwoTo31
    ensures var frames := Converter.Drawn(grids, AsciiChars);
      LegacyUnpackForRender(Container.LegacyPacked(fps, audio, Utf8.Encode(Frames.Payload(frames))))
      == Container.Ok(Render(fps, Converter.AudioBack(audio), Frames.NonEmptyTexts(frames)))
  {
    var frames := Converter.Drawn(grids, AsciiChars);
    forall k | 0 <= k < |frames|
      ensures Free(Frames.RowText(frames[k]), Marker)
    {
      LegacyRowsAvoidMarker(grids[k]);
    }
    LegacyUnpackPacked(fps, audio, Utf8.Encode(Frames.Payload(frames)));
    Frames.SplitPayloadBytes(frames);
  }
}
