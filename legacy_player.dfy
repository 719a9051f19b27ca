/**
 * The legacy player (AsciiConverter's PlayerWindow): it reads a file of the
 * legacy layout whole, splits its text into frames at the marker, and then,
 * tick by tick, shows the frame the audio position or its own stopwatch
 * points at.
 */
module LegacyPlayer {
  import opened Text
  import Utf8
  import Container
  import Clock
  import Frames
  import Player

  /** The frames the legacy player makes of a file whose header parses: its text, split at the marker. */
  function FramesOf(data: seq<byte>, h: Container.Header): seq<string>
    requires h.textStart <= |data|
  {
    Frames.Split(Utf8.Decode(data[h.textStart..]))
  }

  /** The frames of a file of the legacy layout are those of the text it was packed with. */
  lemma LoadsPackedText(fps: seq<byte>, audio: Option<seq<byte>>, text: seq<byte>)
    requires |fps| == 8
    requires audio.Some? ==> |audio.value| < Container.TwoTo31
    ensures var data := Container.LegacyPacked(fps, audio, text);
      && Container.ParseLegacyHeader(data).Ok?
      && FramesOf(data, Container.ParseLegacyHeader(data).value) == Frames.Split(Utf8.Decode(text))
  {
    Container.ParseLegacyPacked(fps, audio, text);
  }

  /**
   * A file written by the legacy PackToSingleFile from frames whose rows hold
   * no marker loads as exactly the row texts of the frames that have rows.
   */
  lemma LoadsPackedFrames(fps: seq<byte>, audio: Option<seq<byte>>, frames: seq<seq<string>>)
    requires |fps| == 8
    requires audio.Some? ==> |audio.value| < Container.TwoTo31
    requires forall k :: 0 <= k < |frames| ==> Free(Frames.RowText(frames[k]), Marker)
    ensures var data := Container.LegacyPacked(fps, audio, Utf8.Encode(Frames.Payload(frames)));
      && Container.ParseLegacyHeader(data).Ok?
      && FramesOf(data, Container.ParseLegacyHeader(data).value) == Frames.NonEmptyTexts(frames)
  {
    var text := Utf8.Encode(Frames.Payload(frames));
    LoadsPackedText(fps, audio, text);
    Frames.SplitPayloadBytes(frames);
  }

  /** Every frame the legacy player loads is non-empty and free of the marker. */
  lemma LoadedFramesClean(data: seq<byte>, h: Container.Header)
    requires h.textStart <= |data|
    ensures forall k :: 0 <= k < |FramesOf(data, h)| ==> |FramesOf(data, h)[k]| > 0 && Free(FramesOf(data, h)[k], Marker)
  {
    Frames.SplitPieces(Utf8.Decode(data[h.textStart..]));
  }

  /** The legacy player window's playback state. */
  class PlayerWindow {
    /** The frames of the loaded file, none before a file loads. */
    var frames: Option<seq<string>>
    /** The frame rate of the loaded file, none before one is read. */
    var fps: Option<real>
    var paused: bool
    var dragging: bool
    var hasAudio: bool
    /** Whether the media player has a source open. */
    var mediaOpen: bool
    var mediaLog: seq<Player.MediaCall>
    var stopwatch: Clock.Stopwatch
    /** The playback time the stopwatch counts from. */
    var seekOffset: real
    var slider: real
    var sliderMax: int
    var display: string
    /** Whether PlayLoop still runs: an exception inside it ends it for good. */
    var loopAlive: bool

    constructor ()
      ensures frames.None? && fps.None? && !paused && !dragging && !hasAudio && !mediaOpen
      ensures mediaLog == [] && stopwatch == Clock.Fresh && seekOffset == 0.0 && loopAlive
    {
      frames := None;
      fps := None;
      paused := false;
      dragging := false;
      hasAudio := false;
      mediaOpen := false;
      mediaLog := [];
      stopwatch := Clock.Fresh;
      seekOffset := 0.0;
      slider := 0.0;
      sliderMax := 0;
      display := "";
      loopAlive := true;
    }

    /**
     * LoadSingleFile on the file's bytes: read the fps, then the audio length
     * and, when it is positive, the audio, which is opened; everything after
     * is text, split into frames. The slider is sized to the frames and
     * playback starts. A file too short for the two fields throws; what was
     * set before the throw stays set, and nothing else happens.
     */
    method LoadSingleFile(data: seq<byte>, binary64: seq<byte> -> real)
      modifies this`fps, this`mediaLog, this`mediaOpen, this`hasAudio, this`frames, this`sliderMax, this`stopwatch
      ensures 8 <= |data| ==> fps == Some(binary64(data[..8]))
      ensures |data| < 8 ==> fps == old(fps)
      ensures match Container.ParseLegacyHeader(data)
        case Err(_) =>
          && frames == old(frames) && mediaLog == old(mediaLog) && hasAudio == old(hasAudio)
          && mediaOpen == old(mediaOpen) && sliderMax == old(sliderMax) && stopwatch == old(stopwatch)
        case Ok(h) =>
          var openCall := if h.audioSize > 0 then [Player.Open(h.audio)] else [];
          && frames == Some(FramesOf(data, h))
          && hasAudio == (old(hasAudio) || h.audioSize > 0)
          && mediaOpen == (old(mediaOpen) || h.audioSize > 0)
          && mediaLog == old(mediaLog) + openCall + (if hasAudio then [Player.Play] else [])
          && sliderMax == (if |frames.value| == 0 then 0 else |frames.value| - 1)
          && stopwatch == Clock.Start(old(stopwatch))
    {
      var fpsRead := Container.ReadDouble(data);
      if fpsRead.Err? {
        return;
      }
      var (fpsBytes, afterFps) := fpsRead.value;
      fps := Some(binary64(fpsBytes));
      var sizeRead := Container.ReadInt32(afterFps);
      if sizeRead.Err? {
        return;
      }
      var (audioSize, rest) := sizeRead.value;
      var audio: seq<byte> := [];
      if audioSize > 0 {
        var (bytes, afterAudio) := Container.ReadBytes(rest, audioSize);
        audio, rest := bytes, afterAudio;
        mediaLog := mediaLog + [Player.Open(audio)];
        mediaOpen := true;
        hasAudio := true;
      }
      assert Container.ReadAudio(afterFps) == Container.Ok((audioSize, audio, rest));
      ghost var h := Container.Header(fpsBytes, [], audioSize, audio, |data| - |rest|);
      assert Container.ParseLegacyHeader(data) == Container.Ok(h);
      assert data[h.textStart..] == rest;
      var allText := Utf8.Decode(rest);
      frames := Some(Frames.Split(allText));
      // the slider's Maximum is never below its Minimum 0: WPF coerces it
      sliderMax := if |frames.value| == 0 then 0 else |frames.value| - 1;
      if hasAudio {
        mediaLog := mediaLog + [Player.Play];
      }
      stopwatch := Clock.Start(stopwatch);
    }

    /**
     * One pass of PlayLoop. Paused, it changes nothing. Otherwise it takes
     * the target frame: one in range is shown with its trailing white space
     * trimmed, and the slider follows unless the user is dragging it; past
     * the last frame, playback ends (paused, clock reset, slider at 0) and
     * the display keeps the last frame shown; a negative frame number throws,
     * which ends the loop.
     */
    method Tick(audioPosition: real)
      requires loopAlive && frames.Some? && fps.Some?
      modifies this`paused, this`stopwatch, this`seekOffset, this`mediaLog, this`slider, this`display, this`loopAlive
      ensures old(paused) ==> (paused && loopAlive && stopwatch == old(stopwatch) && seekOffset == old(seekOffset)
        && mediaLog == old(mediaLog) && slider == old(slider) && display == old(display))
      ensures !old(paused) ==>
        var f := Player.TargetFrame(hasAudio && mediaOpen, audioPosition, old(stopwatch), old(seekOffset), fps.value);
        if f < 0 then
          && !loopAlive && !paused && stopwatch == old(stopwatch) && seekOffset == old(seekOffset)
          && mediaLog == old(mediaLog) && slider == old(slider) && display == old(display)
        else if f < |frames.value| then
          && loopAlive && !paused && stopwatch == old(stopwatch) && seekOffset == old(seekOffset)
          && mediaLog == old(mediaLog)
          && display == TrimEnd(frames.value[f])
          && slider == (if dragging then old(slider) else f as real)
        else
          && loopAlive && paused && stopwatch == Clock.Fresh && seekOffset == 0.0
          && mediaLog == old(mediaLog) + (if hasAudio then [Player.Stop] else [])
          && slider == 0.0 && display == old(display)
    {
      if paused {
        return;
      }
      var currentTime: real;
      if hasAudio && mediaOpen {
        currentTime := audioPosition;
        if currentTime == 0.0 && Clock.ElapsedMilliseconds(stopwatch) > 500 {
          currentTime := stopwatch.elapsed + seekOffset;
        }
      } else {
        currentTime := stopwatch.elapsed + seekOffset;
      }
      assert currentTime == Player.PlaybackTime(hasAudio && mediaOpen, audioPosition, stopwatch, seekOffset);
      var frameIndex := Player.FrameAt(currentTime, fps.value);
      if frameIndex < |frames.value| {
        if frameIndex < 0 {
          // the array index throws; StartSyncPlayback catches it and the loop is over
          loopAlive := false;
          return;
        }
        display := TrimEnd(frames.value[frameIndex]);
        if !dragging {
          slider := frameIndex as real;
        }
      } else {
        paused := true;
        stopwatch := Clock.Reset(stopwatch);
        seekOffset := 0.0;
        if hasAudio {
          mediaLog := mediaLog + [Player.Stop];
        }
        slider := 0.0;
      }
    }

    /** Time passes between ticks: the stopwatch accumulates it while it runs. */
    method Elapse(dt: real)
      requires dt >= 0.0
      modifies this`stopwatch
      ensures stopwatch == Clock.Advance(old(stopwatch), dt)
    {
      stopwatch := Clock.Advance(stopwatch, dt);
    }

    /** The user moves the slider thumb; the slider keeps its value between 0 and its maximum. */
    method MoveSlider(v: real)
      modifies this`slider
      ensures 0.0 <= sliderMax as real ==> 0.0 <= slider <= sliderMax as real
      ensures 0.0 <= v <= sliderMax as real ==> slider == v
    {
      slider := if v < 0.0 then 0.0 else if v > sliderMax as real then sliderMax as real else v;
    }

    /** SldProgress_DragStarted: ticks stop moving the slider. */
    method DragStarted()
      modifies this`dragging
      ensures dragging
    {
      dragging := true;
    }

    /**
     * SldProgress_DragCompleted: seek to the frame the slider was dropped on,
     * whose minimum is 0. The seek offset becomes that frame's time, the
     * audio (if any) is moved there and the stopwatch restarts from zero;
     * the frame is shown at once only when it exists.
     */
    method DragCompleted()
      requires frames.Some? && fps.Some? && fps.value != 0.0 && slider >= 0.0
      modifies this`dragging, this`seekOffset, this`stopwatch, this`mediaLog, this`display
      ensures !dragging
      ensures var n := Clock.Truncate(slider);
        && seekOffset == n as real / fps.value
        && stopwatch == Clock.Restart(old(stopwatch))
        && mediaLog == old(mediaLog) + (if hasAudio then [Player.Seek(seekOffset)] else [])
        && display == (if n < |frames.value| then TrimEnd(frames.value[n]) else old(display))
    {
      dragging := false;
      var newFrameIndex := Clock.Truncate(slider);
      var newTime := newFrameIndex as real / fps.value;
      if hasAudio {
        mediaLog := mediaLog + [Player.Seek(newTime)];
        stopwatch := Clock.Restart(stopwatch);
        seekOffset := newTime;
      } else {
        seekOffset := newTime;
        stopwatch := Clock.Restart(stopwatch);
      }
      if newFrameIndex < |frames.value| {
        display := TrimEnd(frames.value[newFrameIndex]);
      }
    }

    /**
     * BtnPlayPause_Click: toggle pause; the stopwatch stops or starts without
     * being reset, so the time played survives a pause.
     */
    method PlayPause()
      modifies this`paused, this`stopwatch, this`mediaLog
      ensures paused == !old(paused)
      ensures stopwatch.elapsed == old(stopwatch).elapsed && stopwatch.running == !paused
      ensures mediaLog == old(mediaLog) + (if hasAudio then [if paused then Player.Pause else Player.Play] else [])
    {
      if paused {
        paused := false;
        stopwatch := Clock.Start(stopwatch);
        if hasAudio {
          mediaLog := mediaLog + [Player.Play];
        }
      } else {
        paused := true;
        stopwatch := Clock.Stop(stopwatch);
        if hasAudio {
          mediaLog := mediaLog + [Player.Pause];
        }
      }
    }
  }
}
