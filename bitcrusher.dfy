/**
 * The BitCrusher sample provider the converters put in front of the WAV
 * writer: it quantises the samples of one frame (one sample per channel)
 * and then holds them for the next frames, so the audio is coarsened in
 * value and in time. Quantisation (Math.Pow and Math.Round on floats) is
 * taken as a parameter.
 */
module BitCrusher {

  /** Quantisation of one sample at a bit depth. */
  type Quantizer = (real, int) -> real

  /**
   * One frame of the read loop, from channel `ch` on: every channel whose
   * index is still inside the buffer is quantised (and remembered) on an
   * update frame, or overwritten with the remembered value otherwise; the
   * first index past the buffer ends the frame.
   */
  function CrushFrame(b: seq<real>, hold: seq<real>, base: nat, update: bool, quantize: Quantizer, bitDepth: int, ch: nat)
    : (r: (seq<real>, seq<real>))
    requires ch <= |hold|
    ensures |r.0| == |b| && |r.1| == |hold|
    decreases |hold| - ch
  {
    if ch == |hold| || base + ch >= |b| then (b, hold)
    else if update then
      var v := quantize(b[base + ch], bitDepth);
      CrushFrame(b[base + ch := v], hold[ch := v], base, update, quantize, bitDepth, ch + 1)
    else
      CrushFrame(b[base + ch := hold[ch]], hold, base, update, quantize, bitDepth, ch + 1)
  }

  /**
   * The read loop from sample `i` on: frame after frame of `|hold|`
   * samples, each an update frame when the frame counter is a multiple of
   * the factor, the counter rising by one per frame. Gives the buffer, the
   * remembered samples and the counter afterwards.
   */
  function Crush(b: seq<real>, hold: seq<real>, counter: int, i: nat, offset: nat, samplesRead: nat,
                 factor: int, quantize: Quantizer, bitDepth: int)
    : (r: (seq<real>, seq<real>, int))
    requires |hold| > 0 && factor > 0
    ensures |r.0| == |b| && |r.1| == |hold|
    decreases samplesRead - i
  {
    if i >= samplesRead then (b, hold, counter)
    else
      var f := CrushFrame(b, hold, offset + i, counter % factor == 0, quantize, bitDepth, 0);
      Crush(f.0, f.1, counter + 1, i + |hold|, offset, samplesRead, factor, quantize, bitDepth)
  }

  /** The number of frames in `n` samples, the last one possibly partial. */
  function FrameCount(n: int, channels: nat): (k: nat)
    requires channels > 0
    decreases n
  {
    if n <= 0 then 0 else 1 + FrameCount(n - channels, channels)
  }

  // ---------------------------------------------------------------- one frame

  /**
   * What one frame does, position by position: the channels of the frame
   * that lie inside the buffer become their quantised value on an update
   * frame and the remembered value otherwise; the memory takes the new
   * values on an update frame and is kept otherwise; nothing else changes.
   */
  lemma {:induction false} CrushFrameEffect(b: seq<real>, hold: seq<real>, base: nat, update: bool,
                                            quantize: Quantizer, bitDepth: int, ch: nat)
    requires ch <= |hold|
    ensures var r := CrushFrame(b, hold, base, update, quantize, bitDepth, ch);
      && (forall k :: 0 <= k < |b| && (k < base + ch || k >= base + |hold|) ==> r.0[k] == b[k])
      && (forall k :: base + ch <= k < base + |hold| && k < |b| ==>
            r.0[k] == if update then quantize(b[k], bitDepth) else hold[k - base])
      && (forall c :: 0 <= c < |hold| && (c < ch || base + c >= |b| || !update) ==> r.1[c] == hold[c])
      && (forall c :: ch <= c < |hold| && base + c < |b| && update ==> r.1[c] == quantize(b[base + c], bitDepth))
    decreases |hold| - ch
  {
    if ch < |hold| && base + ch < |b| {
      if update {
        var v := quantize(b[base + ch], bitDepth);
        CrushFrameEffect(b[base + ch := v], hold[ch := v], base, update, quantize, bitDepth, ch + 1);
      } else {
        CrushFrameEffect(b[base + ch := hold[ch]], hold, base, update, quantize, bitDepth, ch + 1);
      }
    }
  }

  // ---------------------------------------------------------------- the whole read

  /** The frame counter rises by one per frame, a partial last frame included. */
  lemma {:induction false} CrushCounts(b: seq<real>, hold: seq<real>, counter: int, i: nat, offset: nat, samplesRead: nat,
                                       factor: int, quantize: Quantizer, bitDepth: int)
    requires |hold| > 0 && factor > 0
    ensures Crush(b, hold, counter, i, offset, samplesRead, factor, quantize, bitDepth).2
      == counter + FrameCount(samplesRead - i, |hold|)
    decreases samplesRead - i
  {
    if i < samplesRead {
      var f := CrushFrame(b, hold, offset + i, counter % factor == 0, quantize, bitDepth, 0);
      CrushCounts(f.0, f.1, counter + 1, i + |hold|, offset, samplesRead, factor, quantize, bitDepth);
      assert samplesRead - (i + |hold|) == samplesRead - i - |hold|;
    }
  }

  /**
   * No index below the offset is touched, and none past the channels of
   * the last frame begun: a partial last frame still overwrites the
   * samples after the ones read, up to the end of its frame.
   */
  lemma {:induction false} CrushBounds(b: seq<real>, hold: seq<real>, counter: int, i: nat, offset: nat, samplesRead: nat,
                                       factor: int, quantize: Quantizer, bitDepth: int)
    requires |hold| > 0 && factor > 0
    ensures var r := Crush(b, hold, counter, i, offset, samplesRead, factor, quantize, bitDepth);
      forall k :: 0 <= k < |b| && (k < offset + i || k >= offset + samplesRead + |hold| - 1) ==> r.0[k] == b[k]
    decreases samplesRead - i
  {
    if i < samplesRead {
      var f := CrushFrame(b, hold, offset + i, counter % factor == 0, quantize, bitDepth, 0);
      CrushFrameEffect(b, hold, offset + i, counter % factor == 0, quantize, bitDepth, 0);
      CrushBounds(f.0, f.1, counter + 1, i + |hold|, offset, samplesRead, factor, quantize, bitDepth);
    }
  }

  /**
   * With factor 1 every frame is an update frame: every sample read (and
   * inside the buffer) is replaced by its quantised value, and nothing is
   * held.
   */
  lemma {:induction false} FactorOneQuantizesAll(b: seq<real>, hold: seq<real>, counter: int, i: nat, offset: nat,
                                                 samplesRead: nat, quantize: Quantizer, bitDepth: int)
    requires |hold| > 0
    ensures var r := Crush(b, hold, counter, i, offset, samplesRead, 1, quantize, bitDepth);
      forall k :: offset + i <= k < offset + samplesRead && k < |b| ==> r.0[k] == quantize(b[k], bitDepth)
    decreases samplesRead - i
  {
    if i < samplesRead {
      assert counter % 1 == 0;
      var f := CrushFrame(b, hold, offset + i, true, quantize, bitDepth, 0);
      CrushFrameEffect(b, hold, offset + i, true, quantize, bitDepth, 0);
      FactorOneQuantizesAll(f.0, f.1, counter + 1, i + |hold|, offset, samplesRead, quantize, bitDepth);
      CrushBounds(f.0, f.1, counter + 1, i + |hold|, offset, samplesRead, 1, quantize, bitDepth);
    }
  }

  /** The buffer once the source has read its samples into it at the offset. */
  function Filled(b: seq<real>, offset: nat, source: seq<real>): (r: seq<real>)
    requires offset + |source| <= |b|
    ensures |r| == |b|
    ensures forall k :: 0 <= k < |source| ==> r[offset + k] == source[k]
    ensures forall k :: 0 <= k < |b| && (k < offset || k >= offset + |source|) ==> r[k] == b[k]
  {
    b[..offset] + source + b[offset + |source|..]
  }

  // ---------------------------------------------------------------- the provider

  /** The BitCrusher provider: its settings, its per-channel memory and its frame counter. */
  class BitCrusher {
    /** The source's channel count (1 for mono, 2 for stereo). */
    const channels: nat
    var bitDepth: int
    var downSampleFactor: int
    /** The last quantised sample of each channel, held on the frames in between. */
    const lastSampleValues: array<real>
    /** Frames processed so far, across reads. */
    var sampleFrameCount: int

    ghost predicate Valid()
      reads this
    {
      channels > 0 && lastSampleValues.Length == channels
      && 1 <= bitDepth <= 32 && downSampleFactor >= 1
    }

    /** A new provider: bit depth 8, factor 5, silence remembered, no frame counted. */
    constructor (sourceChannels: nat)
      requires sourceChannels > 0
      ensures Valid() && fresh(lastSampleValues)
      ensures channels == sourceChannels && bitDepth == 8 && downSampleFactor == 5 && sampleFrameCount == 0
      ensures forall c :: 0 <= c < channels ==> lastSampleValues[c] == 0.0
    {
      channels := sourceChannels;
      lastSampleValues := new real[sourceChannels](_ => 0.0);
      bitDepth := 8;
      downSampleFactor := 5;
      sampleFrameCount := 0;
    }

    /** SetBitDepth: the bits asked for, clamped to 1..32. */
    method SetBitDepth(bits: int)
      requires Valid()
      modifies this`bitDepth
      ensures Valid()
      ensures 1 <= bits <= 32 ==> bitDepth == bits
      ensures bits < 1 ==> bitDepth == 1
      ensures bits > 32 ==> bitDepth == 32
    {
      var b := bits;
      if b < 1 {
        b := 1;
      }
      if b > 32 {
        b := 32;
      }
      bitDepth := b;
    }

    /** SetDownSampleFactor: the factor asked for, at least 1. */
    method SetDownSampleFactor(factor: int)
      requires Valid()
      modifies this`downSampleFactor
      ensures Valid()
      ensures factor >= 1 ==> downSampleFactor == factor
      ensures factor < 1 ==> downSampleFactor == 1
    {
      var f := factor;
      if f < 1 {
        f := 1;
      }
      downSampleFactor := f;
    }

    /** One frame of Read: every channel of the frame at `base`, up to the end of the buffer. */
    method ProcessFrame(buffer: array<real>, base: nat, update: bool, quantize: Quantizer)
      requires Valid() && buffer != lastSampleValues
      modifies buffer, lastSampleValues
      ensures (buffer[..], lastSampleValues[..])
        == CrushFrame(old(buffer[..]), old(lastSampleValues[..]), base, update, quantize, bitDepth, 0)
    {
      ghost var target := CrushFrame(buffer[..], lastSampleValues[..], base, update, quantize, bitDepth, 0);
      var channel := 0;
      while channel < channels
        invariant 0 <= channel <= channels
        invariant CrushFrame(buffer[..], lastSampleValues[..], base, update, quantize, bitDepth, channel) == target
      {
        var index := base + channel;
        if index >= buffer.Length {
          break;
        }
        if update {
          var rawSample := buffer[index];
          var crushedSample := quantize(rawSample, bitDepth);
          buffer[index] := crushedSample;
          lastSampleValues[channel] := crushedSample;
        } else {
          buffer[index] := lastSampleValues[channel];
        }
        channel := channel + 1;
      }
    }

    /** The source's Read: its samples copied into the buffer at the offset. */
    static method FillFromSource(buffer: array<real>, offset: nat, source: seq<real>)
      requires offset + |source| <= buffer.Length
      modifies buffer
      ensures buffer[..] == Filled(old(buffer[..]), offset, source)
    {
      for k := 0 to |source|
        invariant buffer[..] == Filled(old(buffer[..]), offset, source[..k])
      {
        buffer[offset + k] := source[k];
        assert buffer[..] == Filled(old(buffer[..]), offset, source[..k + 1]);
      }
      assert source[..|source|] == source;
    }

    /**
     * Read: the source reads up to `count` samples into the buffer at the
     * offset (its samples are the parameter `source`), then every frame of
     * the samples read is crushed, and the count read is returned.
     */
    method Read(buffer: array<real>, offset: nat, count: int, source: seq<real>, quantize: Quantizer)
      returns (samplesRead: int)
      requires Valid() && buffer != lastSampleValues
      requires |source| <= count && offset + |source| <= buffer.Length
      modifies buffer, lastSampleValues, this`sampleFrameCount
      ensures Valid()
      ensures samplesRead == |source|
      ensures (buffer[..], lastSampleValues[..], sampleFrameCount)
        == Crush(Filled(old(buffer[..]), offset, source), old(lastSampleValues[..]), old(sampleFrameCount),
                 0, offset, |source|, downSampleFactor, quantize, bitDepth)
    {
      FillFromSource(buffer, offset, source);
      samplesRead := |source|;
      ghost var target := Crush(buffer[..], lastSampleValues[..], sampleFrameCount,
                                0, offset, samplesRead, downSampleFactor, quantize, bitDepth);
      var i := 0;
      while i < samplesRead
        invariant Valid()
        invariant Crush(buffer[..], lastSampleValues[..], sampleFrameCount,
                        i, offset, samplesRead, downSampleFactor, quantize, bitDepth) == target
        decreases samplesRead - i
      {
        var updateSample := sampleFrameCount % downSampleFactor == 0;
        ProcessFrame(buffer, offset + i, updateSample, quantize);
        sampleFrameCount := sampleFrameCount + 1;
        i := i + channels;
      }
    }
  }
}
