/**
 * The single-file `.asciiv` container and the BinaryWriter / BinaryReader
 * primitives it is built from.
 *
 * Current layout:  fps (8 bytes) | 7-bit length + UTF-8 colour name |
 *                  int32 LE audio length N | N audio bytes | text payload
 * Legacy layout:   fps (8 bytes) | int32 LE audio length N | N audio bytes | text payload
 *
 * The fps is a binary64 whose encoding is not interpreted here: it is carried
 * as 8 opaque bytes.
 */
module Container {
  import opened Text
  import Utf8

  /** Why a BinaryReader call throws. */
  datatype Error =
    | EndOfStream        // EndOfStreamException: fewer bytes left than the field needs
    | BadFormat          // FormatException: a 7-bit integer whose fifth byte exceeds 15
    | BadStringLength    // IOException: a string length that decodes negative

  datatype Result<T> = Ok(value: T) | Err(error: Error)

  const TwoTo31: int := 0x8000_0000
  const TwoTo32: int := 0x1_0000_0000

  /** The values that the 7-bit groups from group `k` to the fifth can hold lie below this bound. */
  function GroupBound(k: nat): nat
    requires k <= 4
  {
    if k == 0 then TwoTo32 else if k == 1 then 0x200_0000 else if k == 2 then 0x4_0000
    else if k == 3 then 0x800 else 16
  }

  /** The int32 whose bit pattern is the uint32 `u` (the C# `(int)` cast on a uint). */
  function ToInt32(u: int): (r: int)
    requires 0 <= u < TwoTo32
    ensures -TwoTo31 <= r < TwoTo31
  {
    if u < TwoTo31 then u else u - TwoTo32
  }

  // ---------------------------------------------------------------- writing

  /** BinaryWriter.Write7BitEncodedInt: seven bits per byte, low group first, high bit = more follows. */
  function Write7Bit(n: nat): (b: seq<byte>)
    ensures |b| >= 1 && b[|b| - 1] < 0x80
    ensures forall i :: 0 <= i < |b| - 1 ==> b[i] >= 0x80
    decreases n
  {
    if n < 0x80 then [n] else [0x80 + n % 0x80] + Write7Bit(n / 0x80)
  }

  /** 256 to the power `k`: the number of values `k` bytes can hold. */
  function Pow256(k: nat): (r: nat)
    ensures r >= 1
  {
    if k == 0 then 1 else 0x100 * Pow256(k - 1)
  }

  /** The `k` low-order bytes of `u`, least significant first. */
  function LittleEndian(u: nat, k: nat): (b: seq<byte>)
    ensures |b| == k
  {
    if k == 0 then [] else [u % 0x100] + LittleEndian(u / 0x100, k - 1)
  }

  /** The number that bytes encode, least significant first. */
  function FromLittleEndian(b: seq<byte>): (r: nat)
    ensures r < Pow256(|b|)
  {
    if |b| == 0 then 0 else b[0] + 0x100 * FromLittleEndian(b[1..])
  }

  /** BinaryWriter.Write(int): four bytes, little-endian, two's complement. */
  function Int32LE(n: int): (b: seq<byte>)
    requires -TwoTo31 <= n < TwoTo31
    ensures |b| == 4
  {
    LittleEndian(if n < 0 then n + TwoTo32 else n, 4)
  }

  /** A byte string prefixed by its length, 7-bit encoded. */
  function PrefixedBytes(e: seq<byte>): seq<byte>
  {
    Write7Bit(|e|) + e
  }

  /** BinaryWriter.Write(string) with Encoding.UTF8: the byte count, 7-bit encoded, then the bytes. */
  function StringField(s: string): seq<byte>
    requires |Utf8.Encode(s)| < TwoTo31
  {
    PrefixedBytes(Utf8.Encode(s))
  }

  /** The audio part as PackToSingleFile writes it: length then bytes when the audio file exists, else a zero length. */
  function AudioField(audio: Option<seq<byte>>): (b: seq<byte>)
    requires audio.Some? ==> |audio.value| < TwoTo31
  {
    match audio
    case None => Int32LE(0)
    case Some(a) => Int32LE(|a|) + a
  }

  /** What a packed file's audio length field holds. */
  function AudioLength(audio: Option<seq<byte>>): nat
  {
    if audio.Some? then |audio.value| else 0
  }

  /** The audio bytes written: none when there is no audio file. */
  function AudioBytes(audio: Option<seq<byte>>): seq<byte>
  {
    if audio.Some? then audio.value else []
  }

  /** The bytes of a file written by the current PackToSingleFile. */
  function Packed(fps: seq<byte>, colorBytes: seq<byte>, audio: Option<seq<byte>>, text: seq<byte>): seq<byte>
    requires |fps| == 8 && |colorBytes| < TwoTo31
    requires audio.Some? ==> |audio.value| < TwoTo31
  {
    fps + (PrefixedBytes(colorBytes) + (AudioField(audio) + text))
  }

  /** The bytes of a file written by the legacy PackToSingleFile, which has no colour field. */
  function LegacyPacked(fps: seq<byte>, audio: Option<seq<byte>>, text: seq<byte>): seq<byte>
    requires |fps| == 8
    requires audio.Some? ==> |audio.value| < TwoTo31
  {
    fps + (AudioField(audio) + text)
  }

  /** A file opened with FileMode.Create: it starts empty and every write appends. */
  class FileStream {
    var contents: seq<byte>

    constructor ()
      ensures contents == []
    {
      contents := [];
    }

    method Write(bytes: seq<byte>)
      modifies this
      ensures contents == old(contents) + bytes
    {
      contents := contents + bytes;
    }
  }

  /**
   * The current PackToSingleFile: the fps, the colour name, the audio length
   * and bytes (or a zero length when there is no audio file), then the text
   * file copied verbatim.
   */
  method PackToSingleFile(fps: seq<byte>, audio: Option<seq<byte>>, text: seq<byte>, colorName: string)
    returns (fs: FileStream)
    requires |fps| == 8
    requires audio.Some? ==> |audio.value| < TwoTo31
    requires |Utf8.Encode(colorName)| < TwoTo31
    ensures fresh(fs)
    ensures fs.contents == Packed(fps, Utf8.Encode(colorName), audio, text)
  {
    fs := new FileStream();
    fs.Write(fps);
    var field := StringField(colorName);
    fs.Write(field);
    ghost var header := fs.contents;
    assert header == [] + fps + field;
    match audio {
      case Some(a) =>
        fs.Write(Int32LE(|a|));
        fs.Write(a);
        assert fs.contents == header + Int32LE(|a|) + a;
        assert Int32LE(|a|) + a == AudioField(audio);
      case None =>
        fs.Write(Int32LE(0));
        assert Int32LE(0) == AudioField(audio);
    }
    assert fs.contents == header + AudioField(audio);
    fs.Write(text);
    Regroup(fps, field, AudioField(audio), text);
    assert [] + fps == fps;
  }

  /** The legacy PackToSingleFile: as above without the colour name. */
  method LegacyPackToSingleFile(fps: seq<byte>, audio: Option<seq<byte>>, text: seq<byte>)
    returns (fs: FileStream)
    requires |fps| == 8
    requires audio.Some? ==> |audio.value| < TwoTo31
    ensures fresh(fs)
    ensures fs.contents == LegacyPacked(fps, audio, text)
  {
    fs := new FileStream();
    fs.Write(fps);
    ghost var header := fs.contents;
    assert header == [] + fps;
    match audio {
      case Some(a) =>
        fs.Write(Int32LE(|a|));
        fs.Write(a);
        assert fs.contents == header + Int32LE(|a|) + a;
        assert Int32LE(|a|) + a == AudioField(audio);
      case None =>
        fs.Write(Int32LE(0));
        assert Int32LE(0) == AudioField(audio);
    }
    assert fs.contents == header + AudioField(audio);
    fs.Write(text);
    Regroup3(fps, AudioField(audio), text);
    assert [] + fps == fps;
  }

  // ---------------------------------------------------------------- reading
  //
  // A BinaryReader works on the bytes left in its stream: each reader takes
  // those bytes and gives back what it read and the bytes still left after it.

  /** BinaryReader.ReadDouble, as its 8 raw bytes. */
  function ReadDouble(s: seq<byte>): (r: Result<(seq<byte>, seq<byte>)>)
    ensures r.Ok? <==> 8 <= |s|
    ensures r.Ok? ==> |r.value.0| == 8 && |r.value.1| == |s| - 8
    ensures r.Err? ==> r.error == EndOfStream
  {
    if 8 <= |s| then Ok((s[..8], s[8..])) else Err(EndOfStream)
  }

  /** BinaryReader.ReadInt32: four bytes, little-endian, two's complement. */
  function ReadInt32(s: seq<byte>): (r: Result<(int, seq<byte>)>)
    ensures r.Ok? <==> 4 <= |s|
    ensures r.Ok? ==> |r.value.1| == |s| - 4 && -TwoTo31 <= r.value.0 < TwoTo31
    ensures r.Err? ==> r.error == EndOfStream
  {
    if 4 <= |s| then
      assert Pow256(4) == TwoTo32;
      Ok((ToInt32(FromLittleEndian(s[..4])), s[4..]))
    else Err(EndOfStream)
  }

  /**
   * BinaryReader.Read7BitEncodedInt on `s` from the group `k` on: the
   * unsigned value of these groups and the bytes after them. A byte below
   * 0x80 ends the number; after four bytes with the high bit set the fifth
   * byte must be at most 15.
   */
  function Read7BitFrom(s: seq<byte>, k: nat): (r: Result<(nat, seq<byte>)>)
    requires k <= 4
    ensures r.Ok? ==> |r.value.1| < |s| <= |r.value.1| + 5 - k
    ensures r.Ok? ==> r.value.0 < GroupBound(k)
    ensures r.Err? ==> r.error == EndOfStream || r.error == BadFormat
    decreases 4 - k
  {
    if |s| == 0 then Err(EndOfStream)
    else if k == 4 then
      if s[0] > 15 then Err(BadFormat) else Ok((s[0], s[1..]))
    else if s[0] < 0x80 then Ok((s[0], s[1..]))
    else
      match Read7BitFrom(s[1..], k + 1)
      case Err(e) => Err(e)
      case Ok((v, t)) => Ok((s[0] - 0x80 + 0x80 * v, t))
  }

  /** BinaryReader.Read7BitEncodedInt: the uint32 read, cast to int32. */
  function Read7Bit(s: seq<byte>): (r: Result<(int, seq<byte>)>)
    ensures r.Ok? ==> |r.value.1| < |s| <= |r.value.1| + 5
    ensures r.Ok? ==> -TwoTo31 <= r.value.0 < TwoTo31
  {
    match Read7BitFrom(s, 0)
    case Err(e) => Err(e)
    case Ok((u, t)) => Ok((ToInt32(u), t))
  }

  /**
   * The byte half of BinaryReader.ReadString: a 7-bit length, which must not
   * read as negative, then exactly that many bytes.
   */
  function ReadPrefixedBytes(s: seq<byte>): (r: Result<(seq<byte>, seq<byte>)>)
    ensures r.Ok? ==> |r.value.1| < |s|
  {
    match Read7Bit(s)
    case Err(e) => Err(e)
    case Ok((len, t)) =>
      if len < 0 then Err(BadStringLength)
      else if len > |t| then Err(EndOfStream)
      else Ok((t[..len], t[len..]))
  }

  /** BinaryReader.ReadString: the length-prefixed bytes, decoded as UTF-8. */
  function ReadString(s: seq<byte>): (r: Result<(string, seq<byte>)>)
    ensures r.Ok? ==> |r.value.1| < |s|
  {
    match ReadPrefixedBytes(s)
    case Err(e) => Err(e)
    case Ok((b, t)) => Ok((Utf8.Decode(b), t))
  }

  /** BinaryReader.ReadBytes: up to `count` bytes, fewer at the end of the stream, never an error. */
  function ReadBytes(s: seq<byte>, count: nat): (r: (seq<byte>, seq<byte>))
    ensures |r.0| == (if count <= |s| then count else |s|) && |r.0| + |r.1| == |s|
  {
    if count <= |s| then (s[..count], s[count..]) else (s, [])
  }

  /**
   * What the readers get out of a file's header, and where the text starts.
   * The colour name is kept as the bytes read and decoded on demand.
   */
  datatype Header = Header(fps: seq<byte>, colorBytes: seq<byte>, audioSize: int, audio: seq<byte>, textStart: nat)
  {
    function ColorName(): string
    {
      Utf8.Decode(colorBytes)
    }
  }

  /**
   * The audio part as every reader handles it: the int32 length, then the
   * audio bytes only when the length is positive; a zero or negative length
   * leaves the text starting right after the length field.
   */
  function ReadAudio(s: seq<byte>): (r: Result<(int, seq<byte>, seq<byte>)>)
    ensures r.Ok? <==> 4 <= |s|
    ensures r.Ok? ==> |r.value.2| <= |s| - 4
    ensures r.Ok? ==> (r.value.0 <= 0 ==> |r.value.1| == 0 && |r.value.2| == |s| - 4)
    ensures r.Ok? ==> |r.value.1| <= if r.value.0 < 0 then 0 else r.value.0
  {
    match ReadInt32(s)
    case Err(e) => Err(e)
    case Ok((n, t)) =>
      if n > 0 then var (audio, u) := ReadBytes(t, n); Ok((n, audio, u))
      else Ok((n, [], t))
  }

  /** The header of the current layout, as the streaming player and the MP4 export read it. */
  function ParseHeader(data: seq<byte>): Result<Header>
  {
    match ReadDouble(data)
    case Err(e) => Err(e)
    case Ok((fps, s)) =>
      match ReadPrefixedBytes(s)
      case Err(e) => Err(e)
      case Ok((colorBytes, t)) =>
        match ReadAudio(t)
        case Err(e) => Err(e)
        case Ok((n, audio, u)) => Ok(Header(fps, colorBytes, n, audio, |data| - |u|))
  }

  /**
   * The first two header reads, which are all the player needs to set its
   * project: the fps and the colour name's bytes. They succeed whenever the
   * whole header does, with the same fields, and fail exactly when the header
   * fails before its audio length.
   */
  function ReadProjectFields(data: seq<byte>): (r: Result<(seq<byte>, seq<byte>)>)
    ensures ParseHeader(data).Ok? ==> r == Ok((ParseHeader(data).value.fps, ParseHeader(data).value.colorBytes))
    ensures r.Err? ==> ParseHeader(data) == Err(r.error)
  {
    match ReadDouble(data)
    case Err(e) => Err(e)
    case Ok((fps, s)) =>
      match ReadPrefixedBytes(s)
      case Err(e) => Err(e)
      case Ok((colorBytes, _)) => Ok((fps, colorBytes))
  }

  /**
   * A header that parses starts with the eight fps bytes and is followed by at
   * least a one-byte colour length and the four-byte audio length; so any file
   * shorter than 13 bytes is rejected.
   */
  lemma ParseHeaderShape(data: seq<byte>)
    ensures ParseHeader(data).Ok? ==> 8 <= |data| && ParseHeader(data).value.fps == data[..8]
    ensures ParseHeader(data).Ok? ==> 13 <= ParseHeader(data).value.textStart <= |data|
    ensures |data| < 13 ==> ParseHeader(data).Err?
  {
    if ParseHeader(data).Ok? {
      assert ReadDouble(data).value.0 == data[..8];
    }
  }

  /** The header of the legacy layout; it has no colour name, reported here as "". */
  function ParseLegacyHeader(data: seq<byte>): (r: Result<Header>)
    ensures r.Ok? ==> 8 <= |data| && r.value.fps == data[..8] && r.value.ColorName() == ""
    ensures r.Ok? ==> 12 <= r.value.textStart <= |data|
    ensures r.Ok? <==> |data| >= 12
  {
    match ReadDouble(data)
    case Err(e) => Err(e)
    case Ok((fps, s)) =>
      assert fps == data[..8];
      match ReadAudio(s)
      case Err(e) => Err(e)
      case Ok((n, audio, u)) => Ok(Header(fps, [], n, audio, |data| - |u|))
  }

  // ---------------------------------------------------------------- round trips

  /** Reading `k` bytes back undoes writing them, for every value they can hold. */
  lemma {:induction false} FromLittleEndianOf(u: nat, k: nat)
    requires u < Pow256(k)
    ensures FromLittleEndian(LittleEndian(u, k)) == u
  {
    if k > 0 {
      var b := LittleEndian(u, k);
      assert b[1..] == LittleEndian(u / 0x100, k - 1);
      FromLittleEndianOf(u / 0x100, k - 1);
    }
  }

  /** Four bytes, spelled out. */
  lemma FourBytes(b: seq<byte>)
    requires |b| == 4
    ensures FromLittleEndian(b) == b[0] as int + b[1] as int * 0x100 + b[2] as int * 0x1_0000 + b[3] as int * 0x100_0000
  {
    var b1, b2, b3 := b[1..], b[2..], b[3..];
    assert b1[1..] == b2 && b2[1..] == b3 && b3[1..] == [];
    assert FromLittleEndian(b3) == b[3] as int;
    assert FromLittleEndian(b2) == b[2] as int + 0x100 * b[3] as int;
  }

  /** ReadDouble gives back the eight bytes written and leaves what follows them. */
  lemma ReadDoubleOf(fps: seq<byte>, rest: seq<byte>)
    requires |fps| == 8
    ensures ReadDouble(fps + rest) == Ok((fps, rest))
  {
    assert (fps + rest)[..8] == fps && (fps + rest)[8..] == rest;
  }

  /** ReadInt32 undoes BinaryWriter.Write(int). */
  lemma ReadInt32Write(n: int, rest: seq<byte>)
    requires -TwoTo31 <= n < TwoTo31
    ensures ReadInt32(Int32LE(n) + rest) == Ok((n, rest))
  {
    var s := Int32LE(n) + rest;
    assert s[..4] == Int32LE(n) && s[4..] == rest;
    assert Pow256(4) == TwoTo32;
    FromLittleEndianOf(if n < 0 then n + TwoTo32 else n, 4);
  }

  /** Reading back the 7-bit encoding of a value that fits the remaining groups gives the value. */
  lemma {:induction false} Read7BitWrite(n: nat, rest: seq<byte>, k: nat)
    requires k <= 4 && n < GroupBound(k)
    ensures Read7BitFrom(Write7Bit(n) + rest, k) == Ok((n, rest))
    decreases n
  {
    var w := Write7Bit(n);
    if n >= 0x80 {
      assert (w + rest)[1..] == Write7Bit(n / 0x80) + rest;
      Read7BitWrite(n / 0x80, rest, k + 1);
    } else {
      assert (w + rest)[1..] == rest;
    }
  }

  /** ReadPrefixedBytes undoes PrefixedBytes for every byte string shorter than 2^31. */
  lemma ReadPrefixedWrite(e: seq<byte>, rest: seq<byte>)
    requires |e| < TwoTo31
    ensures ReadPrefixedBytes(PrefixedBytes(e) + rest) == Ok((e, rest))
  {
    assert PrefixedBytes(e) + rest == Write7Bit(|e|) + (e + rest);
    Read7BitWrite(|e|, e + rest, 0);
    assert (e + rest)[..|e|] == e && (e + rest)[|e|..] == rest;
  }

  /** ReadString undoes BinaryWriter.Write(string). */
  lemma ReadStringWrite(s: string, rest: seq<byte>)
    requires |Utf8.Encode(s)| < TwoTo31
    ensures ReadString(StringField(s) + rest) == Ok((s, rest))
  {
    ReadPrefixedWrite(Utf8.Encode(s), rest);
    Utf8.DecodeEncode(s);
  }

  /** ReadAudio undoes AudioField: the length written, and the audio bytes (none when absent). */
  lemma ReadAudioWrite(audio: Option<seq<byte>>, rest: seq<byte>)
    requires audio.Some? ==> |audio.value| < TwoTo31
    ensures ReadAudio(AudioField(audio) + rest) == Ok((AudioLength(audio) as int, AudioBytes(audio), rest))
  {
    match audio
    case None =>
      ReadInt32Write(0, rest);
    case Some(a) =>
      assert AudioField(audio) + rest == Int32LE(|a|) + (a + rest);
      ReadInt32Write(|a|, a + rest);
      assert (a + rest)[..|a|] == a && (a + rest)[|a|..] == rest;
  }

  /** The header parser strings its three field readers together. */
  lemma ParseHeaderOf(data: seq<byte>, fps: seq<byte>, s: seq<byte>, colorBytes: seq<byte>, t: seq<byte>,
                      n: int, audio: seq<byte>, u: seq<byte>)
    requires ReadDouble(data) == Ok((fps, s))
    requires ReadPrefixedBytes(s) == Ok((colorBytes, t))
    requires ReadAudio(t) == Ok((n, audio, u))
    ensures ParseHeader(data) == Ok(Header(fps, colorBytes, n, audio, |data| - |u|))
  {
  }

  /** The header parse fails with the error of the first reader that fails. */
  lemma ParseHeaderStopsAtFps(data: seq<byte>)
    requires ReadDouble(data).Err?
    ensures ParseHeader(data) == Err(ReadDouble(data).error)
  {
  }

  lemma ParseHeaderStopsAtColor(data: seq<byte>, fps: seq<byte>, s: seq<byte>)
    requires ReadDouble(data) == Ok((fps, s)) && ReadPrefixedBytes(s).Err?
    ensures ParseHeader(data) == Err(ReadPrefixedBytes(s).error)
  {
  }

  lemma ParseHeaderStopsAtAudio(data: seq<byte>, fps: seq<byte>, s: seq<byte>, colorBytes: seq<byte>, t: seq<byte>)
    requires ReadDouble(data) == Ok((fps, s)) && ReadPrefixedBytes(s) == Ok((colorBytes, t)) && ReadInt32(t).Err?
    ensures ParseHeader(data) == Err(ReadInt32(t).error)
  {
  }

  /** ReadAudio after its length is read: the bytes that ReadBytes gives for a positive length, none otherwise. */
  lemma ReadAudioAfter(t: seq<byte>, n: int, rest: seq<byte>)
    requires ReadInt32(t) == Ok((n, rest))
    ensures n > 0 ==> ReadAudio(t) == Ok((n, ReadBytes(rest, n).0, ReadBytes(rest, n).1))
    ensures n <= 0 ==> ReadAudio(t) == Ok((n, [], rest))
  {
  }

  /**
   * Reading a file written by the current PackToSingleFile gives back the fps,
   * the colour name's bytes and the audio length and bytes, and the text
   * starts where the written text starts.
   */
  lemma ParsePacked(fps: seq<byte>, colorBytes: seq<byte>, audio: Option<seq<byte>>, text: seq<byte>)
    requires |fps| == 8 && |colorBytes| < TwoTo31
    requires audio.Some? ==> |audio.value| < TwoTo31
    ensures var data := Packed(fps, colorBytes, audio, text);
      ParseHeader(data) == Ok(Header(fps, colorBytes, AudioLength(audio), AudioBytes(audio), |data| - |text|))
  {
    var af := AudioField(audio);
    ReadDoubleOf(fps, PrefixedBytes(colorBytes) + (af + text));
    ReadPrefixedWrite(colorBytes, af + text);
    ReadAudioWrite(audio, text);
    ParseHeaderOf(Packed(fps, colorBytes, audio, text), fps, PrefixedBytes(colorBytes) + (af + text),
                  colorBytes, af + text, AudioLength(audio), AudioBytes(audio), text);
  }

  /** In a packed file the text is all that follows the header. */
  lemma PackedText(fps: seq<byte>, colorBytes: seq<byte>, audio: Option<seq<byte>>, text: seq<byte>)
    requires |fps| == 8 && |colorBytes| < TwoTo31
    requires audio.Some? ==> |audio.value| < TwoTo31
    ensures var data := Packed(fps, colorBytes, audio, text); data[|data| - |text|..] == text
  {
    LastPart(fps, PrefixedBytes(colorBytes), AudioField(audio), text);
  }

  /** The colour name of a file packed by PackToSingleFile reads back as written. */
  lemma PackedColorName(fps: seq<byte>, colorName: string, audio: Option<seq<byte>>, text: seq<byte>)
    requires |fps| == 8 && |Utf8.Encode(colorName)| < TwoTo31
    requires audio.Some? ==> |audio.value| < TwoTo31
    ensures ParseHeader(Packed(fps, Utf8.Encode(colorName), audio, text)).Ok?
    ensures ParseHeader(Packed(fps, Utf8.Encode(colorName), audio, text)).value.ColorName() == colorName
  {
    ParsePacked(fps, Utf8.Encode(colorName), audio, text);
    Utf8.DecodeEncode(colorName);
  }

  /** The legacy reader undoes the legacy writer in the same way. */
  lemma ParseLegacyPacked(fps: seq<byte>, audio: Option<seq<byte>>, text: seq<byte>)
    requires |fps| == 8
    requires audio.Some? ==> |audio.value| < TwoTo31
    ensures var data := LegacyPacked(fps, audio, text);
      ParseLegacyHeader(data) == Ok(Header(fps, [], AudioLength(audio), AudioBytes(audio), |data| - |text|))
      && data[|data| - |text|..] == text
  {
    LastOfThree(fps, AudioField(audio), text);
    ReadDoubleOf(fps, AudioField(audio) + text);
    ReadAudioWrite(audio, text);
  }

  /** An absent audio file and an empty one are written alike and both read back as no audio. */
  lemma EmptyAudioIsNoAudio()
    ensures AudioField(Some([])) == AudioField(None) == [0, 0, 0, 0]
  {
  }

  /** A negative audio length is not an error: the reader skips no audio and the text follows the length field. */
  lemma NegativeAudioLength(s: seq<byte>)
    requires 4 <= |s| && s[3] >= 0x80
    ensures ReadAudio(s).Ok?
    ensures ReadAudio(s).value.0 < 0
    ensures ReadAudio(s).value.1 == [] && ReadAudio(s).value.2 == s[4..]
  {
    FourBytes(s[..4]);
  }

  /** A 7-bit length whose fifth byte exceeds 15 is a FormatException. */
  lemma Overlong7Bit()
    ensures Read7Bit([0x80, 0x80, 0x80, 0x80, 0x10]) == Err(BadFormat)
  {
  }

  /** A 7-bit length of 2^31 or more reads as a negative int, and ReadString rejects it. */
  lemma NegativeStringLength()
    ensures Read7Bit([0x80, 0x80, 0x80, 0x80, 0x08]) == Ok((-TwoTo31, []))
    ensures ReadString([0x80, 0x80, 0x80, 0x80, 0x08]) == Err(BadStringLength)
  {
  }
}
