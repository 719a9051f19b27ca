# AsciiConverter in Dafny

A model of the core of AsciiConverter. The converter turns a video into
ASCII-art frames. It packs the frames with the video's frame rate, a
colour name and the audio into one `.asciiv` file. Two players play such
a file back, and an exporter reads it again to render an MP4.

The model covers two generations of the program:

- **The current converter** (`AsciiConverter/MainWindow.xaml.cs`), in
  modules `ProjectName` and `Converter`. It sanitises the project name,
  picks a character ramp by style and maps every grey pixel to a ramp
  character. It writes each frame as a block closed by the `FRAME_END`
  marker and reports progress only when the value rises. It packs the
  file and unpacks it again for the MP4 export. It also formats a custom
  colour as `#RRGGBB`.
- **The streaming player** (`ASCIIV.Player/PlayerWindow.xaml.cs`), in
  modules `FrameIndex` and `Player`. It reads the header and indexes the
  frames: it scans the text for the marker bytes in fixed-size reads and
  records where each frame starts. On every tick it reads only the frame
  that the audio position or its stopwatch points at. The slider, the
  seek and play/pause are modelled too.
- **The legacy converter and player** (`MainWindow.xaml.cs`,
  `PlayerWindow.xaml.cs`), in modules `LegacyConverter` and
  `LegacyPlayer`. They use a file layout without a colour name and one
  fixed ramp. They set progress after every frame without a gate. The
  legacy player reads the whole text and splits it into frames at the
  marker.
- **The BitCrusher sample provider** (`BitCrusher.cs`), in module
  `BitCrusher`. It quantises the samples of one frame (one sample per
  channel) out of every `downSampleFactor` frames and holds them on the
  frames in between.

Shared modules:

- `Text`: bytes, `Option`, the marker, ordinal `IndexOf`/`LastIndexOf`,
  `char.IsWhiteSpace` and `Trim`.
- `Utf8`: UTF-8 encoding and lossy decoding.
- `Container`: the two file layouts, with the BinaryWriter and
  BinaryReader primitives they are built from (little-endian int32, 7-bit
  length-prefixed strings).
- `Frames`: the frame blocks and the `string.Split` on the three
  separators `FRAME_END\r\n`, `FRAME_END\n` and `FRAME_END` with
  `RemoveEmptyEntries`.
- `Clock`: the Stopwatch and the `(int)` cast, which truncates toward zero.

Stateful windows are classes whose methods update fields:
`Player.PlayerWindow`, `LegacyPlayer.PlayerWindow` and
`BitCrusher.BitCrusher`. Calls made on the WPF `MediaPlayer` are recorded
in a `mediaLog` field. The loops of the source are `while`/`for` loops
proved against specification functions:

- the frame-block builder;
- the converters' frame loops;
- the indexer's reads and byte scan;
- `IsMatch` and `ReadFrame`;
- the BitCrusher's `Read` and its per-frame loop.

Notes on the behaviour the model makes explicit:

- **Indexer reads.** The indexer only sees a marker whose nine bytes lie
  within one read. A marker that straddles two reads is never indexed
  (`FrameIndex.StraddleMissed`), so the index depends on the read size
  (`FrameIndex.ChunkSizeMatters`).
- **Extra trailing frame.** The converters close every frame with
  `FRAME_END\r\n`. The end of the last marker is therefore not the end
  of the file, and the streaming player indexes one more frame, made of
  the final line break; `ChunkSizeMatters` shows it at offset 9. Every
  later frame starts with that line break too. `ReadFrame` only trims at
  the end, so the frame's text keeps it.
- **Optimized ramp.** It holds every character of the marker
  (`Converter.OptimizedHoldsMarker`), so a frame drawn with it can
  contain `FRAME_END`, which the splitter then cuts. The round trips are
  therefore proved for the other named ramps and for the legacy ramp.
- **Negative audio length.** The readers skip the audio whenever the
  length is not positive. A negative length is not an error, and the
  text then starts right after the length field
  (`Container.NegativeAudioLength`). The model follows this code.

## Model

| member | source | states |
|---|---|---|
| Container.PackToSingleFile | AsciiConverter/MainWindow.xaml.cs:307-327 | the file written is the fps's 8 bytes, the colour name as a length-prefixed UTF-8 string, the audio length and audio (length 0 when there is no audio file), then the text bytes |
| Container.LegacyPackToSingleFile | MainWindow.xaml.cs:223-251 | the legacy file is the fps, the audio length and audio (0 without audio), then the text bytes, with no colour field |
| Container.ReadDouble | ASCIIV.Player/PlayerWindow.xaml.cs:100 | reading the fps succeeds exactly when 8 bytes remain and consumes 8 bytes; otherwise it fails with end of stream |
| Container.ReadInt32 | ASCIIV.Player/PlayerWindow.xaml.cs:117 | reading the audio length succeeds exactly when 4 bytes remain, consumes 4 and yields a signed 32-bit value; otherwise end of stream |
| Container.Read7Bit | ASCIIV.Player/PlayerWindow.xaml.cs:101 | the string length prefix takes one to five bytes and decodes to a signed 32-bit value |
| Container.ReadBytes | ASCIIV.Player/PlayerWindow.xaml.cs:119 | ReadBytes returns the count asked for, or fewer when the file ends first, and the rest |
| Container.ReadAudio | ASCIIV.Player/PlayerWindow.xaml.cs:117-125 | the audio is read only for a positive length; a zero or negative length reads no audio and the text follows the length field |
| Container.ReadProjectFields | ASCIIV.Player/PlayerWindow.xaml.cs:100-101 | the fps and colour reads succeed with the header's own fields whenever the whole header parses, and a failure there is the header's failure |
| Container.ParseHeader | ASCIIV.Player/PlayerWindow.xaml.cs:100-125 | the header reads in order: fps, length-prefixed colour name, audio length and, when positive, the audio; the first failing read decides the error. Its properties are stated by Container.ParseHeaderShape, Container.ParsePacked and Container.ReadProjectFields |
| Container.ParseHeaderShape | ASCIIV.Player/PlayerWindow.xaml.cs:100-129 | a parsed header's fps is the first 8 bytes and the text starts at least 13 bytes in; a file shorter than 13 bytes never parses |
| Container.ParseLegacyHeader | PlayerWindow.xaml.cs:58-75 | the legacy header parses exactly when the file has at least 12 bytes, with the fps first, no colour and the text at least 12 bytes in |
| Container.ReadDoubleOf | AsciiConverter/MainWindow.xaml.cs:310 | the fps written is read back unchanged, with the rest of the file after it |
| Container.ReadInt32Write | AsciiConverter/MainWindow.xaml.cs:316 | every signed 32-bit length written little-endian reads back unchanged |
| Container.Read7BitWrite | AsciiConverter/MainWindow.xaml.cs:311 | a 7-bit encoded length reads back unchanged, with the rest after it |
| Container.ReadPrefixedWrite | AsciiConverter/MainWindow.xaml.cs:311 | a length-prefixed byte string reads back unchanged |
| Container.ReadStringWrite | AsciiConverter/MainWindow.xaml.cs:311 | the colour name written by BinaryWriter.Write(string) is read back by ReadString unchanged |
| Container.ReadAudioWrite | AsciiConverter/MainWindow.xaml.cs:314-321 | the audio part written reads back as its length and bytes, or as length 0 and no audio without audio |
| Container.ParsePacked | AsciiConverter/MainWindow.xaml.cs:307-327 | parsing a packed file gives back the fps, the colour bytes, the audio length and audio, and the start of the text |
| Container.PackedText | AsciiConverter/MainWindow.xaml.cs:325-326 | the text copied last is exactly the tail of the packed file |
| Container.PackedColorName | AsciiConverter/MainWindow.xaml.cs:311 | the colour name a packed file is parsed with is the one packed |
| Container.ParseLegacyPacked | MainWindow.xaml.cs:223-251 | parsing a legacy file gives back its fps, audio and the start of its text |
| Container.EmptyAudioIsNoAudio | AsciiConverter/MainWindow.xaml.cs:314-321 | an empty audio file and a missing one write the same four zero bytes |
| Container.NegativeAudioLength | ASCIIV.Player/PlayerWindow.xaml.cs:117-118 | a negative audio length reads no audio and the text starts right after the length field |
| Container.Overlong7Bit | ASCIIV.Player/PlayerWindow.xaml.cs:101 | a length prefix whose fifth byte is above 15 is a format error |
| Container.NegativeStringLength | ASCIIV.Player/PlayerWindow.xaml.cs:101 | a length prefix that decodes negative makes ReadString fail |
| Utf8.DecodeEncode | AsciiConverter/MainWindow.xaml.cs:358-359 | decoding the UTF-8 bytes the text writer produced gives back the text exactly |
| Utf8.Encode | AsciiConverter/MainWindow.xaml.cs:225 | the UTF-8 bytes the StreamWriter writes for the text; the round trip with Utf8.Decode is stated by Utf8.DecodeEncode |
| Utf8.Decode | AsciiConverter/MainWindow.xaml.cs:358-359 | the text the StreamReader (and Encoding.UTF8.GetString) reads from UTF-8 bytes; it undoes Utf8.Encode, as Utf8.DecodeEncode states |
| Text.TrimEnd | PlayerWindow.xaml.cs:136 | TrimEnd removes exactly the trailing white space: the result is a prefix, what is removed is white space, and the result does not end in white space |
| Text.Trim | AsciiConverter/MainWindow.xaml.cs:115 | string.Trim: white space removed from both ends; TrimEnd's part is characterised by Text.TrimEnd |
| Text.LastIndexOf | ASCIIV.Player/PlayerWindow.xaml.cs:234 | the ordinal LastIndexOf is -1 exactly when the marker does not occur; otherwise the marker is there and nowhere after |
| Frames.RowText | AsciiConverter/MainWindow.xaml.cs:243-250 | each row is closed by a line break: a frame without rows gives no text, any other ends in '\n' |
| Frames.FrameBlock | AsciiConverter/MainWindow.xaml.cs:242-252 | one frame's block: its rows, each closed by a line break, then the marker line; Frames.SplitBlock states that the split gives the rows back |
| Frames.Payload | AsciiConverter/MainWindow.xaml.cs:242-252 | the text file's content: the frame blocks in order; Frames.PayloadAppend and Frames.SplitPayload state how it grows and splits back |
| Frames.Split | PlayerWindow.xaml.cs:85-86 | the Split of the text on the three marker separators with RemoveEmptyEntries, as also at MainWindow.xaml.cs:284-285 and AsciiConverter/MainWindow.xaml.cs:360-361; its pieces are stated by Frames.SplitPieces, Frames.SplitFree and Frames.SplitBlock |
| Frames.PayloadAppend | AsciiConverter/MainWindow.xaml.cs:252 | writing one more block extends the written text by exactly that frame's block |
| Frames.SplitPieces | MainWindow.xaml.cs:284-285 | every piece the separator split returns is non-empty and free of the marker |
| Frames.SplitFree | PlayerWindow.xaml.cs:85-86 | a text without the marker splits into itself, or into nothing when empty |
| Frames.SplitBlock | PlayerWindow.xaml.cs:85-86 | a frame block followed by more text splits into the frame's row text followed by the split of the rest |
| Frames.SplitPayload | AsciiConverter/MainWindow.xaml.cs:358-361 | the split of the written payload is exactly the row texts of the frames, in order, frames without rows dropped, provided no row holds the marker |
| Frames.SplitPayloadBytes | AsciiConverter/MainWindow.xaml.cs:358-361 | the same through UTF-8 encoding and decoding |
| Frames.RowTextWithout | AsciiConverter/MainWindow.xaml.cs:243-250 | a character that no row holds, other than a line break, is not in the frame's text |
| FrameIndex.InReadAfter | ASCIIV.Player/PlayerWindow.xaml.cs:170-171 | the i-th byte of a read that starts on a read boundary is at position i within its read |
| FrameIndex.MarkerEnds | ASCIIV.Player/PlayerWindow.xaml.cs:181-191 | every offset recorded lies after a whole marker past the text start and strictly before the end of the file |
| FrameIndex.Index | ASCIIV.Player/PlayerWindow.xaml.cs:156-195 | the frame offsets of the file: the text start first, then the marker ends; FrameIndex.IndexShape and FrameIndex.MarkerEndsMembers characterise the rest |
| FrameIndex.MarkerEndsMembers | ASCIIV.Player/PlayerWindow.xaml.cs:170-194 | an offset is recorded exactly when a marker seen within one read ends there and that is not the end of the file |
| FrameIndex.MarkerEndsIncreasing | ASCIIV.Player/PlayerWindow.xaml.cs:170-194 | the recorded offsets strictly increase |
| FrameIndex.NoOverlap | ASCIIV.Player/PlayerWindow.xaml.cs:198-205 | two occurrences of the marker never overlap |
| FrameIndex.IndexShape | ASCIIV.Player/PlayerWindow.xaml.cs:156-195 | the index starts with the text start, holds every seen marker end inside the file and nothing else, and strictly increases |
| FrameIndex.StraddleMissed | ASCIIV.Player/PlayerWindow.xaml.cs:199 | a marker that straddles two reads is never indexed |
| FrameIndex.OneChunkSeesAll | ASCIIV.Player/PlayerWindow.xaml.cs:164-170 | when the whole text fits in one read, every marker in it is seen |
| FrameIndex.MarkerEndsSkip | ASCIIV.Player/PlayerWindow.xaml.cs:171-175 | positions without a marker add no offset |
| FrameIndex.ChunkSizeMatters | ASCIIV.Player/PlayerWindow.xaml.cs:164 | with 4-byte reads a marker at the text start is missed; with 64 KiB reads it is found, and its trailing line break becomes a frame of its own |
| FrameIndex.StripClosingMarker | ASCIIV.Player/PlayerWindow.xaml.cs:234-235 | a frame text that ends with the marker loses the marker and then its trailing white space |
| FrameIndex.FrameText | ASCIIV.Player/PlayerWindow.xaml.cs:210 | with no file open or an index out of range, a frame reads as the empty string |
| FrameIndex.DecodeMarker | ASCIIV.Player/PlayerWindow.xaml.cs:230 | the marker bytes decode to the marker |
| FrameIndex.IndexGap | ASCIIV.Player/PlayerWindow.xaml.cs:181-190 | consecutive index entries are at least a marker apart, and a marker ends at every entry after the first |
| FrameIndex.DecodeBeforeMarker | ASCIIV.Player/PlayerWindow.xaml.cs:230 | text followed by the marker bytes decodes to its own text followed by the marker |
| FrameIndex.InnerFrame | ASCIIV.Player/PlayerWindow.xaml.cs:213-235 | a frame that is not the last reads the bytes from its offset up to the next one |
| FrameIndex.FrameBeforeMarker | ASCIIV.Player/PlayerWindow.xaml.cs:213-235 | a frame whose bytes end with the marker reads as the text before it, trimmed |
| FrameIndex.IndexedFrame | ASCIIV.Player/PlayerWindow.xaml.cs:209-238 | every indexed frame but the last reads as the text between its offset and the marker closing it, trimmed at the end |
| Clock.Start | ASCIIV.Player/PlayerWindow.xaml.cs:246 | starting the stopwatch keeps its time and sets it running |
| Clock.Stop | ASCIIV.Player/PlayerWindow.xaml.cs:76 | stopping keeps the time and stops it |
| Clock.Reset | ASCIIV.Player/PlayerWindow.xaml.cs:77 | a reset stopwatch is stopped at zero |
| Clock.Restart | ASCIIV.Player/PlayerWindow.xaml.cs:314 | a restarted stopwatch runs from zero |
| Clock.Advance | ASCIIV.Player/PlayerWindow.xaml.cs:261-273 | time passing never lowers the elapsed time and does not start or stop the stopwatch |
| Clock.PauseKeepsTime | ASCIIV.Player/PlayerWindow.xaml.cs:335-348 | time passing while paused is not counted once playback resumes |
| Clock.AdvanceTwice | ASCIIV.Player/PlayerWindow.xaml.cs:261-273 | time passed in two steps counts as their sum |
| Clock.Truncate | ASCIIV.Player/PlayerWindow.xaml.cs:273 | the (int) cast truncates toward zero: the whole number within one of the value, on the side of zero |
| Clock.TruncateMonotone | ASCIIV.Player/PlayerWindow.xaml.cs:273 | truncation never lowers a larger value's result |
| Clock.ElapsedMilliseconds | ASCIIV.Player/PlayerWindow.xaml.cs:265 | ElapsedMilliseconds is the elapsed time in whole milliseconds, rounded down |
| Player.ProjectAfter | ASCIIV.Player/PlayerWindow.xaml.cs:100-107 | the project is the header's fps and colour name whenever the header parses, and is left as it was when the fps cannot be read |
| Player.SeekLandsOnFrame | ASCIIV.Player/PlayerWindow.xaml.cs:306-324 | after a drop on frame n, a tick before any time passes targets frame n again, with or without audio |
| Player.TargetNeverMovesBack | ASCIIV.Player/PlayerWindow.xaml.cs:261-273 | without audio the frame targeted never moves back as time passes |
| Player.AudioDecides | ASCIIV.Player/PlayerWindow.xaml.cs:261-271 | a non-zero audio position decides the time; a zero position is used for at most 500 ms of stopwatch time, and then the stopwatch plus the seek offset takes over |
| Player.PlaybackTime | ASCIIV.Player/PlayerWindow.xaml.cs:261-271 | with audio and a non-zero position, the time is the audio position; without audio, it is the stopwatch's time plus the seek offset (the 500 ms fallback is Player.AudioDecides) |
| Player.FrameAt | ASCIIV.Player/PlayerWindow.xaml.cs:273 | the frame of a time: the (int) cast of time times fps; its bounds are those of Clock.Truncate |
| Player.TargetFrame | ASCIIV.Player/PlayerWindow.xaml.cs:261-273 | the frame a tick targets, from the time source and the fps; Player.TargetNeverMovesBack and Player.SeekLandsOnFrame state its properties |
| Player.ReadChunk | ASCIIV.Player/PlayerWindow.xaml.cs:170 | a read fills as many bytes as fit in the buffer and are left in the file, and they are the file's bytes at the position |
| Player.IsMatch | ASCIIV.Player/PlayerWindow.xaml.cs:198-205 | IsMatch is true exactly when the whole marker fits in the bytes read and its bytes after the first follow |
| Player.SeenIff | ASCIIV.Player/PlayerWindow.xaml.cs:171-175 | the byte tests at a position of a read find exactly the markers the indexer sees there |
| Player.ScanAt | ASCIIV.Player/PlayerWindow.xaml.cs:171-191 | one more byte of the scan adds a marker end exactly when the tests find a marker there and it does not end the file |
| Player.ScanEndsAgree | ASCIIV.Player/PlayerWindow.xaml.cs:171-192 | scanning a read byte by byte finds what the scan of the whole file finds within it |
| Player.ScanRead | ASCIIV.Player/PlayerWindow.xaml.cs:171-192 | the offsets one read adds extend the index of the bytes before it to the index of the bytes up to its end |
| Player.PlayerWindow.constructor | ASCIIV.Player/PlayerWindow.xaml.cs:18-42 | a new window has no file, no offsets, no audio, an empty media log and a fresh stopwatch |
| Player.PlayerWindow.StopPlayback | ASCIIV.Player/PlayerWindow.xaml.cs:74-90 | playback is paused with the clock reset and the seek offset zero; the media player is stopped and closed; the file is closed and the index is empty |
| Player.PlayerWindow.IndexFileFrames | ASCIIV.Player/PlayerWindow.xaml.cs:156-195 | the offsets become the index of the open file from the text start: the start, then every marker end seen within one read and strictly inside the file |
| Player.PlayerWindow.ReadFrame | ASCIIV.Player/PlayerWindow.xaml.cs:209-238 | a frame reads as the bytes from its offset to the next one (or the end of the file), decoded, cut at the last marker and trimmed; empty on every failure path |
| Player.PlayerWindow.StartSyncPlayback | ASCIIV.Player/PlayerWindow.xaml.cs:243-252 | the audio, if any, is played and the stopwatch started; the first pass of the play loop, which the source runs before returning, is the caller's first Tick |
| Player.PlayerWindow.ReadHeader | ASCIIV.Player/PlayerWindow.xaml.cs:100-125 | the header read is the file's header parse; the project is set from the fps and colour as soon as both are read, and is left as it was when either read fails; positive-length audio is opened |
| Player.PlayerWindow.LoadProject | ASCIIV.Player/PlayerWindow.xaml.cs:92-152 | a file whose header parses is opened and indexed from its text start, the slider is sized to the frames and playback starts; one that does not parse stops playback and leaves the display and the slider maximum as they were; in both cases the project is set exactly when the fps and colour read |
| Player.PlayerWindow.IndexAndPlay | ASCIIV.Player/PlayerWindow.xaml.cs:127-146 | the frames are indexed from the text start, the slider maximum is the last frame and playback starts |
| Player.PlayerWindow.Tick | ASCIIV.Player/PlayerWindow.xaml.cs:254-300 | paused, nothing changes; otherwise a target frame in range is shown and the slider follows unless dragged, held at its minimum 0 for a negative frame; past the last frame playback ends with the clock reset and frame 0 shown |
| Player.PlayerWindow.Elapse | ASCIIV.Player/PlayerWindow.xaml.cs:261-273 | time passing advances the stopwatch |
| Player.PlayerWindow.MoveSlider | ASCIIV.Player/PlayerWindow.xaml.cs:144 | the slider stays between 0 and its maximum and takes any value inside that range |
| Player.PlayerWindow.DragStarted | ASCIIV.Player/PlayerWindow.xaml.cs:302-304 | while dragging, ticks leave the slider alone |
| Player.PlayerWindow.DragCompleted | ASCIIV.Player/PlayerWindow.xaml.cs:306-324 | the seek offset becomes the dropped frame's time, the audio is moved there, the stopwatch restarts and the frame is shown |
| Player.PlayerWindow.PlayPause | ASCIIV.Player/PlayerWindow.xaml.cs:335-348 | pause toggles; the stopwatch stops or starts with its time kept; the audio is paused or played |
| LegacyPlayer.LoadsPackedText | PlayerWindow.xaml.cs:54-87 | the frames of a legacy file are the split of the text it was packed with |
| LegacyPlayer.FramesOf | PlayerWindow.xaml.cs:82-86 | the legacy frames: the file's bytes after the header, decoded and split on the marker; LegacyPlayer.LoadsPackedText and LegacyPlayer.LoadedFramesClean state their properties |
| LegacyPlayer.LoadsPackedFrames | PlayerWindow.xaml.cs:54-87 | a legacy file packed from marker-free frames loads as exactly their row texts, frames without rows dropped |
| LegacyPlayer.LoadedFramesClean | PlayerWindow.xaml.cs:85-86 | every frame the legacy player loads is non-empty and free of the marker |
| LegacyPlayer.PlayerWindow.constructor | PlayerWindow.xaml.cs:8-30 | a new window has no frames, no fps, no audio and a fresh stopwatch, and its loop runs |
| LegacyPlayer.PlayerWindow.LoadSingleFile | PlayerWindow.xaml.cs:54-97 | the fps is set as soon as it is read; a file with a whole header loads its frames, opens positive-length audio, sizes the slider (its maximum never below 0) and starts playing; a short file changes nothing else |
| LegacyPlayer.PlayerWindow.Tick | PlayerWindow.xaml.cs:110-157 | paused, nothing changes; a frame in range is shown trimmed; past the end playback stops with the display kept; a negative frame throws and ends the loop |
| LegacyPlayer.PlayerWindow.Elapse | PlayerWindow.xaml.cs:110-157 | time passing advances the stopwatch |
| LegacyPlayer.PlayerWindow.MoveSlider | PlayerWindow.xaml.cs:94 | the slider stays between 0 and its maximum and takes any value inside that range |
| LegacyPlayer.PlayerWindow.DragStarted | PlayerWindow.xaml.cs:159-161 | while dragging, ticks leave the slider alone |
| LegacyPlayer.PlayerWindow.DragCompleted | PlayerWindow.xaml.cs:163-187 | the seek offset becomes the dropped frame's time and the stopwatch restarts; the frame is shown only when it exists |
| LegacyPlayer.PlayerWindow.PlayPause | PlayerWindow.xaml.cs:189-202 | pause toggles with the stopwatch's time kept, and the audio follows |
| ProjectName.Flush | AsciiConverter/MainWindow.xaml.cs:120 | an empty run yields no entry and a non-empty one yields itself |
| ProjectName.Runs | AsciiConverter/MainWindow.xaml.cs:120 | Split on the invalid file-name characters with RemoveEmptyEntries; ProjectName.RunsClean, ProjectName.RunsKeep and ProjectName.RunsSkip state it |
| ProjectName.Join | AsciiConverter/MainWindow.xaml.cs:120 | string.Join of the entries with the separator; ProjectName.JoinClean states that clean parts stay clean |
| ProjectName.SanitizeName | AsciiConverter/MainWindow.xaml.cs:115-120 | the project name as written: trimmed, defaulted when blank, split on invalid characters and joined with "_"; ProjectName.SanitizeNameClean, ProjectName.SanitizeNameKeeps and ProjectName.InvalidNameBecomesEmpty state it |
| ProjectName.RawName | AsciiConverter/MainWindow.xaml.cs:115-116 | the raw name is never empty |
| ProjectName.RunsClean | AsciiConverter/MainWindow.xaml.cs:119-120 | every entry of the split is non-empty and holds no invalid file-name character |
| ProjectName.JoinClean | AsciiConverter/MainWindow.xaml.cs:120 | joining clean parts with a clean separator gives a clean string |
| ProjectName.RunsKeep | AsciiConverter/MainWindow.xaml.cs:120 | valid characters extend the current entry |
| ProjectName.RunsSkip | AsciiConverter/MainWindow.xaml.cs:120 | a run of invalid characters ends the current entry |
| ProjectName.SanitizeNameClean | AsciiConverter/MainWindow.xaml.cs:115-120 | the project name never holds a character Windows refuses in a file name |
| ProjectName.SanitizeNameKeeps | AsciiConverter/MainWindow.xaml.cs:115-120 | a clean, non-blank name is kept as trimmed |
| ProjectName.SanitizeNameBlank | AsciiConverter/MainWindow.xaml.cs:116 | a blank name becomes "OutputVideo" |
| ProjectName.RunBecomesUnderscore | AsciiConverter/MainWindow.xaml.cs:120 | each run of invalid characters between kept characters becomes one underscore |
| ProjectName.InvalidNameBecomesEmpty | AsciiConverter/MainWindow.xaml.cs:115-120 | a name made only of invalid characters becomes the empty name |
| ProjectName.QuestionMarkBecomesEmpty | AsciiConverter/MainWindow.xaml.cs:115-120 | the name "?" becomes the empty name |
| ProjectName.SanitizeNameFixedClean | AsciiConverter/MainWindow.xaml.cs:115-120 | with the default applied after the split, the name is never empty and always clean |
| ProjectName.SanitizeNameFixedAgrees | AsciiConverter/MainWindow.xaml.cs:115-120 | the corrected name equals the name as written whenever that one is not empty |
| Converter.RampFor | AsciiConverter/MainWindow.xaml.cs:132-140 | the ramp chosen for any style text is never empty |
| Converter.HighDetailLacksF | AsciiConverter/MainWindow.xaml.cs:32 | the high-detail ramp has no 'F' |
| Converter.NamedRampsLackF | AsciiConverter/MainWindow.xaml.cs:31-35 | the marker holds an 'F' that the standard, binary, high-detail, block and glitch ramps miss |
| Converter.OptimizedHoldsMarker | AsciiConverter/MainWindow.xaml.cs:36 | the optimized ramp holds every character of the marker |
| Converter.Scaled | AsciiConverter/MainWindow.xaml.cs:409 | the scaled share of a grey value lies between 0 and the last ramp index |
| Converter.MapPixelToCharIndex | AsciiConverter/MainWindow.xaml.cs:407-411 | the index is a valid ramp index; black maps to the first character and white to the last |
| Converter.ScaledMonotone | AsciiConverter/MainWindow.xaml.cs:409 | a lighter pixel never has a smaller scaled share |
| Converter.MapPixelMonotone | AsciiConverter/MainWindow.xaml.cs:407-411 | a lighter pixel never maps to a darker character |
| Converter.Hex2 | AsciiConverter/MainWindow.xaml.cs:442 | a component is written as two digits |
| Converter.HexColor | AsciiConverter/MainWindow.xaml.cs:442 | the colour string is '#' and six uppercase hex digits |
| Converter.DigitValue | AsciiConverter/MainWindow.xaml.cs:442 | a hex digit's value is below 16 |
| Converter.DigitValueOf | AsciiConverter/MainWindow.xaml.cs:442 | every digit written reads back as its value |
| Converter.ParseHex2Digits | AsciiConverter/MainWindow.xaml.cs:442 | two digits read back as 16 times the first plus the second |
| Converter.ParseHex2Of | AsciiConverter/MainWindow.xaml.cs:442 | each two-digit component reads back as the byte written |
| Converter.ParseHexColorOf | AsciiConverter/MainWindow.xaml.cs:442 | the custom colour string reads back as the colour picked |
| Converter.DefaultColorIsWhite | AsciiConverter/MainWindow.xaml.cs:39 | the default colour "#FFFFFF" is the format of white |
| Converter.NormalizeFps | AsciiConverter/MainWindow.xaml.cs:223 | the fps written is positive, and a positive capture fps is kept |
| Converter.RowChars | AsciiConverter/MainWindow.xaml.cs:244-248 | a row is drawn as one character per pixel |
| Converter.Rows | AsciiConverter/MainWindow.xaml.cs:243-250 | a frame is drawn as one line per pixel row |
| Converter.BuildFrameBlock | AsciiConverter/MainWindow.xaml.cs:242-251 | the StringBuilder loop yields the frame's drawn rows, each closed by a line break, then the marker on a line of its own |
| Converter.RowsAvoidMarker | AsciiConverter/MainWindow.xaml.cs:242-251 | with a ramp without 'F', no frame drawn contains the marker |
| Converter.Drawn | AsciiConverter/MainWindow.xaml.cs:230-252 | every frame read is drawn |
| Converter.Percent | AsciiConverter/MainWindow.xaml.cs:256 | the share of frames done is never negative |
| Converter.ProgressAt | AsciiConverter/MainWindow.xaml.cs:256 | the progress of frames done is never negative |
| Converter.PercentMonotone | AsciiConverter/MainWindow.xaml.cs:256 | more frames done never give a smaller share |
| Converter.ProgressMonotone | AsciiConverter/MainWindow.xaml.cs:256 | more frames done never show less progress |
| Converter.ConvertFrames | AsciiConverter/MainWindow.xaml.cs:227-260 | the text written is the blocks of all frames in order; the progress values set rise strictly, none without a frame count, and are exactly the distinct progress values of the frames |
| Converter.UnpackForRender | AsciiConverter/MainWindow.xaml.cs:347-362 | the export unpacks a file exactly when its header parses |
| Converter.RenderedFramesClean | AsciiConverter/MainWindow.xaml.cs:358-361 | every frame the export renders is non-empty and free of the marker |
| Converter.UnpackOf | AsciiConverter/MainWindow.xaml.cs:347-362 | unpacking reads the header fields, the audio only for a positive length, and splits the rest of the file |
| Converter.UnpackPacked | AsciiConverter/MainWindow.xaml.cs:347-362 | unpacking a packed file gives back its fps, colour, audio and the split of its text |
| Converter.UnpackPackedText | AsciiConverter/MainWindow.xaml.cs:307-327 | the colour name written by PackToSingleFile is the one the export reads back |
| Converter.UnpackPackedFrames | AsciiConverter/MainWindow.xaml.cs:347-362 | a file packed from marker-free frames unpacks to exactly their row texts, frames without rows dropped |
| Converter.ConvertThenExport | AsciiConverter/MainWindow.xaml.cs:227-362 | with any named ramp but the optimized one, the frames drawn, written and packed come back to the export as their row texts, in order |
| LegacyConverter.MapPixelToCharIndex | MainWindow.xaml.cs:321-327 | the index lies in 0..9; black maps to '@' and white to ' ' |
| LegacyConverter.LegacyRowsAvoidMarker | MainWindow.xaml.cs:22 | the legacy ramp has no 'F', so no legacy frame contains the marker |
| LegacyConverter.LegacyProgressAt | MainWindow.xaml.cs:175-176 | with a known frame count the legacy progress is the current converter's |
| LegacyConverter.LegacyConvertFrames | MainWindow.xaml.cs:148-178 | the text written is the blocks of all frames in order, and one progress value is set after every frame |
| LegacyConverter.LegacyProgressRises | MainWindow.xaml.cs:175-177 | with a known frame count the legacy progress values never fall |
| LegacyConverter.LegacyUnpackForRender | MainWindow.xaml.cs:270-286 | the legacy export unpacks a file exactly when it has the 12 header bytes |
| LegacyConverter.LegacyRenderedFramesClean | MainWindow.xaml.cs:282-286 | every frame the legacy export renders is non-empty and free of the marker |
| LegacyConverter.LegacyUnpackPacked | MainWindow.xaml.cs:270-286 | unpacking a legacy file gives back its fps, audio and the split of its text |
| LegacyConverter.LegacyConvertThenExport | MainWindow.xaml.cs:148-286 | the frames drawn, written and packed by the legacy converter come back to its export as their row texts, in order |
| BitCrusher.CrushFrameEffect | BitCrusher.cs:53-74 | on an update frame each channel inside the buffer becomes its quantised value and is remembered; otherwise it becomes the remembered value; nothing else changes |
| BitCrusher.CrushFrame | BitCrusher.cs:53-74 | the inner loop over one frame's channels, stopping at the buffer end; it keeps the buffer's and the held values' lengths, and BitCrusher.CrushFrameEffect states its effect |
| BitCrusher.Crush | BitCrusher.cs:48-78 | the outer loop over the frames from position i: each frame updated or held by the counter, then the counter incremented; it keeps both lengths, and BitCrusher.CrushCounts and BitCrusher.CrushBounds state the rest |
| BitCrusher.CrushCounts | BitCrusher.cs:48-78 | the frame counter rises by one per frame, a partial last frame included |
| BitCrusher.CrushBounds | BitCrusher.cs:48-78 | nothing before the offset is touched, nor anything past the channels of the last frame begun |
| BitCrusher.FactorOneQuantizesAll | BitCrusher.cs:48-78 | with factor 1 every sample read is replaced by its quantised value |
| BitCrusher.Filled | BitCrusher.cs:42 | the source's samples land at the offset and nothing else in the buffer changes |
| BitCrusher.BitCrusher.constructor | BitCrusher.cs:16-26 | a new provider has the source's channels, bit depth 8, factor 5, silence remembered and no frame counted |
| BitCrusher.BitCrusher.SetBitDepth | BitCrusher.cs:30-34 | the bit depth is the one asked for, clamped to 1..32 |
| BitCrusher.BitCrusher.SetDownSampleFactor | BitCrusher.cs:36-39 | the factor is the one asked for, at least 1 |
| BitCrusher.BitCrusher.ProcessFrame | BitCrusher.cs:53-74 | one frame of the loop crushes or holds each channel up to the end of the buffer |
| BitCrusher.BitCrusher.FillFromSource | BitCrusher.cs:42 | the source's read puts its samples into the buffer at the offset |
| BitCrusher.BitCrusher.Read | BitCrusher.cs:41-81 | Read returns the count the source read, and the buffer, memory and frame counter are those of crushing every frame of the samples read |

## Left out

- Floating point: the fps is carried as 8 opaque bytes. The players take
  its value through a `binary64` function parameter. Times and shares
  are exact reals, so double rounding, NaN and infinities are not
  modelled.
- Player.SeekLandsOnFrame: it holds because times are exact reals.
  `TimeSpan.FromSeconds` truncates a time to whole 100-nanosecond ticks,
  so in the source 1/30 s becomes 333333 ticks and a tick right after a
  drop on frame 1 at 30 fps targets frame 0. Neither this truncation nor
  double rounding is modelled.
- BitCrusher.BitCrusher.Read: the quantisation
  `Math.Round(x * 2^bits) / 2^bits` in float is the parameter
  `quantize`. The source's `Read` on `ISampleProvider` is the parameter
  `source`, whose samples must fit the buffer at the offset.
- BitCrusher.BitCrusher.constructor: it requires a positive channel
  count. With zero channels the source's loop would never advance.
- BitCrusher.BitCrusher.Read: the 32-bit wrap-around of the frame
  counter is not modelled.
- Long-to-int casts (the frame length in `ReadFrame`, the frame count
  from the capture) are not modelled. Offsets are unbounded.
- LegacyConverter.LegacyProgressAt: the cast of positive infinity when
  the frame count is zero is left to the runtime. It is taken as the
  parameter `infinityCast`.
- Video capture (OpenCV): the grey frames are given as input, already
  resized. Frames after an empty frame (the `frame.Empty()` break) are
  not modelled.
- FFmpeg audio extraction, the WAV writer, temporary files, file
  deletion, the JSON project file and the MP4 rendering (AsciiRenderer)
  are not part of this model. The renderer's parsing of the colour name
  is not part of it either.
- Player.PlayerWindow.LoadProject: the colour brush chosen from the
  colour name is not modelled.
- Player.PlayerWindow.ReadFrame: a read failure caught by the catch is
  not modelled. The bytes are always available.
- Player.PlayerWindow.DragCompleted: it requires a loaded project. A
  drop before any file has loaded throws a NullReferenceException on the
  project (line 309), after dragging has been cleared.
- Player.PlayerWindow.DragCompleted: it requires a non-zero fps. With
  fps 0 the division gives an infinity (or NaN for frame 0), and
  `TimeSpan.FromSeconds` throws on it, so the handler throws after
  clearing dragging. The application has no handler for it.
- LegacyPlayer.PlayerWindow.DragCompleted: it requires loaded frames
  and fps. With no file loaded the handler throws on the project
  (line 167). After a file of 8 to 11 bytes the fps is set but the frames
  are not, so it throws on the frames (line 184) after the seek has run.
  Both throws are not modelled, and neither is the fps-0 throw described
  for the streaming player.
- LegacyPlayer.PlayerWindow.DragCompleted: it additionally requires a
  non-negative slider, because the legacy slider's minimum is 0.
- LegacyPlayer.PlayerWindow.LoadSingleFile: the file-extension check
  and the exception message box of the legacy `LoadProject` are not
  modelled. A short file is modelled by its effects up to the throw.
- Player.PlayerWindow.LoadProject and Player.PlayerWindow.IndexAndPlay:
  `StartSyncPlayback` is `async void`, so the source runs the first pass
  of the play loop (showing the target frame and moving the slider)
  before the load returns. The model ends the load at the start of
  playback and leaves that pass to the caller's first `Tick`. The
  "Indexing Frames..." display stated on return is seen in the source
  only while paused.
- LegacyPlayer.PlayerWindow.LoadSingleFile: likewise, the first pass of
  the legacy play loop (frame 0 shown trimmed, or the stop branch for a
  file without frames), run before the load returns, is the caller's
  first `Tick`.
- Window loading, volume, window title, button captions, drag-and-drop
  and window closing are UI. The `await Task.Delay` pacing of the play
  loop is one `Tick` per call, and concurrency between the UI thread
  and the loop is not modelled.
- Converter.RampFor: a custom style is taken as Unicode scalar values.
  The source splits it into UTF-16 code units, so a character outside
  the Basic Multilingual Plane becomes two ramp entries (two surrogates)
  there, and one here.
- UTF-8 decoding: each ill-formed byte becomes one U+FFFD, whereas .NET
  replaces maximal subparts. A byte-order mark is not modelled. The
  round trips only decode well-formed text.
- Container.ReadBytes: a short audio read at the end of the file
  returns fewer bytes, as the source does. No error is raised.

## Findings

| source | as written | input that shows it | evidently intended | confidence | as-written member | corrected member |
|---|---|---|---|---|---|---|
| AsciiConverter/MainWindow.xaml.cs:115-120 | the "OutputVideo" default is applied before invalid characters are removed, so a name made only of invalid characters becomes the empty name and the project is saved as ".asciiv" | project name "?" | the default also applies when nothing is left after sanitising | not executed | ProjectName.QuestionMarkBecomesEmpty | ProjectName.SanitizeNameFixedClean |
