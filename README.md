# MultipleMaids save converter, modelled in Dafny

The MultipleMaids converter moves saved scenes between two forms.

- **The registry.** One INI file holds a `scene` section. Its key `s<n>` holds slot `n`'s scene text. Its key `ss<n>` holds that slot's screenshot in base 64.
- **Save containers.** Each slot is one file `s<n>_<yyyyMMddHHmm>.png`. The file is a PNG screenshot followed by an LZMA frame of the scene text. The frame is 5 property bytes, the uncompressed length as 8 bytes least significant first, then the compressed body.

Given an `.ini` file, the converter writes one container per slot. Given `.png` files, it rebuilds a registry file from them.

The model covers:

- how the run's mode is chosen;
- both conversion directions, with their loops, skips and failure paths;
- the container split: the PNG signature check, the scan for the first `IEND` chunk type, and copying the CRC;
- the LZMA framing.

The LZMA coder, base 64, text encodings and date parsing are library code. The model sees them only as functions of their inputs: the `Coder` and `Env` datatypes. An exception that nothing catches ends the run. It is modelled as an outcome (`Threw`, `SlotThrew`, `Aborted`) carrying the `Failure` kind.

Modules, one file each:

| file | module | contents |
|---|---|---|
| `common.dfy` | `Common` | bytes, `Option`, `Result`, failure kinds, the 32-bit `int` range |
| `streams.dfy` | `Streams` | the file stream and memory streams, as classes with a position and contents |
| `arith.dfy` | `Arith` | division facts used by the byte-order proofs |
| `lzma.dfy` | `Lzma` | the parameter table, `Compress`, `Decompress`, and the frame as a function with its inverse |
| `container.dfy` | `Container` | `BytesEqual`, the signature check, the `IEND` scan, `ConvertPngToScene` |
| `text.dfy` | `Text` | `int.ToString`, `Int32.Parse`, `Path.GetExtension`, lower-casing, `Split(',')[0]` |
| `library.dfy` | `Library` | the library environment, `Mode`, and how a run ends |
| `slots.dfy` | `Slots` | `ConvertSceneToPng` and `ConvertIni` |
| `batch.dfy` | `Batch` | `GetConversionMode` and `ConvertPng` |

## Behaviour of the code that the model follows

Each loop is a method. It is proved equal to a specification function: `ScanScreenshot` to `Scan`, `ConvertIni` to `IniRun`, `ConvertPng` to `PngRun`. The lemmas then state what those functions guarantee.

The model follows the code in these points:

- **Container end.** The end of the screenshot is the first `IEND` in the file, found by a byte-by-byte scan. There is no marker in front of the frame, and nothing checks the chunk length or the CRC. The 4 bytes after `IEND` are copied as the CRC. If fewer than 4 remain, the copy is completed with the `IEND` bytes that are still in the read buffer (`Container.Scan`).
- **Signature check.** The signature is read into a zero-filled 8-byte buffer. A file shorter than 8 bytes never matches, because the signature contains no zero byte (`Container.HeaderCheckExact`).
- **Decoding failures.** A PNG that has its `IEND` but no valid frame after it makes `LZMA.Decompress` throw. An ordinary screenshot is such a file. Nothing catches the exception, so it ends the whole `ConvertPng` run before the registry file is saved (`Container.ShortPayloadThrows`, `Batch.ConvertPng`). Only files without a signature or without an `IEND` are skipped as "Unable to convert".
- **Stream type.** `LZMA.Decompress` is declared for a memory stream, but it is given the open file stream. The model gives it the one readable-stream class, positioned after the CRC.
- **The decoder call.** It receives the count of bytes remaining and the declared length read as a signed 64-bit value. Checking the output length is left to the library, as in the code.
- **Registry keys.** A key is read as `s<n>` or `ss<n>`, with `n` parsed by `Int32.Parse`. Parsing accepts white space, a sign and leading zeros. The slot is then looked up under the normalised keys `s<n>` and `ss<n>`, so a key `s05` names slot 5 but finds the scene under `s5`.
- **Key failures.** An empty key, a key `s`, or a number that does not parse throws. A key not starting with `s` ends the run with Error; slots converted before it keep their files.
- **Slot classification.** Slots 10000 and above ("Kankyo") and slot 9999 (quick save) are skipped before anything else is looked at. A slot whose scene is missing or empty is skipped. A missing or empty screenshot uses the embedded default image.
- **`scene_max`.** `Math.Ceiling((double)(n) / 100) * 100` is modelled as the integer rounding `(n + 99) / 100 * 100`. The two agree for every count up to 2147483600, because an exact quotient by 100 is either an integer or at least 0.01 away from one. From 2147483601 on, the `int` product `* 100` overflows in the code; see "## Left out".
- **Saving in `ConvertPng`.** The registry file is saved, with `scene_max` = 0 and no `scene` section, even when nothing converted and the run reports Error.
- **Key lookup.** `GetKey` on the ExIni section is taken to return the first key with the given name.

## Model

| member | source | states |
|---|---|---|
| Streams.InStream.constructor | MultipleMaidsConverter/Program.cs:152 | a file opened for reading starts at position 0 over the file's bytes |
| Streams.InStream.Read | MultipleMaidsConverter/Program.cs:156 | `Read(buffer, 0, count)` copies `min(count, remaining)` bytes to the front of the buffer, advances by that many and leaves the rest of the buffer as it was |
| Streams.InStream.ReadByte | MultipleMaidsConverter/LZMA.cs:75 | returns -1 at the end without moving, otherwise the next byte, advancing by one |
| Streams.OutStream.constructor | MultipleMaidsConverter/Program.cs:164 | a new memory stream is empty |
| Streams.OutStream.Write | MultipleMaidsConverter/Program.cs:182 | appends the first `count` bytes of the buffer |
| Streams.OutStream.WriteByte | MultipleMaidsConverter/LZMA.cs:49 | appends one byte |
| Streams.OutStream.WriteBytes | MultipleMaidsConverter/LZMA.cs:43 | appends what a library coder writes |
| Lzma.LeBytes | MultipleMaidsConverter/LZMA.cs:47-50 | the low `k` bytes of a length, least significant first, exactly `k` of them |
| Lzma.LeValue | MultipleMaidsConverter/LZMA.cs:71-82 | the value of bytes read least significant first is below 256 to the number of bytes |
| Lzma.AsInt64 | MultipleMaidsConverter/LZMA.cs:81 | the 64 bits gathered into a `long` are the two's-complement value congruent to them modulo 2^64 |
| Lzma.LeBytesAt | MultipleMaidsConverter/LZMA.cs:49 | byte `i` of the written length is `(len >> 8i) & 0xFF` |
| Lzma.LeValueOfLeBytes | MultipleMaidsConverter/LZMA.cs:47-50 | reading the 8 written length bytes back gives the length modulo 2^64 |
| Lzma.LeBytesOfLeValue | MultipleMaidsConverter/LZMA.cs:73-82 | writing read bytes back gives the same bytes |
| Lzma.LeValueSnoc | MultipleMaidsConverter/LZMA.cs:81 | each byte read is added shifted past the bytes before it |
| Lzma.Inverts | MultipleMaidsConverter/LZMA.cs:52-86 | defines the one assumption made of the SevenZip library: it accepts the properties it wrote for the fixed table, and decoding the body it encoded, given the body's length and the input length, returns the input |
| Lzma.Frame | MultipleMaidsConverter/LZMA.cs:10-54 | defines the bytes `Compress` produces: the properties of the fixed table (dictionary `1 << 23`, position-state bits 2, literal-context bits 3, literal-position bits 0, algorithm 2, 128 fast bytes, match finder `bt4`, no end marker), the input length as 8 bytes least significant first, then the encoded body |
| Lzma.Unframe | MultipleMaidsConverter/LZMA.cs:56-89 | fewer than 13 bytes never decode; a success is what the decoder gives for the 5 property bytes, the body after byte 13, its count and the declared length |
| Lzma.UnframeFrame | MultipleMaidsConverter/LZMA.cs:37-89 | decompressing a compressed frame gives the input back when the library inverts its encoding and the length fits in a `long` |
| Lzma.LengthBytesRoundTrip | MultipleMaidsConverter/LZMA.cs:73-82 | the 8 length bytes determine the declared `long` and are recovered from it |
| Lzma.Compress | MultipleMaidsConverter/LZMA.cs:10-54 | the output is the properties of the fixed parameter table, then byte `i` of the length for `i` in 0..7, then the encoded body: the frame |
| Lzma.Decompress | MultipleMaidsConverter/LZMA.cs:56-89 | the result is the unframing of the stream's remaining bytes: too short for the properties, properties refused, length bytes missing, decoder failure, or the decoded bytes |
| Container.BytesEqual | MultipleMaidsConverter/Program.cs:129-145 | true exactly when both arrays have the same length and the same byte at every index |
| Container.HasPngHeader | MultipleMaidsConverter/Program.cs:154-162 | defines a signed file: at least 8 bytes, beginning with the PNG signature 137 80 78 71 13 10 26 10 |
| Container.HeaderRead | MultipleMaidsConverter/Program.cs:154-156 | the header buffer always holds 8 bytes |
| Container.HeaderCheckExact | MultipleMaidsConverter/Program.cs:154-162 | the zero-padded header read equals the signature exactly when the file starts with the signature |
| Container.MatchShift | MultipleMaidsConverter/Program.cs:170-193 | moving the scan one byte on is the same scan over the file without its first byte |
| Container.FirstIend | MultipleMaidsConverter/Program.cs:170-193 | the scan finds an `IEND` with none before it, or reports that there is none anywhere |
| Container.FirstIendIs | MultipleMaidsConverter/Program.cs:170-193 | an `IEND` with none before it is the one the scan finds |
| Container.Scan | MultipleMaidsConverter/Program.cs:164-195 | defines the scan's result: nothing without an `IEND`; with the first `IEND` at `p` and a complete CRC, the first `p + 8` bytes with the stream left at `p + 8`; with a short CRC, the whole file plus the `IEND` bytes still in the buffer, with the stream at the end |
| Container.PngToScene | MultipleMaidsConverter/Program.cs:147-203 | defines `ConvertPngToScene` on file contents: no result without the signature or without an `IEND`, an exception when the bytes after the scan do not unframe, otherwise the unframed scene with the scanned screenshot |
| Container.CopiedBytes | MultipleMaidsConverter/Program.cs:179-191 | the bytes before `IEND`, `IEND`, the CRC read and the stale buffer tail are the file up to the CRC or the file plus the stale tail |
| Container.ScanFound | MultipleMaidsConverter/Program.cs:164-195 | with the first `IEND` at `p` and a CRC read of `k` bytes, the screenshot copied is everything before `IEND`, `IEND`, the `k` bytes and the stale tail |
| Container.FindEnd | MultipleMaidsConverter/Program.cs:166-193 | the search stops at the first `IEND`, with the bytes before it copied and the stream just past it, or finds none anywhere in the file |
| Container.ScanScreenshot | MultipleMaidsConverter/Program.cs:164-195 | the scan finds an end exactly when the file contains `IEND`, and then leaves the copied screenshot and stream position that `Scan` gives |
| Container.NoIendNoScan | MultipleMaidsConverter/Program.cs:172-177 | a file without `IEND` has no screenshot end |
| Container.CopyEndChunk | MultipleMaidsConverter/Program.cs:179-186 | copies `IEND`, reads up to 4 CRC bytes into the same buffer and copies all 4 buffer bytes |
| Container.ConvertPngToScene | MultipleMaidsConverter/Program.cs:147-203 | returns nothing without the signature or without `IEND`, throws when the frame after the CRC does not decode, otherwise gives the scene and the screenshot |
| Container.MatchInPrefix | MultipleMaidsConverter/Program.cs:170-193 | a 4-byte window inside a prefix sees the same bytes whatever follows |
| Container.FirstIendExtend | MultipleMaidsConverter/Program.cs:170-193 | appending bytes after the first `IEND` does not move it |
| Container.ScanAfterPrefix | MultipleMaidsConverter/Program.cs:164-195 | after a prefix without `IEND` the scan stops at the `IEND` that follows, whatever comes after its CRC |
| Container.PngToSceneAfterPrefix | MultipleMaidsConverter/Program.cs:147-203 | such a file is decoded from the bytes after the CRC alone, with the prefix, `IEND` and CRC as the screenshot |
| Container.NoIendNotConverted | MultipleMaidsConverter/Program.cs:172-177 | a file without `IEND` gives no scene |
| Container.ScanComplete | MultipleMaidsConverter/Program.cs:179-187 | with a complete CRC the screenshot ends 8 bytes after the first `IEND` and the stream is left there |
| Container.PngToSceneOfScan | MultipleMaidsConverter/Program.cs:197-200 | a signed file is decoded from wherever the scan leaves the stream |
| Container.ConvertedHasEnd | MultipleMaidsConverter/Program.cs:154-193 | a converted file has the signature and an `IEND` |
| Container.ConvertedAt | MultipleMaidsConverter/Program.cs:164-200 | a converted file has a complete CRC and at least 13 frame bytes after its first `IEND`, and those bytes decode to the scene |
| Container.ConvertedSplitsFile | MultipleMaidsConverter/Program.cs:147-203 | a converted file is exactly its screenshot, ending 8 bytes after the first `IEND`, followed by a frame that decodes to the scene |
| Container.ShortPayloadThrows | MultipleMaidsConverter/Program.cs:197 | a PNG with fewer than 5 bytes after its first `IEND` and CRC, such as a plain screenshot, throws instead of being skipped |
| Container.ContainerRoundTrip | MultipleMaidsConverter/Program.cs:297-300 | a screenshot ending at its first `IEND` chunk, followed by a frame, reads back as that scene and that screenshot |
| Text.DigitChar | MultipleMaidsConverter/Program.cs:294 | a digit below 10 becomes a decimal digit character |
| Text.Digits | MultipleMaidsConverter/Program.cs:294 | the digits of a number are at least one decimal digit |
| Text.DecimalString | MultipleMaidsConverter/Program.cs:122 | `int.ToString()` starts with `-` exactly for negative numbers, has digits elsewhere and ends with a digit |
| Text.DigitsValueOfDigits | MultipleMaidsConverter/Program.cs:231 | reading back the digits of `n` gives `n` |
| Text.TrimStart | MultipleMaidsConverter/Program.cs:231 | drops exactly the leading white space that `Int32.Parse` allows |
| Text.TrimEnd | MultipleMaidsConverter/Program.cs:231 | drops exactly the trailing white space that `Int32.Parse` allows |
| Text.ParseInt32 | MultipleMaidsConverter/Program.cs:231 | a parsed value lies in the 32-bit range; anything else is a format error or an overflow |
| Text.ParseSigned | MultipleMaidsConverter/Program.cs:231 | after trimming, a sign and digits parse to a value in the 32-bit range; anything else is a format error or an overflow |
| Text.TrimNothing | MultipleMaidsConverter/Program.cs:231 | a string without white space at either end is not trimmed |
| Text.ParseSignedDigits | MultipleMaidsConverter/Program.cs:231 | the untrimmed decimal form of `n` parses to `n` when it fits in an `int`, otherwise overflows |
| Text.ParseDecimal | MultipleMaidsConverter/Program.cs:231 | parsing the decimal form of `n` gives `n` when it fits in an `int` and an overflow otherwise |
| Text.DigitsInjective | MultipleMaidsConverter/Program.cs:294 | different numbers have different digits |
| Text.DecimalInjective | MultipleMaidsConverter/Program.cs:294 | different numbers have different decimal forms |
| Text.FirstField | MultipleMaidsConverter/Program.cs:292 | `Split(',')[0]` is the longest prefix without a comma |
| Text.DotIndex | MultipleMaidsConverter/Program.cs:66 | the dot `GetExtension` finds has no dot or separator after it |
| Text.DotIndexIs | MultipleMaidsConverter/Program.cs:66 | a dot with neither a dot nor a separator after it is the one found |
| Text.GetExtension | MultipleMaidsConverter/Program.cs:66 | an extension is empty, or a dot and at least one character that end the path |
| Text.ExtensionIsSuffix | MultipleMaidsConverter/Program.cs:66 | a path's lower-cased extension is `.ini` or `.png` exactly when the path ends that way up to case |
| Text.LowerChar | MultipleMaidsConverter/Program.cs:66 | defines `ToLowerInvariant` on one character: `A` to `Z` become `a` to `z`, every other character is kept |
| Text.Lower | MultipleMaidsConverter/Program.cs:66 | defines `ToLowerInvariant` on a string: `LowerChar` on every character, length kept |
| Slots.SceneKey | MultipleMaidsConverter/Program.cs:252 | defines the scene key of a slot: `s` then the index in `int.ToString()` form |
| Slots.ScreenshotKey | MultipleMaidsConverter/Program.cs:253 | defines the screenshot key of a slot: `ss` then the index in `int.ToString()` form |
| Slots.SlotName | MultipleMaidsConverter/Program.cs:294 | defines the output file name: `s`, the index, `_`, the 12-digit date stamp, `.png` |
| Slots.Lookup | MultipleMaidsConverter/Program.cs:252-253 | finds nothing exactly when no key has the name, and otherwise the value of the first key that has it |
| Slots.IsNullOrEmpty | MultipleMaidsConverter/Program.cs:266 | defines `String.IsNullOrEmpty` on a looked-up value: the key is missing or its value is the empty string |
| Slots.SlotNameExtension | MultipleMaidsConverter/Program.cs:294 | every output name has the extension `.png` |
| Slots.SlotNameInjective | MultipleMaidsConverter/Program.cs:294 | two output names are equal only for the same slot and the same date |
| Slots.SlotScreenshot | MultipleMaidsConverter/Program.cs:280-288 | defines the screenshot a slot is written with: the embedded default image when the `ss<n>` key is missing or empty, otherwise its base-64 decoding, which can fail |
| Slots.SceneToPng | MultipleMaidsConverter/Program.cs:248-306 | Kankyo exactly from 10000 up, quick save exactly at 9999, no scene exactly below 9999 when the scene key is missing or empty; a written file carries the slot's index and a `.png` name |
| Slots.WrittenSlot | MultipleMaidsConverter/Program.cs:274-301 | a written file is named for the slot and the date of the scene's first field, and holds the screenshot followed by the frame of the scene's ASCII bytes |
| Slots.SceneToPngWritten | MultipleMaidsConverter/Program.cs:248-301 | a slot below 9999 with a non-empty scene, a screenshot that decodes or is absent, and a first field that parses as a date is written: named `s<n>_<stamp>.png`, holding the screenshot then the frame of the scene's ASCII bytes |
| Slots.SceneToPngThrows | MultipleMaidsConverter/Program.cs:280-292 | a slot with a scene throws the base-64 exception exactly when its screenshot does not decode, the date exception exactly when the screenshot decodes and the first field is not a date, and no other exception |
| Slots.SlotRoundTrip | MultipleMaidsConverter/Program.cs:248-306 | reading a written file back gives the scene's ASCII bytes and the slot's screenshot when that screenshot ends at its first `IEND` and the library inverts its encoding |
| Slots.ConvertSceneToPng | MultipleMaidsConverter/Program.cs:248-306 | classifies, compresses, decodes the screenshot, formats the date and writes, as `SceneToPng` says |
| Slots.KeyIndex | MultipleMaidsConverter/Program.cs:229-231 | a one-character key fails on its second character; a parsed index is in the 32-bit range |
| Slots.SceneKeyIndex | MultipleMaidsConverter/Program.cs:231 | `s<n>` names slot `n`: its second character is never `s` |
| Slots.ScreenshotKeyIndex | MultipleMaidsConverter/Program.cs:231 | `ss<n>` names slot `n` |
| Slots.KeyIndexOfSlotKeys | MultipleMaidsConverter/Program.cs:231 | `s<n>` and `ss<n>` both name slot `n` |
| Slots.KeyAction | MultipleMaidsConverter/Program.cs:229-241 | defines what one key does: an empty key throws on `key[0]`, a key not starting with `s` ends the run with Error, otherwise the index of `KeyIndex` or its exception |
| Slots.Visit | MultipleMaidsConverter/Program.cs:232-236 | defines reaching an index: a seen index changes nothing; otherwise it is added to the seen set and its slot converted, appending a written file or ending the run on an exception |
| Slots.Advance | MultipleMaidsConverter/Program.cs:225-242 | defines one pass of the key loop: nothing once the run has ended, otherwise the key's action ends the run or visits its index |
| Slots.Steps | MultipleMaidsConverter/Program.cs:223-243 | defines the key loop over keys in file order, from an empty seen set and no files |
| Slots.SceneLoop | MultipleMaidsConverter/Program.cs:221-243 | defines the key loop over the keys of the `scene` section, converting slots of that section |
| Slots.IniRun | MultipleMaidsConverter/Program.cs:205-246 | defines `ConvertIni` on a registry file: Error with no files when the file or its `scene` section is missing; otherwise the loop's files, ending as the loop ended or with Success after the last key |
| Slots.StopSticky | MultipleMaidsConverter/Program.cs:238-242 | after the run ends, later keys change nothing |
| Slots.StepsSnoc | MultipleMaidsConverter/Program.cs:225-243 | one more key is one more step of the loop |
| Slots.StepsStopAt | MultipleMaidsConverter/Program.cs:225-243 | the step that first ends the key loop decides how the whole loop ends |
| Slots.StepsThrowAt | MultipleMaidsConverter/Program.cs:231-236 | reaching an unseen index whose slot throws ends the key loop with that exception |
| Slots.VisitConsistent | MultipleMaidsConverter/Program.cs:232-236 | converting an unseen index keeps each written file its slot's own, once per slot, and remembers the index |
| Slots.StepsConsistent | MultipleMaidsConverter/Program.cs:223-243 | the loop writes each slot's own file, never two for one slot, and every seen slot that has a file has it written |
| Slots.StepsAccepted | MultipleMaidsConverter/Program.cs:225-243 | a loop still running has met only keys naming an index, and has seen each of them |
| Slots.StepsStop | MultipleMaidsConverter/Program.cs:225-245 | no key ends the loop with Success |
| Slots.KeyActionIndex | MultipleMaidsConverter/Program.cs:229-231 | a key the loop accepts starts with `s`, has a second character and parses |
| Slots.SlotOfIndexed | MultipleMaidsConverter/Program.cs:294 | each slot's file carries its own index |
| Slots.SlotFilesNamedApart | MultipleMaidsConverter/Program.cs:294-297 | the files of two different slots have different names |
| Slots.IniRunWritesEachSlotOnce | MultipleMaidsConverter/Program.cs:205-246 | a missing file or `scene` section gives Error and no files; otherwise every written file is its slot's file, with no slot and no name twice |
| Slots.IniRunSuccess | MultipleMaidsConverter/Program.cs:225-245 | a successful run met only keys `s<n>`/`ss<n>` with a valid `n` and wrote the file of every slot they name that has one |
| Slots.IniRunInvalidKey | MultipleMaidsConverter/Program.cs:238-242 | the first key not starting with `s`, after keys that threw nothing, ends the run with Error |
| Slots.IniRunAbortsOnKey | MultipleMaidsConverter/Program.cs:227-231 | a key that throws on `key[0]`, `key[1]` or `Int32.Parse`, after keys that threw nothing, ends the run with that exception |
| Slots.IniRunAbortsOnSlot | MultipleMaidsConverter/Program.cs:231-236 | a key naming an index not seen before whose slot throws (bad base-64 screenshot or bad date), after keys that threw nothing, ends the run with that exception |
| Slots.VisitSlot | MultipleMaidsConverter/Program.cs:232-236 | an unseen index is remembered and its slot converted, a seen one changes nothing, as one visit of the loop |
| Slots.ConvertKey | MultipleMaidsConverter/Program.cs:227-242 | one key: an empty or one-letter key or a bad number throws, a key not starting with `s` ends the run with Error, otherwise its slot is visited, as one step of the loop |
| Slots.ConvertIni | MultipleMaidsConverter/Program.cs:205-246 | returns how the run ends and the files written, as `IniRun` says |
| Batch.HasExtension | MultipleMaidsConverter/Program.cs:96 | defines the extension test used on arguments: the lower-cased `GetExtension` equals the given extension |
| Batch.AnyPng | MultipleMaidsConverter/Program.cs:70 | true exactly when some argument has the extension `.png` |
| Batch.GetConversionMode | MultipleMaidsConverter/Program.cs:62-77 | Ini exactly when the first argument ends in `.ini`; otherwise Png exactly when some argument ends in `.png`; never Success |
| Batch.HasExtensionBySuffix | MultipleMaidsConverter/Program.cs:66-70 | a path has the extension `.ini` or `.png` exactly when it ends that way up to case |
| Batch.ModeBySuffix | MultipleMaidsConverter/Program.cs:62-77 | the mode depends only on how the arguments end, up to case |
| Batch.SlotFileSelectsPng | MultipleMaidsConverter/Program.cs:70 | a container's file name selects the container direction |
| Batch.SceneMax | MultipleMaidsConverter/Program.cs:119-120 | `scene_max` is a multiple of 100, at least the count and less than 100 above it |
| Batch.SceneMaxLeast | MultipleMaidsConverter/Program.cs:119-120 | no smaller multiple of 100 covers the count |
| Batch.FileOutcome | MultipleMaidsConverter/Program.cs:90-104 | defines what one argument gives: a missing file or a non-`.png` extension is passed over, otherwise `ConvertPngToScene` of its contents |
| Batch.Accept | MultipleMaidsConverter/Program.cs:104-116 | defines one pass of the loop: nothing after an exception; a non-converting file changes nothing; an exception ends the run; a conversion fills the next slot with `s<n>` = UTF-8 scene text and `ss<n>` = base-64 screenshot |
| Batch.Accumulate | MultipleMaidsConverter/Program.cs:81-117 | defines the loop over the arguments in order, from slot count 0 and an empty `scene` section |
| Batch.SavedIni | MultipleMaidsConverter/Program.cs:119-124 | defines the saved registry file: `config` with `scene_max` as the decimal `SceneMax` of the count, plus the `scene` section once a slot is filled |
| Batch.PngRun | MultipleMaidsConverter/Program.cs:79-127 | defines `ConvertPng`: an exception aborts before the save; otherwise Error when no slot was filled, Success when some were, with `SavedIni` saved either way |
| Batch.SlotEntriesSnoc | MultipleMaidsConverter/Program.cs:113-115 | a converted file adds its slot's scene and screenshot entries after the others |
| Batch.AccumulateSlots | MultipleMaidsConverter/Program.cs:88-117 | without an exception one slot is filled per converting file, in order: `s<j>` holds its scene text and `ss<j>` its base-64 screenshot |
| Batch.AccumulateFailure | MultipleMaidsConverter/Program.cs:104 | the run throws exactly when some file finds its `IEND` and then fails to decode |
| Batch.AccumulateStops | MultipleMaidsConverter/Program.cs:104 | after an exception the remaining arguments are not looked at |
| Batch.PngRunResult | MultipleMaidsConverter/Program.cs:79-127 | without an exception the run is Error exactly when nothing converted; it saves `scene_max` for the count and a `scene` section with the slots exactly when there are some |
| Batch.SlotKeysReadBack | MultipleMaidsConverter/Program.cs:113-114 | the keys written are read back by the registry direction as slots 1 to n |
| Batch.AccumulateSnoc | MultipleMaidsConverter/Program.cs:88-117 | one more argument is one more step of the loop |
| Batch.ConvertFile | MultipleMaidsConverter/Program.cs:90-116 | one argument: skipped, thrown from, or filling the next slot, as one step of the loop |
| Batch.ConvertPng | MultipleMaidsConverter/Program.cs:79-127 | returns how the run ends and the registry file saved, as `PngRun` says |

## Left out

- The LZMA algorithm (the SevenZip encoder and decoder) is not part of this model. It is seen through `Coder`: the properties it writes for the fixed table, the body it encodes, whether it accepts a property block, and what it decodes. Round trips assume it decodes what it encoded (`Lzma.Inverts`).
- ExIni is not part of this model. Parsing the INI text and writing it back are left out: a registry file is a map from section names to keys in file order. Sections are unordered in the saved file.
- Console messages and `Main`'s exit codes are left out. Creating the output directory and the "press any key" prompt are also left out.
- `File.Exists` is modelled as whether an argument carries file contents. Failures of `File.OpenRead`, `File.Create` and `IniFile.Save` are not modelled.
- Overwriting an existing output file is not modelled either. Within one run, names are proved distinct.
- Output paths under `outDir` are left out: a file is its name and contents.
- `DateTime.Parse` with the `yyyyMMddHHmm` format, base 64 in both directions, the ASCII and UTF-8 encodings, and the embedded default image are parameters of `Env`. Only their failure cases are modelled, as `BadDate` and `BadBase64`.
- Slots.SceneToPng: the order of an exception from the ASCII encoding or the compressor relative to the base-64 and date failures is not modelled. These library calls are total here.
- Text.ParseInt32: culture-specific signs and trailing NUL characters accepted by `Int32.Parse` are not modelled. Only the invariant-culture form is covered: white space, an optional sign, ASCII digits.
- Text.Lower: lower-cases ASCII letters only. It is used only to compare with `.ini` and `.png`, which have no letters outside ASCII; other characters are left as they are.
- Text.GetExtension: only the characters `\`, `/` and `:` end the search for a dot, as in .NET Framework. Invalid-path-character exceptions are not modelled.
- Batch.SceneMax: computed on unbounded integers. For counts from 2147483601 to 2147483646 the code's `(int)Math.Ceiling(...) * 100` overflows `int` and wraps to a negative `scene_max`, while the model gives 2147483700; that wrap is not modelled.
- Batch.ConvertPng: the slot counter is unbounded. `index` wrapping after 2147483646 converted files is not modelled.
- Lzma.Decompress: where the SevenZip decoder leaves the stream position is not modelled. Nothing reads the stream after it.
