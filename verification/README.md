# bytepress packing core in Dafny

bytepress packs a .NET executable. It compresses the file with GZIP, QuickLZ
and LZMA and keeps the shortest output. It splices that codec's integer marker
into a C# loader template and fills the template's empty assembly attributes
from the input's version information. It then compiles the loader with the
payload attached as a resource. At run time the loader calls
`bytepress.lib.Main.Decompress` with the marker, and that call selects the
matching decompressor.

This project models that decision and byte-layout logic with immutable
datatypes and pure functions:

- `Bytes`: bytes, the little-endian Int64 that `BinaryWriter`/`BinaryReader` use, and a `MemoryStream` (buffer plus position, overwriting writes).
- `Text`: `String.Replace` (ordinal, every non-overlapping occurrence, scanning from the left) on `seq<char>`.
- `LzmaFrame`: the LZMA container shared by `LZMAez` (packer) and `Helper` (runtime): 5 property bytes, Int64 original size, Int64 body size (back-patched), body.
- `Codecs`: the three codec classes, their markers, and the compressor/decompressor functions (`CodecSuite`).
- `Selection`: the trial loop of `PickCompressor` as a fold, and the `*type*` splice.
- `Cloner`: `AssemblyCloner`'s getters and its icon fold.
- `Presser`: `LoadCompressors`, `CopyAssembly`, the output path and `Process`, with file operations recorded as an effect log.
- `Loader`: `Main.Decompress` dispatch and the cross-file lemmas tying the packer's marker and payload to the runtime.

The GZIP and QuickLZ compressors and decompressors, the LZMA encoder and
decoder, the C# compiler, `FileVersionInfo`, `IconExtractor` and the fresh
Guid are parameters. `CodecSuite.Sound` states the round-trip law those
codecs are assumed to obey. Lemmas that need the law take it as a
precondition.

## Model

| member | source | states |
|---|---|---|
| `Bytes.Int64RoundTrip` | bytepress/Compresison/LZMA/Helper.cs:115-117 | `ReadInt64` applied to the 8 bytes `Write(long)` emits returns the value written, for every Int64 |
| `Bytes.Int64BytesRoundTrip` | bytepress/Compresison/LZMA/Helper.cs:76-78 | writing back the value `ReadInt64` returns reproduces the 8 bytes read |
| `Text.ReplaceAllIsSplitJoin` | bytepress/Engine/Presser.cs:148 | `Replace` cuts the text at every occurrence it finds: joining the pieces with the pattern gives the input, and joining them with the replacement gives the result, so nothing else changes |
| `Text.ReplaceWithSelf` | bytepress/Engine/Presser.cs:168 | replacing a pattern with itself leaves the text unchanged |
| `Text.ReplaceAbsent` | bytepress/Engine/Presser.cs:85 | a text without the pattern comes back unchanged |
| `Text.ReplaceAllFirstOccurrence` | bytepress/Engine/Presser.cs:85 | the text before the first occurrence is kept, and that occurrence becomes the replacement |
| `Text.LongerReplacementGrows` | bytepress/Engine/Presser.cs:85 | a replacement longer than its pattern never shortens the text, and it lengthens the text exactly when the pattern occurs in it |
| `Text.NoOccurrenceLeft` | bytepress/Engine/Presser.cs:146-160 | when the replacement is non-empty and shares no character with the pattern, no occurrence of the pattern remains |
| `LzmaFrame.SettingsAgree` | bytepress.lib/LZMA/Helper.cs:14-52 | the runtime's settings table equals the packer's: 2 MiB dictionary, pb 2, lc 3, lp 0, algorithm 2, 32 fast bytes, "bt4", no end marker |
| `LzmaFrame.WriteWithPlaceholder` | bytepress/Compresison/LZMA/Helper.cs:72-86 | before the patch the stream holds the property bytes, the input length (the input starts at position 0), a zero Int64 and the body. The placeholder sits at offset 13 and the body starts at offset 21 |
| `LzmaFrame.BackPatch` | bytepress/Compresison/LZMA/Helper.cs:88-97 | the patch writes the number of bytes from the body start to the end position into the 8 placeholder bytes, and leaves the length and every other byte unchanged |
| `LzmaFrame.Compress` | bytepress/Compresison/LZMA/Helper.cs:67-101 | the frame is the property bytes, then Int64 `data.Length`, then Int64 body length, then the body; its length is 21 plus the body length |
| `LzmaFrame.BackPatchOnlyTouchesSizeField` | bytepress.lib/LZMA/Helper.cs:70-86 | compared with the stream before the patch, only bytes 13..20 differ. They change from a zero Int64 to the body length |
| `LzmaFrame.ReadHeader` | bytepress/Compresison/LZMA/Helper.cs:105-117 | the "too short" error occurs exactly when fewer than 5 bytes are present. An end-of-stream error occurs exactly for 5..20 bytes. A parsed header and rest re-serialise to the input |
| `LzmaFrame.HeaderRoundTrip` | bytepress/Compresison/LZMA/Helper.cs:108-117 | parsing a written header (with Int64 sizes) returns that header and the following bytes unchanged |
| `LzmaFrame.Decompress` | bytepress.lib/LZMA/Helper.cs:91-109 | input shorter than 5 bytes fails with "Input stream is too short.". With 5 bytes or more, the decoder's rejection of the 5 property bytes is the error exactly when it happens, since `SetDecoderProperties` runs before the sizes are read. With accepted properties and 5..20 bytes, the size reads hit the end of the stream. Success needs accepted properties and the full 21-byte header |
| `LzmaFrame.ReadHeaderOfCompress` | bytepress.lib/LZMA/Helper.cs:96-105 | reading a frame the packer wrote yields the encoder's property bytes, the input length, the body length and the body |
| `LzmaFrame.FrameRoundTrip` | bytepress/Compresison/LZMA/Helper.cs:103-121 | for an encoder/decoder pair that obeys the LZMA round-trip law, `Decompress(Compress(data)) == data` |
| `Codecs.MarkerLiteralDenotesMarker` | bytepress/Engine/Presser.cs:146-160 | the spliced text "0", "1" or "2" is a decimal literal denoting the codec's marker, and distinct codecs have distinct markers |
| `Codecs.LzmaCompressorRoundTrip` | bytepress/Compresison/LZMA/Helper.cs:67-121 | for an encoder/decoder pair that obeys the LZMA round-trip law, what the `LZMAez` compressor produces is read back by `Decompress` to the input |
| `Selection.RunTrials` | bytepress/Engine/Presser.cs:129-133 | one trial per registered compressor, in order, each its `Compress` on the full input |
| `Selection.FirstShortestUnique` | bytepress/Engine/Presser.cs:136 | at most one trial is strictly shorter than all earlier trials and no longer than all later ones |
| `Selection.PickCompressorChoosesFirstShortest` | bytepress/Engine/Presser.cs:125-142 | the chosen output is no longer than any trial, every earlier trial is strictly longer (a tie keeps the earlier one), and the payload is exactly that trial's output. Nothing is chosen iff no output is shorter than `long.MaxValue`, for instance when the list is empty |
| `Selection.FirstShortestIsChosen` | bytepress/Engine/Presser.cs:136-141 | conversely, the first-shortest trial is the one chosen |
| `Selection.ApplyMarkerSplicesMarker` | bytepress/Engine/Presser.cs:146-160 | only the winner's marker is spliced: the template's pieces between `*type*` are kept and joined with that marker, and no `*type*` remains |
| `Cloner.FieldDefaultsToEmpty` | bytepress/Engine/AssemblyCloner.cs:19-92 | each string getter returns the field when it is set and non-empty, and returns "" exactly when the field is null or empty |
| `Cloner.FieldsIndependent` | bytepress/Engine/AssemblyCloner.cs:19-70 | changing one version field, even to null, changes no other getter's result |
| `Cloner.BeforeFirstDot` | bytepress/Engine/AssemblyCloner.cs:76 | the title segment contains no '.'. It is a prefix of the name and is followed by '.' or by the end of the name |
| `Cloner.Title` | bytepress/Engine/AssemblyCloner.cs:72-81 | the title fails only for a null `InternalName`. Otherwise it is the segment of the name before its first '.': dot-free, a prefix, followed by '.' or the end of the name, and the whole name when the name has no '.' |
| `Cloner.Clone` | bytepress/Engine/Presser.cs:168-175 | cloning the metadata fails exactly when `InternalName` is null. Otherwise the title is `Title`, and description, company, product, copyright, version and trademark are the FileDescription, CompanyName, ProductName, LegalCopyright, FileVersion and LegalTrademarks getters |
| `Cloner.Picks` | bytepress/Engine/AssemblyCloner.cs:103-109 | every pick comes from the list and exceeds the starting bounds, and each pick is strictly taller and strictly wider than the one before |
| `Cloner.IconFromIsLastPick` | bytepress/Engine/AssemblyCloner.cs:100-110 | the icon loop returns the last pick, or the initial value when nothing is picked |
| `Cloner.SelectIconIsLastPick` | bytepress/Engine/AssemblyCloner.cs:93-117 | an extraction failure or an empty list gives null. A list whose first icon exceeds `int.MinValue` in both dimensions gives an icon. The result is from the list and strictly exceeds every earlier pick in both dimensions |
| `Cloner.IconFromMaximal` | bytepress/Engine/AssemblyCloner.cs:100-110 | when every icon before the loop position fails the test against the current bounds, no icon of the list is both strictly taller and strictly wider than the icon returned, and nothing is returned only when no icon exceeds the starting bounds in both dimensions |
| `Cloner.SelectIconIsMaximal` | bytepress/Engine/AssemblyCloner.cs:93-117 | no icon of the list is both strictly taller and strictly wider than the one returned, and a readable list gives null only when no icon exceeds `int.MinValue` in both dimensions |
| `Presser.LoadCompressors` | bytepress/Engine/Presser.cs:55-60 | the compressors are GZIP, QuickLZ, LZMA in that order, and the LZMA one is the framed encoder |
| `Presser.MarkerIsRegistrationIndex` | bytepress/Engine/Presser.cs:57-59 | each codec's marker equals its position in the registration order |
| `Presser.AssemblySlotValues` | bytepress/Engine/Presser.cs:168-175 | for cloned metadata, AssemblyTitle takes `Title`, and AssemblyDescription, AssemblyCompany, AssemblyProduct and AssemblyCopyright take the FileDescription, CompanyName, ProductName and LegalCopyright getters. Both AssemblyVersion and AssemblyFileVersion take the FileVersion getter. Guid takes the fresh identifier. No Trademark attribute is written |
| `Presser.FillSlotsWithoutPlaceholders` | bytepress/Engine/Presser.cs:168-175 | a template containing none of the empty attribute forms is returned unchanged |
| `Presser.EmptyValuesKeepPlaceholders` | bytepress/Engine/Presser.cs:168-175 | any one slot whose value is "" leaves its empty placeholder in place: filling with all slots gives what filling without that slot gives |
| `Presser.FillStepIsSplitJoin` | bytepress/Engine/Presser.cs:168 | each fill step replaces every empty form of the attribute with the filled form and keeps the rest of the text |
| `Presser.UpperCaseExtensionOverwritesInput` | bytepress/Engine/Presser.cs:85 | "APP.EXE" passes the command line's extension test, yet the source's rule gives it the output name "APP.EXE" and the output path of the input itself |
| `Presser.OutputFileName` | bytepress/Engine/Presser.cs:85 | the corrected output name always differs from the input name. For a name ending in ".exe" in any case it is the stem, then "_bytepressed", then the extension as written; any other name gets "_bytepressed.exe" appended |
| `Presser.OutputFileNameAgreesOnPlainNames` | bytepress/Engine/Presser.cs:85 | when the only ".exe" in a name is its lower-case extension, the corrected rule gives what the source gives |
| `Presser.OutputPath` | bytepress/Engine/Presser.cs:70-85 | the output path (directory, "\\", the name with every ".exe" replaced case-sensitively) equals the input path exactly when the name holds no lower-case ".exe" |
| `Presser.Process` | bytepress/Engine/Presser.cs:65-120 | on success the output path is the input path exactly when the file name holds no lower-case ".exe", and the "larger than original" warning is raised iff the compiled size exceeds the input size. Success and compile failure both end by cleaning the workspace |
| `Presser.ProcessOutcome` | bytepress/Engine/Presser.cs:65-179 | a run fails for lack of a choice iff every output is at least `long.MaxValue` long. It fails on a null `InternalName` iff a codec was chosen and the name is null, after only the payload has been written. The compiler is handed the output path, the template with the chosen marker spliced and the cloned metadata filled, the chosen payload and the selected icon; a compile failure carries its text. On success the payload is the first-shortest trial and the codec is at its marker's position |
| `Loader.Decompress` | bytepress.lib/Main.cs:7-19 | marker 0 gives the GZIP decompressor's result and 1 gives QuickLZ's. With marker 2, input shorter than 5 bytes throws "too short". Null is returned exactly for any other integer, negatives included |
| `Loader.MarkerSelectsSameCodec` | bytepress.lib/Main.cs:9-18 | the marker literal the packer writes for a codec makes the runtime call that same codec's decompressor |
| `Loader.ChosenPayloadLoads` | bytepress.lib/Main.cs:11-16 | for sound codecs, the chosen payload dispatched on the chosen marker decompresses to the original input |
| `Loader.ProcessedPayloadLoads` | bytepress/Engine/Presser.cs:73-76 | for sound codecs, the payload and codec of a successful run load back to the input file's bytes |

## Left out

- File and temp-directory I/O (`ReadAllBytes`, `WriteAllBytes`, `GetTempPath`, deleting the temp files, saving the icon): the input bytes are a parameter. Writing the payload, saving the icon, running the compiler and cleaning up appear only as `Presser.Effect` entries.
- Compression-ratio arithmetic and every status message: they are floating-point display only and decide nothing.
- Codec internals: the GZIP and QuickLZ classes and the LZMA encoder, decoder, `WriteCoderProperties` and `SetDecoderProperties` are not part of this model. They are function parameters (the property check is an opaque predicate on the 5 bytes), and the 5 property bytes are an opaque value. The GZIP and QuickLZ `Name` strings are parameters because their classes are not part of this model.
- The loader template resource is not part of this model. The cross-file lemmas assume that `*type*` sits where the template passes the `compressionType` argument to `Main.Decompress`.
- `bytepress/Compresison/ICompressor.cs` has no behaviour; it is the `Codecs.Compressor` record.
- `bytepress/Engine/Compiler.cs` is the `Presser.Compile` function parameter: only its pass/fail result and its error text matter.
- `bytepress/Engine/Merger.cs`, forced codec choice, library merging and WPF hosting: the `Presser` modelled here has none of them. `bytepress/Program.cs` contributes only its case-insensitive ".exe" test, which the finding below uses.
- Executable-header classification: no code for it is part of this model.
- The `Icon` getter runs twice in `CopyAssembly`. The model evaluates it once, because extraction is a deterministic function of the file.
- `Cloner.SelectIconIsLastPick`: an exception part-way through the icon enumeration is modelled as a single `ExtractionFailed` source. Any such exception gives null either way.
- `Bytes.Int64LE`: a value is written modulo 2^64, as an unchecked cast to `long` would reduce it. The round trips are stated only for lengths up to `long.MaxValue`, which covers every .NET array.

A null `InternalName` makes `Title` throw inside `CopyAssembly` (bytepress/Engine/Presser.cs:79 and 166-168). This aborts `Process` after the payload is written and before any cleanup, so cleanup does not run on that path.

## Findings

| source | as written | input that shows it | evidently intended | confidence | as-written member | corrected member |
|---|---|---|---|---|---|---|
| bytepress/Engine/Presser.cs:85 | the output name replaces ".exe" case-sensitively, while bytepress/Program.cs:69 accepts the extension in any case | a file named `APP.EXE` is compiled to its own path, overwriting the input | an output name with "_bytepressed" before the extension, never the input's own name | medium, not executed | `Presser.UpperCaseExtensionOverwritesInput` | `Presser.OutputFileName` |

`Presser.Process` and `Presser.OutputPath` follow the code as written, so a successful run on `APP.EXE` reports the input's own path. `Presser.OutputFileName` is the corrected rule on its own; `Presser.OutputFileNameAgreesOnPlainNames` shows it gives what the code gives whenever the only ".exe" in the name is its lower-case extension.
