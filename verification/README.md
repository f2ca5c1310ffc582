# JavaCV-cli front end, modelled in Dafny

JavaCV-cli is a command-line video transcoder built on JavaCV/FFmpeg. Its
decisions that do not depend on the media are all in `Main.java`:

- which action `main` takes from the parsed command line;
- how `transcodeVideo` derives a default output path from the input path;
- how `isHwAccelerated` classifies a codec name as hardware accelerated,
  using the fixed list `HW_ACEELS`;
- what `printCodecs` lists for each of the four kinds of codec
  (software/hardware, decoders/encoders);
- what `printHwAccelerators` reports about the acceleration methods
  the decoders offer.

This project models those decisions and proves properties of them. It has
five modules:

- `Results`: the `Option` and `Result` types;
- `Text`: the `java.lang.String` operations the code relies on
  (`contains`, `lastIndexOf` of one character, `replace`), with Java's edge
  cases;
- `Paths`: `File.getName`, the derived output name, the default output
  path and its evidently intended form;
- `Codecs`: the hardware-acceleration test, the codec listings, and the
  accelerator scan, both as written and as evidently intended;
- `Dispatch`: the if/else chain of `main`.

The native codec enumeration (`av_codec_next`, `av_codec_is_encoder`,
`codec.name()`) is an input: a sequence of `Codec(name, isEncoder)` in
enumeration order. A printed listing is modelled as the sequence of its
lines. For the default output path, the code derives a new file name
(`<stem>_out<ext>`, or `<name>_out.mp4` when there is no extension) and
substitutes it for the file name everywhere it occurs in the input path,
with `String.replace`. This model does the same.

## Model

| member | source | states |
|---|---|---|
| Text.Contains | src/main/java/com/visualvertigo/Main.java:316 | `String.contains`: true exactly when the target occurs at some index of the string (so the empty target is always contained) |
| Text.Replace | src/main/java/com/visualvertigo/Main.java:85 | `String.replace`: with an empty target the result starts with the replacement; `ReplaceAtFirst` and `ReplaceAbsent` fix it for a non-empty target, and `ReplaceEmptyOfEmpty`, `ReplaceEmptyOne` and `ReplaceEmptyAppend` for the empty one |
| Text.ReplaceEmptyOne | src/main/java/com/visualvertigo/Main.java:85 | with an empty target, a one-character string gets the replacement before and after its character |
| Text.ReplaceEmptyAppend | src/main/java/com/visualvertigo/Main.java:85 | with an empty target, replacing in a concatenation is replacing in each part, the two replacements at the seam merging into one; so the replacement goes before every character and at the end |
| Text.IndexOf | src/main/java/com/visualvertigo/Main.java:85 | the left-to-right search `replace` performs: when found, the target occurs at the index and at no earlier one; not found exactly when the target is not contained |
| Text.LastIndexOf | src/main/java/com/visualvertigo/Main.java:81 | `lastIndexOf`: when found, the index holds the character and no later index does; not found (Java's -1) exactly when the character is absent |
| Text.ReplaceAtFirst | src/main/java/com/visualvertigo/Main.java:85 | `replace` with a non-empty target keeps the text before its first occurrence, puts the replacement there, and goes on replacing in the rest; with `ReplaceAbsent` this fixes the result for every non-empty target, so every occurrence is replaced |
| Text.ReplaceGrows | src/main/java/com/visualvertigo/Main.java:85 | a replacement longer than a target that occurs lengthens the string by at least the difference |
| Text.ReplaceGrowsTwice | src/main/java/com/visualvertigo/Main.java:85 | two non-overlapping occurrences of the target lengthen the string by at least twice the difference |
| Text.ReplaceAbsent | src/main/java/com/visualvertigo/Main.java:85 | `replace` with a non-empty target that does not occur returns the string unchanged |
| Text.ReplaceBySelf | src/main/java/com/visualvertigo/Main.java:85 | replacing a target by itself returns the string unchanged, for every target including the empty one |
| Text.ReplaceKeepsLength | src/main/java/com/visualvertigo/Main.java:85 | a replacement as long as the target keeps the string's length |
| Text.ReplaceFinalOnly | src/main/java/com/visualvertigo/Main.java:85 | when the target's only occurrence ends the string, `replace` swaps just that suffix for the replacement |
| Text.ReplaceInserts | src/main/java/com/visualvertigo/Main.java:85 | when the target occurs (or is empty), the replacement occurs in the result |
| Paths.StripTrailingSlashes | src/main/java/com/visualvertigo/Main.java:79-80 | the trailing `/` run is dropped before `getName` looks at the path: the result is a prefix, does not end in `/`, and only `/` was dropped |
| Paths.FileName | src/main/java/com/visualvertigo/Main.java:80 | `getName` is the slash-free last component of the normalized path; it is empty exactly when the path is all slashes |
| Paths.DirPart | src/main/java/com/visualvertigo/Main.java:79-80 | the directory part followed by the file name is the normalized path; it is empty or ends with `/` |
| Paths.DerivedName | src/main/java/com/visualvertigo/Main.java:81-83 | with an extension dot at `k` (the last dot, not at index 0) the name is stem + `_out` + extension; with none it is the name + `_out.mp4`; no character comes from anywhere else |
| Paths.DerivedNameKeepsExtension | src/main/java/com/visualvertigo/Main.java:81-83 | a name with an extension keeps that extension: the derived name has its extension dot four places later, after the stem and `_out` |
| Paths.DerivedNameLonger | src/main/java/com/visualvertigo/Main.java:83 | the derived name is at least four characters longer than the input's file name, since `_out` is always added |
| Paths.DerivedNameAddsMp4 | src/main/java/com/visualvertigo/Main.java:82-83 | a name without an extension (no dot, or only a leading dot) gets the extension `.mp4` after `_out` |
| Paths.DefaultOutputPath | src/main/java/com/visualvertigo/Main.java:78-86 | the default output path, as written, contains the derived file name |
| Paths.ResolveOutputPath | src/main/java/com/visualvertigo/Main.java:78-86 | an explicit `-output` value is used unchanged; a missing one gives the default as written, which contains the derived name, and which keeps the input's directory and has the derived name as its file name when the file name occurs nowhere else in the path |
| Paths.DefaultOutputPathFinalOnly | src/main/java/com/visualvertigo/Main.java:78-86 | when the file name occurs in the path only as its last component, the default path is the directory part followed by the derived name |
| Paths.IntendedOutputPath | src/main/java/com/visualvertigo/Main.java:78-86 | the corrected default path has the derived name as its file name and the input's directory part unchanged |
| Paths.ResolveIntendedOutputPath | src/main/java/com/visualvertigo/Main.java:78-86 | with the corrected default, an explicit `-output` value is kept and a missing one keeps the input's directory and has the derived file name; when the file name occurs only at the end of the input path this is the path the code chooses |
| Paths.DefaultAgreesWithIntended | src/main/java/com/visualvertigo/Main.java:78-86 | under the final-only condition, the path as written and the corrected path are equal |
| Paths.DefaultDiffersFromIntended | src/main/java/com/visualvertigo/Main.java:85 | when the file name also occurs inside the directory part, the default path as written is longer than the corrected path, so they differ |
| Paths.DefaultOutputPathOfRoot | src/main/java/com/visualvertigo/Main.java:80-85 | for the input `/` the file name is empty, and the empty target puts `_out.mp4` on both sides of the slash: `_out.mp4/_out.mp4` |
| Paths.DefaultOutputPathRenamesDirectory | src/main/java/com/visualvertigo/Main.java:85 | for `a/a` the code as written gives `a_out.mp4/a_out.mp4`, and the corrected path is `a/a_out.mp4` |
| Codecs.FirstContained | src/main/java/com/visualvertigo/Main.java:314-323 | the loop over the names stops at the first name the codec name contains; it finds nothing exactly when no name is contained |
| Codecs.IsHwAccelerated | src/main/java/com/visualvertigo/Main.java:314-323 | `isHwAccelerated` is true exactly when the loop over `HW_ACEELS` finds a first name contained in the codec name; `IsHwAcceleratedMeans` restates this as membership |
| Codecs.IsHwAcceleratedMeans | src/main/java/com/visualvertigo/Main.java:38 | `isHwAccelerated` holds exactly when the codec name contains one of `vdpau`, `dxva2`, `vda`, `videotoolbox`, `qsv`, `vaapi`, `cuvid` |
| Codecs.HwAccelNamesDistinct | src/main/java/com/visualvertigo/Main.java:38 | the seven acceleration method names are pairwise distinct |
| Codecs.SelectedNamesMembers | src/main/java/com/visualvertigo/Main.java:220-233 | a name is listed exactly when a codec of the requested direction and kind has it |
| Codecs.SelectedNamesAppend | src/main/java/com/visualvertigo/Main.java:220-234 | the listing of two enumerations in a row is the first listing followed by the second, so enumeration order is kept |
| Codecs.ListingsPartition | src/main/java/com/visualvertigo/Main.java:223-230 | the four listings together hold every enumerated name exactly as often as it is enumerated |
| Codecs.PrintCodecs | src/main/java/com/visualvertigo/Main.java:215-238 | the printed lines are the selected names in order, or the single line `(none)` when nothing is selected |
| Codecs.HwAcceleratorsAsWritten | src/main/java/com/visualvertigo/Main.java:182-213 | as written the scan succeeds exactly when no decoder contains an acceleration name, and then prints `(none)`; otherwise `remove` on the fixed-size list throws for the first such decoder and its first contained name |
| Codecs.RemoveAt | src/main/java/com/visualvertigo/Main.java:200 | removing one name leaves the names before it in place and moves those after it up by one, so checking order is kept; from a distinct list the removed name is gone and the rest stays distinct |
| Codecs.Discover | src/main/java/com/visualvertigo/Main.java:188-204 | the intended scan appends to `available` only names from `toTest`, without duplicates, at most one per decoder |
| Codecs.DiscoverWitnessed | src/main/java/com/visualvertigo/Main.java:194-202 | every name the intended scan records occurs in the name of some decoder |
| Codecs.DiscoverNothingIff | src/main/java/com/visualvertigo/Main.java:188-204 | the intended scan records nothing exactly when no name is left to test or no decoder contains any |
| Codecs.HwAcceleratorsIntended | src/main/java/com/visualvertigo/Main.java:182-213 | the corrected listing is `(none)` exactly when no decoder contains an acceleration name; otherwise the names are distinct and drawn from `HW_ACEELS`, each occurs in some decoder's name, and there are at most as many as decoders |
| Codecs.IntendedFirstIsAsWrittenFailure | src/main/java/com/visualvertigo/Main.java:196-202 | where the code as written succeeds the corrected listing is the same; where it throws, the corrected listing starts with the name whose removal threw |
| Codecs.AsWrittenFailsOnHwDecoder | src/main/java/com/visualvertigo/Main.java:185-200 | one decoder `h264_vdpau` makes the code as written throw on `vdpau`, while the corrected listing is `vdpau` |
| Dispatch.OptionValue | src/main/java/com/visualvertigo/Main.java:69-73 | on a parsed command line `getOptionValue` is non-null exactly when the option is present and declared with an argument, and then it is that argument |
| Dispatch.Dispatch | src/main/java/com/visualvertigo/Main.java:55-74 | usage is printed exactly when the parse failed, no option is given or `-help` is; otherwise the action is that of the first present option in the order swdecoders, swencoders, hwdecoders, hwencoders, hwaccels, input, and nothing happens when none of those is present |
| Dispatch.LowerPriorityIgnored | src/main/java/com/visualvertigo/Main.java:57-74 | adding options ranked below the selecting one, or options that select nothing, with any arguments, does not change a listing; for a transcode every option that could be added passes its argument on, so only the unchanged command line is covered |

## Left out

- Transcoding itself (`FFmpegFrameGrabber`, `FFmpegFrameRecorder`, the frame loop, `createBufferedImage`, `createFrame`, the pixel format, timing and frames-per-second output) is native media I/O, not decision logic.
- Command-line parsing by Commons CLI, the option declarations and `printHelp` are a library's work. The model starts from the parse outcome: `None` for a `ParseException`, otherwise the set of options present and their arguments.
- Dispatch.Dispatch: options are an enumeration, not the strings `swdecoders`, `input` and so on, and the transcode is returned as an action rather than performed.
- The native codec enumeration is an input sequence. Its order and contents are whatever the FFmpeg build provides.
- Paths.StripTrailingSlashes: does not model the rest of `java.io.File`'s normalization: repeated `/` inside the path are not collapsed, and an all-slash path becomes empty rather than `/`. Neither changes what `getName` returns.
- Paths.FileName: only `/` separates names, as on Unix. Windows drive letters, `\` separators and UNC prefixes are not modelled.
- Codecs.RemoveAt: models `List.remove(Object)` by the index of the matching name. The two agree because the acceleration names are distinct.
- Strings are sequences of Unicode characters, while Java's are UTF-16 code units. `contains`, `lastIndexOf(".")` and `replace` with a non-empty target agree on both. They differ only where an empty target inserts between the two halves of a surrogate pair, and an empty file name comes only from an all-slash path, which has no such pair.
- Printing is modelled as the returned sequence of lines. Writing to standard output is not modelled.

## Findings

| source | as written | input that shows it | evidently intended | confidence | as-written member | corrected member |
|---|---|---|---|---|---|---|
| src/main/java/com/visualvertigo/Main.java:185-200 | `toTest` is `Arrays.asList(HW_ACEELS)`, a fixed-size list, so `toTest.remove(...)` throws `UnsupportedOperationException` at the first decoder whose name contains an acceleration method name | an enumeration with the decoder `h264_vdpau` | remove the name from a list that can shrink, record it, and go on with the next decoder, printing the recorded names | high; not executed | Codecs.HwAcceleratorsAsWritten, Codecs.AsWrittenFailsOnHwDecoder | Codecs.HwAcceleratorsIntended |
| src/main/java/com/visualvertigo/Main.java:85 | `inputPath.replace(inName, outName)` replaces every occurrence of the file name in the path, including inside directory names | input path `a/a` gives `a_out.mp4/a_out.mp4` | keep the directory part and put the derived name after it, giving `a/a_out.mp4` | medium; not executed | Paths.DefaultOutputPath, Paths.DefaultOutputPathRenamesDirectory, Paths.DefaultDiffersFromIntended | Paths.IntendedOutputPath, Paths.ResolveIntendedOutputPath |
