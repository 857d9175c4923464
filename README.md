# PlateRunner job combination, modelled in Dafny

PlateRunner turns several sliced 3MF print jobs into one job for a printer
fitted with an automatic plate changer. Each job's G-code gets a plate-swap
block after its `; EXECUTABLE_BLOCK_END` marker, unless it already has one.
The G-code of every job is then repeated once per copy and concatenated in
queue order. The combined text, its MD5 digest and a rewritten filament
descriptor (`slice_info.config`) are written into the archive of the first
job. This project models that core:

- `gcode_parser.dfy` (module `GcodeParser`): the header scan (`parseGcodeMetadata`) and
  `findInsertionPoint`. Each header regular expression is a hand-written scanner (`SkipWs`,
  `CaptureAt`, `FieldAt`, `TimeAt`) that follows the expression piece by piece; `FirstMatch`
  gives the leftmost match, as `String.prototype.match` does.
- `slice_info.dfy` (module `SliceInfo`): `parseSliceInfo` and `updateSliceInfo` on the
  filament descriptor.
- `processor.dfy` (module `Processor`):
  - detecting and injecting the swap block;
  - combination, with its two nested loops;
  - the copy-weighted totals;
  - `findFile` over an archive whose entries are updated in place;
  - `create3MF`, `processJobs` and `parse3MF` once the archive is open.
- `plate_swap.dfy` (module `PlateSwap`): the default swap sequence, the preset lists, and the
  store that keeps custom presets and the active sequence.
- `utils.dfy` (module `Utils`): `formatTime`.
- Shared modules:
  - `text.dfy` (module `Text`): the JavaScript string built-ins these files use (`trim`,
    `trimEnd`, `indexOf`, `includes`, the `\s` class, ASCII case folding, `${n}`).
  - `numbers.dfy` (module `Numbers`): `parseFloat` of a run of digits and dots, and
    `toFixed(2)`, both over exact rationals.
  - `wrappers.dfy` (module `Wrappers`): `Option` and `Result`.

A `throw` on a modelled path becomes an `Err` value:
- a missing marker gives `MarkerNotFound`;
- an archive without G-code gives `NoGcode`;
- an empty queue gives `NoJobs`;
- a save outside the browser gives `StorageUnavailable`.

Imperative code keeps its shape:
- `combineGcode`, `calculateTotalFilament` and `findFile` are methods with loops, proved
  equal to the functions that specify them.
- The archive is a class whose `Put` updates its entries in place.
- The preset store is a class whose save and delete methods change its fields.

Points where the code does something a reader might not expect, and the model does what the code does:
- `create3MF` writes into the first job's own archive in place, although its comment at
  lib/processor.ts:227 says it clones it. `Processor.Create3MF` modifies `baseJob.archive`.
- `updateSliceInfo` leaves the descriptor unchanged when an attribute is missing
  (`SliceInfo.UpdateTouchesOnlyValues`).
- The descriptor attributes are `used_g` and `used_m` (lib/gcode-parser.ts:82-83).
- A copy count of zero or less is not rejected inside the core: that job then contributes
  no text and a non-positive share of each total.

## Model

| member | source | states |
|---|---|---|
| Text.TrimEnd | lib/processor.ts:46 | `trimEnd` keeps the longest prefix that does not end in whitespace; everything after it is whitespace |
| Text.TrimStart | lib/processor.ts:35 | `trim` (with `TrimEnd`) drops the longest whitespace prefix and keeps the rest |
| Text.IndexOf | lib/processor.ts:31 | `indexOf` finds the first occurrence at or after the start index; there is none before it; `None` means none at all |
| Text.ToLower | lib/processor.ts:85 | lower-casing keeps the length and lower-cases each character |
| Text.ParseShow | lib/utils.ts:13 | reading back the decimal rendering of a number gives the number |
| Numbers.DecimalValue | lib/gcode-parser.ts:86-87 | `parseFloat` of a run of digits and dots is never negative |
| Numbers.Hundredths | lib/gcode-parser.ts:100-101 | `toFixed(2)` prints the integer nearest to 100·x, rounding half up, and never a negative one for x ≥ 0 |
| Numbers.Rounded2 | lib/gcode-parser.ts:100-101 | the printed value lies within half a hundredth of x |
| Numbers.Unsigned2 | lib/gcode-parser.ts:100-101 | a non-negative value prints as a non-empty run of digits and dots |
| Numbers.Fixed2 | lib/gcode-parser.ts:100-101 | a negative value prints with a leading minus; a non-negative one as digits and dots only |
| Numbers.ReadTwoDecimals | lib/gcode-parser.ts:86-101 | `q.dd` reads back as q + dd/100 |
| Numbers.Fixed2RoundTrip | lib/gcode-parser.ts:86-101 | `parseFloat(x.toFixed(2))` is x rounded to hundredths |
| GcodeParser.SkipWs | lib/gcode-parser.ts:25 | `\s*` advances within the text |
| GcodeParser.SkipWsIs | lib/gcode-parser.ts:25 | `\s*` stops exactly at the first non-space |
| GcodeParser.CaptureAt | lib/gcode-parser.ts:34 | a capture `([\d.]+)` or `(\d+)` is non-empty and holds only the allowed characters |
| GcodeParser.FieldAt | lib/gcode-parser.ts:34-54 | a header field matches only at a `;`, and its capture is a non-empty run of digits (and dots where allowed) |
| GcodeParser.NumberAt | lib/gcode-parser.ts:25 | a `\d+` match consumes at least one character and stays within the text |
| GcodeParser.NumberAtShow | lib/gcode-parser.ts:27-29 | the rendering of n, followed by a non-digit, is read back as n by `parseInt` |
| GcodeParser.MinutesSecondsRoundTrip | lib/gcode-parser.ts:25-30 | `{m}m {s}s` reads as m·60 + s |
| GcodeParser.TimeAt | lib/gcode-parser.ts:25 | the time pattern only matches where a `;` comment starts |
| GcodeParser.WeightAt | lib/gcode-parser.ts:34-36 | the weight pattern only matches at a `;`, and the weight it reads is never negative |
| GcodeParser.LengthAt | lib/gcode-parser.ts:40-42 | the length pattern only matches at a `;`, and the length it reads is never negative |
| GcodeParser.LayerAt | lib/gcode-parser.ts:46-48 | the layer pattern only matches where a `;` comment starts |
| GcodeParser.MaxZAt | lib/gcode-parser.ts:52-54 | the height pattern only matches at a `;`, and the height it reads is never negative |
| GcodeParser.TimeLineRoundTrip | lib/gcode-parser.ts:23-30 | `; total estimated time: {h}h {m}m {s}s`, or the same with `model printing time`, at any index p, reads there as h·3600 + m·60 + s |
| GcodeParser.TimeLineNoHoursRoundTrip | lib/gcode-parser.ts:23-30 | without the hours group, under either label and at any index, the hours default to 0 |
| GcodeParser.HeaderTimeIsReported | lib/gcode-parser.ts:23-31 | when the first index where the time pattern matches holds a time line under either label, that duration is the print time |
| GcodeParser.HeaderTimeNoHoursIsReported | lib/gcode-parser.ts:23-31 | the same for a first time line without the hours group |
| GcodeParser.FieldLineRoundTrip | lib/gcode-parser.ts:33-54 | `; HEADING: w` (or `; HEADING : w` where the pattern has `\s*` before the colon) at any index reads as w, when w is a maximal run of the capture's class |
| GcodeParser.LayerLineRoundTrip | lib/gcode-parser.ts:45-49 | `; total layer number: {n}` at any index, not followed by a digit, reads there as n |
| GcodeParser.HeaderLayersAreReported | lib/gcode-parser.ts:45-49 | when the first layer match is a layer line for n, the layer count is n |
| GcodeParser.WeightLineRoundTrip | lib/gcode-parser.ts:33-37 | `; total filament weight [g] : {x.toFixed(2)}` at any index reads there as x rounded to hundredths, for x ≥ 0 |
| GcodeParser.HeaderWeightIsReported | lib/gcode-parser.ts:33-37 | when the first weight match is such a line, the weight is x rounded to hundredths |
| GcodeParser.LengthLineRoundTrip | lib/gcode-parser.ts:39-43 | `; total filament length [mm] : {x.toFixed(2)}` at any index reads there as x rounded to hundredths, for x ≥ 0 |
| GcodeParser.HeaderLengthIsReported | lib/gcode-parser.ts:39-43 | when the first length match is such a line, the length is x rounded to hundredths |
| GcodeParser.MaxZLineRoundTrip | lib/gcode-parser.ts:51-55 | `; max_z_height: {x.toFixed(2)}` at any index reads there as x rounded to hundredths, for x ≥ 0 |
| GcodeParser.HeaderMaxZIsReported | lib/gcode-parser.ts:51-55 | when the first height match is such a line, the maximum height is x rounded to hundredths |
| GcodeParser.NoCommentNoMatch | lib/gcode-parser.ts:25-54 | no header pattern matches in a text without `;` |
| GcodeParser.ParseGcodeMetadata | lib/gcode-parser.ts:14-58 | each field is the value of the first match of its pattern, else 0; with no `;` every field is 0 |
| GcodeParser.FindInsertionPoint | lib/gcode-parser.ts:64-75 | fails exactly when the marker is missing; otherwise the index just past the first line feed after the marker, or the text length when none follows |
| SliceInfo.AttrAt | lib/gcode-parser.ts:82-83 | a match of `name="([\d.]+)"` starts with `name="` and its value ends at a closing quote |
| SliceInfo.Capture | lib/gcode-parser.ts:82-83 | a captured value is a non-empty run of digits and dots |
| SliceInfo.FindAttrSpec | lib/gcode-parser.ts:82-83 | `match` finds the leftmost match; none matches before it, and `None` means none anywhere |
| SliceInfo.ReplaceAttr | lib/gcode-parser.ts:100-101 | `replace` changes nothing without a match; otherwise only the first captured value is exchanged |
| SliceInfo.ReplaceWithSame | lib/gcode-parser.ts:100 | putting back the value already there changes nothing |
| SliceInfo.CaptureAfterReplaceSelf | lib/gcode-parser.ts:100-101 | after the replacement, the attribute captures exactly the new value |
| SliceInfo.CaptureAfterReplaceOther | lib/gcode-parser.ts:100-101 | replacing `used_g` leaves the `used_m` capture as it was, present or absent, and vice versa |
| SliceInfo.ParseSliceInfo | lib/gcode-parser.ts:80-89 | both figures are never negative, and each is 0 when its own attribute has no match |
| SliceInfo.UpdateSliceInfo | lib/gcode-parser.ts:94-102 | a descriptor with neither attribute is returned unchanged |
| SliceInfo.ParseAbsent | lib/gcode-parser.ts:80-89 | a descriptor without `used_g="` reads 0 grams; likewise for metres |
| SliceInfo.UpdateTouchesOnlyValues | lib/gcode-parser.ts:94-102 | only the two values change; a descriptor with neither attribute is returned unchanged |
| SliceInfo.ParseAfterUpdate | lib/gcode-parser.ts:80-102 | reading back a rewritten descriptor gives each total rounded to hundredths, or 0 where the attribute was absent |
| SliceInfo.UpdateIdempotent | lib/gcode-parser.ts:94-102 | rewriting twice with the same totals is rewriting once |
| Processor.AfterMarker | lib/processor.ts:29-35 | the trimmed text after the first marker is absent exactly when the marker is |
| Processor.HasSwapSequence | lib/processor.ts:29-38 | a recognised block implies the text holds the marker and `G0 X-10`, and is longer than the marker plus 100 characters |
| Processor.Injected | lib/processor.ts:43-71 | a successful injection needs the marker and keeps the text up to the end of the first marker unchanged |
| Processor.SwapPoint | lib/processor.ts:55-66 | the insertion point is absent exactly when the marker is, and lies within the text |
| Processor.EnsureSwapSequence | lib/processor.ts:43-71 | the step-by-step injection equals the injection function |
| Processor.InjectedFailsWithoutMarker | lib/processor.ts:43-53 | injection fails, with the marker error, exactly when the marker is missing |
| Processor.InjectedEndsWithBlankLine | lib/processor.ts:43-71 | a successful injection ends with a blank line (`\n\n`), so the next job starts on its own line |
| Processor.InjectedCutsAtSwapPoint | lib/processor.ts:55-70 | without a block, the text is cut at the end of the marker line, and one character further exactly when a line feed stands there; the trimmed block follows |
| Processor.HasSwapSequenceTrailingWs | lib/processor.ts:29-46 | replacing trailing whitespace does not change whether a block is recognised |
| Processor.InjectedBlockRecognised | lib/processor.ts:29-70 | a block longer than 100 characters that holds `G0 X-10` is recognised once injected |
| Processor.InjectionIdempotent | lib/processor.ts:43-71 | injecting into an injected text changes nothing |
| Processor.RepeatLength | lib/processor.ts:175-177 | n copies are n times as long; none for n ≤ 0 |
| Processor.AppendRepeat | lib/processor.ts:175-177 | appending one more copy gives n + 1 copies |
| Processor.AppendCopies | lib/processor.ts:175-177 | the inner loop appends exactly `copies` copies |
| Processor.CombinedBy | lib/processor.ts:168-180 | the combination succeeds exactly when every job is accepted; a failure carries the error of the first rejected job |
| Processor.Combined | lib/processor.ts:164-181 | a failed combination fails for a missing marker, in the first job that lacks one |
| Processor.CombineGcode | lib/processor.ts:164-181 | the two loops compute the combination, failing at the first job without a marker |
| Processor.CombinedByNext | lib/processor.ts:170-178 | each outer iteration appends the copies of the next job, or fails with its error |
| Processor.CombinedByStopsAtFailure | lib/processor.ts:170-172 | a failure among the first jobs is the failure of the whole combination |
| Processor.CombinedOkIff | lib/processor.ts:164-181 | combination succeeds exactly when every job has the marker; otherwise the error is the missing marker |
| Processor.CombinedByFailsWith | lib/processor.ts:170-172 | when every rejection carries one error, so does a failed combination |
| Processor.CombinedByAppend | lib/processor.ts:168-180 | combining two queues is concatenating their combinations, so all copies of a job precede those of later jobs |
| Processor.CombinedBySnoc | lib/processor.ts:170-178 | accepting one more job appends its copies |
| Processor.CombinedByLast | lib/processor.ts:170-178 | an accepted combination ends with the copies of its last job |
| Processor.CombinedAroundJob | lib/processor.ts:168-180 | job i's copies sit between the combination of the jobs before it and that of the jobs after it |
| Processor.CombinedLength | lib/processor.ts:164-181 | the combined length is the copy-weighted sum of the injected lengths |
| Processor.SumByAppend | lib/processor.ts:205-217 | a `reduce` sum over two queues is the sum of the two sums |
| Processor.RealSumByAppend | lib/processor.ts:193-197 | the same for the filament sums |
| Processor.SumByUpdate | lib/processor.ts:205-217 | changing one job moves a sum by the difference of its terms |
| Processor.RealSumByUpdate | lib/processor.ts:193-197 | the same for the filament sums |
| Processor.RealSumBySnoc | lib/processor.ts:193-197 | one more job adds its term |
| Processor.ScaledUpdate | lib/processor.ts:193-197 | a filament total is linear in any one job's copies |
| Processor.TotalTime | lib/processor.ts:205-210 | the total print time is never negative when no copy count is |
| Processor.PlateSwaps | lib/processor.ts:215-217 | at least one swap per job when every job has a copy; exactly one per job when each has one copy |
| Processor.Filament | lib/processor.ts:186-200 | the filament totals are never negative when no copy count is |
| Processor.CalculateTotalFilament | lib/processor.ts:186-200 | the loop accumulates the copy-weighted grams and metres of the descriptors |
| Processor.TotalsAppend | lib/processor.ts:186-217 | time, swaps, grams and metres of two queues add up |
| Processor.TotalsLinearInCopies | lib/processor.ts:205-217 | giving a job c copies moves the time by its print time × the difference, and the swaps by the difference |
| Processor.Archive.Put | lib/processor.ts:244-246 | `zip.file` overwrites or adds one entry; the listing keeps its order and gains a new name at the end |
| Processor.FirstPresent | lib/processor.ts:77-80 | the first path that names an entry exactly |
| Processor.FindLowered | lib/processor.ts:85-86 | the first name whose lower case equals the lowered path |
| Processor.FirstFolded | lib/processor.ts:84-90 | the first path, in order, that some name matches case-insensitively |
| Processor.Lookup | lib/processor.ts:76-93 | a found name matches one of the paths case-insensitively; an exactly present path is always found, and wins; a name found only case-insensitively is a listed one |
| Processor.FindFile | lib/processor.ts:76-93 | the two loops compute the exact-then-case-insensitive lookup |
| Processor.LookupFinds | lib/processor.ts:76-93 | a found entry exists and matches a path; an exact match is always found; nothing found means no entry matches any path even case-insensitively |
| Processor.Listed | lib/processor.ts:244-246 | writing names in order keeps the old listing as a prefix and lists exactly the old and the written names |
| Processor.Overwritten | lib/processor.ts:244-246 | the archive holds its old entries plus the G-code, digest and descriptor entries |
| Processor.OverwriteTouchesThree | lib/processor.ts:244-246 | exactly the G-code, digest and descriptor entries change |
| Processor.Create3MF | lib/processor.ts:222-250 | the base archive, updated in place, holds the combined G-code, its digest and the descriptor rewritten with the totals of all jobs; its listing keeps the old names and appends the new ones in write order |
| Processor.ProcessJobs | lib/processor.ts:255-268 | no jobs is an error; a job without a marker fails and leaves the archive untouched; otherwise the first job's archive holds the output |
| Processor.JobName | lib/processor.ts:141 | the name differs from the file name exactly when that ends in `.3mf` in any case, and then is the file name without those four characters |
| Processor.Parse3MF | lib/processor.ts:98-154 | no G-code entry is an error; otherwise the job has the G-code, its header metadata, the descriptor or empty text, and one copy |
| PlateSwap.DefaultEnds | lib/plate-swap.ts:5-29 | the default sequence starts with `G0 X-10`, ends in `;` and is longer than 100 characters |
| PlateSwap.DefaultIsBlock | lib/plate-swap.ts:5-29 | the default sequence has nothing to trim and holds the fingerprint |
| PlateSwap.DefaultInjectionRecognised | lib/plate-swap.ts:5-29 | once the default sequence is injected into a job with the marker, the block is recognised and injecting again changes nothing |
| PlateSwap.FindIndex | lib/plate-swap.ts:57 | `findIndex` gives the first preset with that name, or none when no preset has it |
| PlateSwap.Upserted | lib/plate-swap.ts:55-63 | the saved list holds the preset, is as long as before or one longer, and holds nothing else new |
| PlateSwap.UpsertReplacesFirst | lib/plate-swap.ts:56-59 | saving an existing name replaces the first preset of that name; the length and every other entry stay |
| PlateSwap.UpsertAppendsNew | lib/plate-swap.ts:60-62 | saving a new name appends the preset at the end |
| PlateSwap.UpsertedFinds | lib/plate-swap.ts:55-63 | after saving, looking up the name finds the saved preset |
| PlateSwap.UpsertIdempotent | lib/plate-swap.ts:55-63 | saving the same preset twice is saving it once |
| PlateSwap.Without | lib/plate-swap.ts:67 | the filtered list holds exactly the presets of other names |
| PlateSwap.WithoutAppend | lib/plate-swap.ts:67 | filtering a joined list filters each part, so the kept presets keep their order |
| PlateSwap.WithoutAbsent | lib/plate-swap.ts:67 | a list without that name is unchanged |
| PlateSwap.WithoutIdempotent | lib/plate-swap.ts:66-68 | deleting twice is deleting once |
| PlateSwap.WithoutUpserted | lib/plate-swap.ts:55-68 | deleting a name just saved leaves what deleting it alone would |
| PlateSwap.PresetStore.LoadCustomPresets | lib/plate-swap.ts:49-53 | outside a browser, or with nothing stored, the list is empty; otherwise it is the stored list |
| PlateSwap.PresetStore.SaveCustomPreset | lib/plate-swap.ts:55-64 | stores the upserted list, leaving the active sequence alone; outside a browser it fails and nothing changes |
| PlateSwap.PresetStore.DeleteCustomPreset | lib/plate-swap.ts:66-69 | stores the list without that name; outside a browser it fails and nothing changes |
| PlateSwap.PresetStore.LoadActiveSequence | lib/plate-swap.ts:71-74 | the stored sequence, or the default when outside a browser, nothing stored or the empty text stored; never empty |
| PlateSwap.PresetStore.SaveActiveSequence | lib/plate-swap.ts:76-78 | a saved non-empty sequence is loaded back, a saved empty one loads as the default; outside a browser it fails |
| Utils.TruncRem | lib/utils.ts:10 | JavaScript `%`: the remainder has the sign of the dividend and is smaller than the divisor in size |
| Utils.ShowInt | lib/utils.ts:13-15 | `${n}`: a minus before the digits of a negative number |
| Utils.FormatTime | lib/utils.ts:8-16 | the text always ends in `m` |
| Utils.ClockParts | lib/utils.ts:9-10 | for non-negative input the minutes are 0–59, and hours and minutes cover all but the last minute's seconds |
| Utils.FormatTimeForms | lib/utils.ts:8-16 | an hour or more shows as `{h}h {m}m`; less shows as `{m}m`, with m the whole minutes |
| Utils.FormatTimeNegative | lib/utils.ts:8-16 | negative input shows as minutes alone, from `-60m` to `0m` |
| Utils.SameHoursForm | lib/utils.ts:13 | two `{h}h {m}m` texts are equal only for equal hours and minutes |
| Utils.SameMinutesForm | lib/utils.ts:15 | two `{m}m` texts are equal only for equal minutes |
| Utils.FormsDiffer | lib/utils.ts:12-15 | no `{h}h {m}m` text equals an `{m}m` text |
| Utils.FormatTimeSameMinutes | lib/utils.ts:8-16 | two non-negative durations show alike exactly when they have the same whole minutes |

## Left out

- Opening and writing ZIP archives (JSZip, DEFLATE, `generateAsync`). The archive is its map of
  entry names to texts, plus the order of the listing. Directory entries are not modelled.
- The MD5 digest is a function parameter (`digest`), since its bit-level definition is outside
  the core.
- Reading the uploaded file (`file.arrayBuffer`), the thumbnail and its object URL
  (lib/processor.ts:132-138), `generateId` (random and clock based) and `cleanupJob`.
- Console logging in `parse3MF`, and the list of G-code names in its error message. The error is
  `NoGcode` without the text.
- The `job.file` field is not modelled.
- Browser storage encodes the preset list as JSON text. The store keeps the decoded list, so
  malformed stored text, which makes `JSON.parse` throw, is not modelled.
- PlateSwap.PresetStore.SaveCustomPreset: outside a browser the source throws a `ReferenceError`
  from `localStorage`. The model returns `StorageUnavailable` and changes nothing, and so does
  `DeleteCustomPreset`.
- Numbers are exact rationals and integers, not IEEE doubles: rounding errors of
  `usedG * copies`, of sums and of `toFixed(2)`, and exponent notation of very large values are
  not modelled.
- Numbers.DecimalValue: a capture that starts with a dot not followed by a digit (`.`, `..`,
  `..5`) is `NaN` for `parseFloat`, and `toFixed` would then write `NaN` back. The model reads
  every such capture as 0.
- Processor.HasSwapSequence: `afterMarker.length` counts UTF-16 code units, and the model counts
  characters. A tail holding characters outside the Basic Multilingual Plane can pass the
  100-unit threshold in the code and fail it in the model.
- Case-insensitive matching (`toLowerCase`, the regex `i` flag) folds ASCII letters only.
- Processor.ScaledUpdate: linearity of the filament totals in one job's copies is stated for any
  per-plate figure, rather than separately for grams and metres.
- Utils.FormatTime: the input is an integer number of seconds. Fractional seconds are not modelled.
- The rest of lib/utils.ts (`cn`, `formatWeight`, `formatLength`) is not part of this model.
