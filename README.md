# electron-extra-codecs source patchers, modelled in Dafny

The repository ships two scripts that rewrite generated Chromium and FFmpeg sources so that a
custom Chrome build decodes HEVC, AC3, EAC3 and DTS:

- `scripts/patch_ffmpeg_configs.py` patches the FFmpeg configuration of the Chrome branding. It
  flips `#define CONFIG_X 0` lines to `1`, inserts missing `&ff_*` entries in front of the `NULL`
  terminator of the codec, parser and demuxer list files, and adds the extra `.c` sources to
  `ffmpeg_generated.gni`. Those sources go into a marked block, which is extended in place or
  appended when absent. The write helper `apply_patch` writes a file only when its text changed
  and check mode is off.
- `scripts/patch_chromium_media.py` makes four anchor-driven rewrites of the media layer:
  - `supported_types.cc`: guarded returns become `return true;`, and fallback case labels are
    added.
  - `ffmpeg_common.cc`: codec-ID mappings are inserted and the decoder allowlists extended.
  - `ffmpeg_video_decoder.cc`: the HEVC label moves out of the `NOTREACHED` group into the
    multithreaded branch.
  - `ffmpeg_glue.cc`: demuxer `push_back` lines are added.

  Its `main` computes every file's new text before writing anything. It writes only the changed
  files, each after a one-time `.orig` backup.

The model follows the scripts function by function:

- Text processing is written as functions on `string` (`seq<char>`).
- Python's line splitting is `Text.Lines`.
- Each regular expression the scripts use becomes a small deterministic matcher: a sequence of
  `Pattern.Elem` tokens, with literal text, `\s*`, `\s+`, `[ \t]*`, `\w+`, `^` and so on.
- The loops of the scripts are Dafny methods. Each of these is proved equal to the function
  that specifies it:
  - the flag loop;
  - the line scans;
  - the two source loops of the gni patcher;
  - the compute and write loops of `main`.

  The brace scanner is specified directly instead: its result is the first position where the
  braces balance, or none (`BlockEnd.ClosesAt`).
- The file trees are classes holding a `map` from path to content. `ConfigFiles.Tree` serves
  `apply_patch`; `MediaPatch.SourceTree` serves `main` and `backup_once`.
- The existence test `Path.is_file` is a predicate parameter.
- The static catalogs (`CONFIG_FLAGS`, the list entries, `EXTRA_GNI_SOURCES`) are sequence
  parameters.

Modules:

| module | file | models |
|---|---|---|
| `Wrappers` | wrappers.dfy | `Option` and `Result` (a raised `RuntimeError` is an `Err`) |
| `Text` | text.dfy | whitespace, containment, `splitlines(keepends=True)`, `str(n)` |
| `Pattern` | pattern.dfy | the regular expressions as token matchers, `search`, `subn` |
| `Newline` | newline.dfy | `detect_newline` |
| `BlockEnd` | block_end.dfy | `find_block_end` |
| `ConfigComponents` | config_components.dfy | `patch_config_components` |
| `ListFile` | list_file.dfy | `patch_list_file` |
| `LineScan` | line_scan.dfy | the "first line from index i satisfying p" scans |
| `Gni` | gni.dfy | `extract_c_sources`, `insert_into_managed_gni_block`, `append_managed_gni_block`, `patch_ffmpeg_generated_gni` |
| `ConfigFiles` | config_files.dfy | `apply_patch` |
| `Fallback` | fallback.dfy | the "insert labels before a sibling label" rewrites |
| `SupportedTypes` | supported_types.dfy | `patch_supported_types` |
| `FfmpegCommon` | ffmpeg_common.dfy | `patch_ffmpeg_common` |
| `VideoDecoder` | video_decoder.dfy | `patch_ffmpeg_video_decoder` |
| `GlueDemuxers` | glue_demuxers.dfy | `patch_ffmpeg_glue_demuxers` |
| `MediaPatch` | media_patch.dfy | `backup_once` and `main`'s compute-then-write discipline |

## Model

| member | source | states |
|---|---|---|
| Newline.DetectNewline | scripts/patch_ffmpeg_configs.py:151-152 | the line break is `"\r\n"` exactly when some `\r` is directly followed by `\n` in the text, and `"\n"` otherwise |
| Newline.CrLfOccurrence | scripts/patch_ffmpeg_configs.py:152 | the substring test `"\r\n" in text` holds exactly when a `\r` directly precedes a `\n` somewhere |
| BlockEnd.FindBlockEnd | scripts/patch_ffmpeg_configs.py:198-208 | a returned position is just past a `}` at which the `{`/`}` balance counted from the opening index is back to zero, and no earlier position is; `None` means no `}` ever balances |
| BlockEnd.DepthStep | scripts/patch_ffmpeg_configs.py:201-206 | the depth after one more character rises by one on `{`, falls by one on `}`, and is otherwise kept |
| BlockEnd.DepthPositiveInside | scripts/patch_ffmpeg_configs.py:198-208 | starting on `{`, the depth stays positive strictly inside the block, so the result closes the brace at the opening index and not an inner one |
| ConfigComponents.PatchConfigComponents | scripts/patch_ffmpeg_configs.py:155-165 | the flag loop yields the text after one substitution pass per flag, in catalog order, with the sum of the per-pass counts; `EnableAllStep` carries the loop invariant, each pass running on the text the earlier passes produced |
| ConfigComponents.DefineZeroAt | scripts/patch_ffmpeg_configs.py:159-162 | a match of `^\s*#define\s+FLAG\s+0\b` within one line yields the index of the `0`, which is followed by the end of the line or a non-word character |
| ConfigComponents.EnableLineFlips | scripts/patch_ffmpeg_configs.py:163 | a line is changed by a pass exactly when it has the `#define FLAG 0` shape, and then only its `0` becomes `1`; every other character is kept |
| ConfigComponents.CountIsChanged | scripts/patch_ffmpeg_configs.py:163 | the replacement count of a pass equals the number of lines the pass changes |
| ConfigComponents.EnableFlagRewrites | scripts/patch_ffmpeg_configs.py:159-163 | after one pass the text splits into as many lines as before, each kept or with only its `#define FLAG 0` digit set to `1`, and the count is the number of changed lines |
| ConfigComponents.RewrittenMatchesNothing | scripts/patch_ffmpeg_configs.py:158-164 | a line rewritten for one flag matches the pattern of no flag, that one or any other |
| ConfigComponents.PassSettles | scripts/patch_ffmpeg_configs.py:163 | after a pass no line matches its flag, and no line matches a flag it did not match before |
| ConfigComponents.EnableAllSettles | scripts/patch_ffmpeg_configs.py:155-165 | after the whole loop no line has the `#define FLAG 0` shape for any catalog flag |
| ConfigComponents.SettledIsFixed | scripts/patch_ffmpeg_configs.py:155-165 | on text where no flag matches, the loop returns the text itself with count 0 |
| ConfigComponents.EnableAllIdempotent | scripts/patch_ffmpeg_configs.py:155-165 | a second run on the output returns that output and count 0 |
| Text.Lines | scripts/patch_ffmpeg_configs.py:177 | the lines join back to the text; each ends in its only line break, except possibly the last |
| Text.LinesOfJoin | scripts/patch_ffmpeg_configs.py:195 | joining well-formed lines and splitting again gives the same lines, so `"".join(lines)` after a splice is read back line by line |
| Text.NatToStringRoundTrip | scripts/patch_chromium_media.py:66-67 | the decimal rendering of a count reads back as that count and has no leading zero |
| ListFile.Missing | scripts/patch_ffmpeg_configs.py:169-173 | an entry is missing exactly when it is in the catalog and no single line is that entry followed by a comma, with only whitespace around; no entry is added |
| ListFile.MissingAppend | scripts/patch_ffmpeg_configs.py:169-173 | the filter keeps catalog order: one more catalog entry is appended when missing and dropped otherwise |
| ListFile.MissingEmpty | scripts/patch_ffmpeg_configs.py:174 | nothing is missing exactly when every entry is listed |
| ListFile.NullTailGreedy | scripts/patch_ffmpeg_configs.py:180 | the greedy reading of `\s*[,}; ]*(?://.*)?$` after `NULL` accepts exactly the tails that some split of the regular expression accepts |
| ListFile.NullLineIndent | scripts/patch_ffmpeg_configs.py:188-190 | on a NULL-terminator line `^(\s*)NULL\b` always matches, its group is the line's leading whitespace, and that holds no line break, so the `"    "` fallback is never taken |
| ListFile.FirstNullLine | scripts/patch_ffmpeg_configs.py:178-183 | a result is a NULL-terminator line with none before it; `None` means no line is one |
| ListFile.FindNullLine | scripts/patch_ffmpeg_configs.py:178-183 | the scan loop stops at the first NULL-terminator line, as `FirstNullLine` specifies |
| ListFile.PatchListFile | scripts/patch_ffmpeg_configs.py:168-195 | the method computes the filter, the scan and the splice exactly as the function `PatchList` specifies them |
| ListFile.PatchListAllPresent | scripts/patch_ffmpeg_configs.py:174-175 | with every entry listed, the text comes back unchanged with count 0 |
| ListFile.PatchListFails | scripts/patch_ffmpeg_configs.py:178-186 | the patch fails, with the NULL-terminator message, exactly when some entry is missing and no line is a NULL terminator |
| ListFile.EntryLineShape | scripts/patch_ffmpeg_configs.py:193 | each inserted line `EntryLines` builds, the indent, the entry, a comma and the line break, is a single line ending in its line break and lists its entry |
| ListFile.PatchListInserts | scripts/patch_ffmpeg_configs.py:177-195 | the result splits into the original lines with the entry lines of the missing entries, in catalog order, just before the first NULL line; the original is the result with them taken out; the count is the number of missing entries |
| ListFile.PatchListIdempotent | scripts/patch_ffmpeg_configs.py:168-195 | once a run has succeeded, a second run returns its output with count 0 |
| LineScan.FirstFromSpec | scripts/patch_ffmpeg_configs.py:237-263 | a found index is the first in its range whose line satisfies the test; `None` means no line in the range does |
| LineScan.FindLine | scripts/patch_ffmpeg_configs.py:237-263 | each `for index in range(...)` scan returns the first index `FirstFrom` specifies |
| Gni.CSourceOf | scripts/patch_ffmpeg_configs.py:140 | a line matching `^\s*"<path>.c",\s*$` yields a path without quote or line break that ends in `.c` |
| Gni.SourceLineRoundTrip | scripts/patch_ffmpeg_configs.py:279 | a line the patcher writes, `indent"src",nl`, is read back by the extractor as `src` |
| Gni.ExtractCSources | scripts/patch_ffmpeg_configs.py:230-231 | every extracted path is a `.c` path of a source-entry line |
| Gni.BaseNameIsLastPart | scripts/patch_ffmpeg_configs.py:320 | the basename is the whole path or the part after its last `/`, and holds no `/` |
| Gni.AddedBaseNames | scripts/patch_ffmpeg_configs.py:315-326 | a name is in the set of accepted basenames exactly when some accepted source has it |
| Gni.FindBlock | scripts/patch_ffmpeg_configs.py:236-263 | a found block has the marker line at or before the list-open line, and the `]` line after it |
| Gni.FindBlockExists | scripts/patch_ffmpeg_configs.py:242-263 | the insertion finds a block exactly when some marker line has a list-open line at or after it with a `]` line after that; otherwise it returns `None` |
| Gni.LocateBlock | scripts/patch_ffmpeg_configs.py:235-263 | the three scan loops return the block `FindBlock` specifies, or `None` when a scan gives up; `FindBlockIs` shows that scans chained from where the previous one stopped find that block |
| Gni.FindEntryIndent | scripts/patch_ffmpeg_configs.py:265-276 | the indent loop returns the first quoted entry's indentation, or the `]` line's indentation plus two blanks |
| Gni.EntryIndentBlank | scripts/patch_ffmpeg_configs.py:265-276 | the indent of new entries is whitespace without a line break, so the `"  "` fallback is never taken |
| Gni.InsertIntoManagedGniBlock | scripts/patch_ffmpeg_configs.py:234-281 | the method computes the scans and the splice that `InsertIntoBlock` specifies |
| Gni.InsertSplices | scripts/patch_ffmpeg_configs.py:265-281 | the result splits into the original lines with the `SourceLines` lines, one `indent"src",nl` line per source, in order, just before the `]` line; nothing else changes, and each new line reads back as its source |
| Gni.PaddingMinimal | scripts/patch_ffmpeg_configs.py:295-299 | the text is kept as a prefix, and the shortest of no, one or two line breaks is added after which it ends in two |
| Gni.AppendBlock | scripts/patch_ffmpeg_configs.py:284-299 | the original text is kept as a prefix of the result, which is strictly longer |
| Gni.BlockLinesShape | scripts/patch_ffmpeg_configs.py:286-294 | the block is the marker line, the branding `if` line, the list-open line, one `    "src",` line per source in order, then `  ]` and `}` (`BlockLines`), each followed by the detected line break (`Terminated`); every such line is a single line ending in its break |
| Gni.AppendBlockLines | scripts/patch_ffmpeg_configs.py:284-299 | the appended text splits into the padded original lines followed by the block's lines, each ending in the detected line break |
| Gni.AppendFindsBlock | scripts/patch_ffmpeg_configs.py:284-299 | a block appended by the patcher is found by a later insertion |
| Gni.UpdatedKeepsSources | scripts/patch_ffmpeg_configs.py:331-334 | whether inserted or appended, every source listed before and every source just added is listed after |
| Gni.Available | scripts/patch_ffmpeg_configs.py:305-310 | a source is kept exactly when it is in the catalog and its file exists; each missing file gives one warning naming its path, and there are no others |
| Gni.CheckAvailable | scripts/patch_ffmpeg_configs.py:303-310 | the first loop returns the sources and warnings `Available` specifies |
| Gni.Select | scripts/patch_ffmpeg_configs.py:312-327 | an accepted source is available, unlisted, and its basename is neither listed nor shared with another accepted source; every unlisted available source is accepted or warned about; every warning names a basename that is already taken |
| Gni.SelectSources | scripts/patch_ffmpeg_configs.py:315-327 | the second loop returns the accepted sources and warnings `Select` specifies |
| Gni.SelectOne | scripts/patch_ffmpeg_configs.py:317-327 | one iteration makes the step `SelectStep` specifies and keeps `added_basenames` equal to the basenames of the accepted sources |
| Gni.PatchFfmpegGeneratedGni | scripts/patch_ffmpeg_configs.py:302-336 | both loops and the insert-or-append give the text, count and warnings `PatchGni` specifies |
| Gni.PatchGniAdds | scripts/patch_ffmpeg_configs.py:329-336 | the count is the number of accepted sources; with none the text comes back unchanged; the accepted sources are distinct catalog sources present on disk, none listed before and all listed after, and every earlier source stays listed |
| Gni.PatchGniChangesIffAdded | scripts/patch_ffmpeg_configs.py:329-336 | the text changes exactly when the count is positive |
| Gni.PatchGniIdempotent | scripts/patch_ffmpeg_configs.py:302-336 | a second run on the output adds nothing and returns that output |
| Gni.SelectNothingLeft | scripts/patch_ffmpeg_configs.py:312-327 | once every accepted source and its basename is listed, a selection against the grown listing accepts nothing |
| ConfigFiles.Tree.ApplyPatch | scripts/patch_ffmpeg_configs.py:339-345 | the patcher's count and whether the text changed are returned; the file is rewritten with the new text only when it changed and check mode is off; otherwise, and when the patcher fails, no file changes |
| Pattern.Override | scripts/patch_chromium_media.py:55-99 | the count of rewritten returns is at most the length of the rest of the text; `OverrideNone` and `OverrideFirst` state what is rewritten |
| Pattern.OverrideNone | scripts/patch_chromium_media.py:65-67 | the count is zero exactly when no guarded return matches, and then the text is unchanged |
| Pattern.OverrideFirst | scripts/patch_chromium_media.py:55-99 | the first rewrite keeps everything before the return statement verbatim, labels and whitespace included, writes `return true;` in its place, and resumes after it |
| Pattern.GuardedAtSpec | scripts/patch_chromium_media.py:56-63 | a guarded match is the first alternative label run followed by the return statement; there is none exactly when no alternative is |
| Pattern.InsertAfterFirstPlaces | scripts/patch_chromium_media.py:139-166 | the insertion succeeds exactly when the pattern is found, and places the added text right after the leftmost match, keeping the rest of the text |
| Pattern.ReplaceFirstWrites | scripts/patch_chromium_media.py:172-198 | one replacement happens exactly when the pattern is found, and then the replacement text is in the result; otherwise the text is unchanged |
| SupportedTypes.PatchSupportedTypes | scripts/patch_chromium_media.py:24-132 | a failure carries one of the two missing-function messages or one of the two fallback messages; a success implies both support functions were found and records at most five change entries; the lemmas below state each step |
| SupportedTypes.SupportFunctionsRequired | scripts/patch_chromium_media.py:38-48 | without an audio support function the patch fails with the audio message; with one but without a video support function it fails with the video message |
| SupportedTypes.GuardsValid | scripts/patch_chromium_media.py:56-99 | every DTS, AC3/EAC3 and HEVC label alternative opens with `case`, so each match is non-empty |
| SupportedTypes.OverrideStepReports | scripts/patch_chromium_media.py:65-99 | a change entry is recorded exactly when some guarded return matched; its number reads back as the count of replaced statements; with no entry the text is unchanged |
| Fallback.Apply | scripts/patch_chromium_media.py:104-130 | a failure carries the insertion's own message; a success records at most one entry, never shortens the text, and with no entry leaves it unchanged |
| Fallback.ApplyFails | scripts/patch_chromium_media.py:104-130 | an insertion fails, with its own message, exactly when neither its guard nor its marker label is found |
| Fallback.ApplyInserts | scripts/patch_chromium_media.py:107-119 | without the guard, the lines go in at the start of the leftmost marker match, each at the marker's indentation; the text is kept on both sides and the entry recorded |
| Fallback.ApplyGuarded | scripts/patch_chromium_media.py:104-130 | with the guard present nothing is inserted and nothing recorded |
| Fallback.ApplySettles | scripts/patch_chromium_media.py:104-130 | after an insertion the guard is found, so a second run inserts nothing |
| SupportedTypes.AudioFallbackSettles | scripts/patch_chromium_media.py:104-119 | after the audio fallback a `case AudioCodec::kAC3:` exists, and rerunning it inserts nothing |
| SupportedTypes.HevcFallbackSettles | scripts/patch_chromium_media.py:122-130 | after the HEVC fallback a `case VideoCodec::kHEVC:` exists, and rerunning it inserts nothing |
| SupportedTypes.PatchedHasHevcCase | scripts/patch_chromium_media.py:24-132 | a successful patch leaves a `case VideoCodec::kHEVC:` label |
| FfmpegCommon.PatchFfmpegCommon | scripts/patch_chromium_media.py:135-200 | the patch fails only with the AAC or the H264 message; a success records at most one entry per step, four in all; the step lemmas below state each step |
| FfmpegCommon.Mapping | scripts/patch_chromium_media.py:146-161 | a written mapping names its codec ID |
| FfmpegCommon.AudioMappingStepSpec | scripts/patch_chromium_media.py:139-157 | the step keeps the text when all three IDs appear; otherwise it inserts the mappings right after the line break that ends the first AAC mapping block, and fails with the AAC message exactly when there is none; afterwards all three IDs appear |
| FfmpegCommon.HevcMappingStepSpec | scripts/patch_chromium_media.py:159-166 | the same for the HEVC mapping after the first H264 mapping block |
| FfmpegCommon.MappingStepsSettle | scripts/patch_chromium_media.py:139-166 | each mapping step, run on its own output, changes and records nothing |
| FfmpegCommon.VideoAllowlistSpec | scripts/patch_chromium_media.py:172-181 | the video allowlist is rewritten at most once, exactly when `"h264,hevc"` is absent and `return "h264";` is found; without a rewrite the text is unchanged; a second step changes nothing |
| FfmpegCommon.AudioAllowlistSpec | scripts/patch_chromium_media.py:187-198 | the audio allowlist is rewritten at most once, exactly when one of `,ac3`, `,eac3`, `,dca` is absent and the macro is found; a second step changes nothing |
| VideoDecoder.PatchVideoDecoder | scripts/patch_chromium_media.py:203-239 | the patch fails only with the H264 message and records at most two entries, one for the removal and one for the insertion |
| VideoDecoder.FindRemovable | scripts/patch_chromium_media.py:214-219 | a result is the leftmost line break followed by an HEVC label line that leads, through label lines, blanks and comments, to `NOTREACHED` |
| VideoDecoder.RemoveAtMostOne | scripts/patch_chromium_media.py:214-222 | at most one HEVC line is removed, exactly when one is removable: the leftmost, keeping the line break before it and all text after it; otherwise the text is unchanged |
| VideoDecoder.PatchVideoDecoderSpec | scripts/patch_chromium_media.py:203-239 | the patch fails with the H264 message exactly when, after the removal, neither HEVC-before-H264 nor an H264 label is found; each change entry is recorded exactly when its step happened; an already adjacent HEVC label is not inserted again |
| VideoDecoder.InsertionSettles | scripts/patch_chromium_media.py:225-237 | after the insertion the HEVC label directly precedes the H264 label, so a second insertion adds nothing |
| VideoDecoder.PatchedSharesBranch | scripts/patch_chromium_media.py:225-237 | a successful patch leaves HEVC directly before H264 |
| GlueDemuxers.PatchGlueDemuxers | scripts/patch_chromium_media.py:242-272 | the patch fails only with the aac message; a success records at most one entry, and records one exactly when the text changed |
| GlueDemuxers.Missing | scripts/patch_chromium_media.py:250-251 | a demuxer is missing exactly when it is one of `ac3`, `eac3`, `dts` and its `push_back("d")` is absent |
| GlueDemuxers.PatchGlueSpec | scripts/patch_chromium_media.py:253-266 | with nothing missing the text is kept and nothing recorded; otherwise the patch fails with the aac message exactly when no `"aac"` push_back line exists |
| GlueDemuxers.PatchGlueInserts | scripts/patch_chromium_media.py:253-270 | the missing demuxers' lines, at the `"aac"` line's indent, go in right after the leftmost `"aac"` line, which begins and ends a line |
| GlueDemuxers.PushLinesContain | scripts/patch_chromium_media.py:264-266 | every demuxer written is afterwards found by its `push_back` |
| GlueDemuxers.PatchedListsAll | scripts/patch_chromium_media.py:242-272 | after a successful patch all three demuxers' `push_back` calls appear |
| GlueDemuxers.PatchGlueSettles | scripts/patch_chromium_media.py:242-272 | a second run finds nothing missing and changes nothing |
| MediaPatch.SourceTree.BackupOnce | scripts/patch_chromium_media.py:18-21 | the backup is created from the file only when no backup exists; an existing backup is never overwritten |
| MediaPatch.SourceTree.AllTargetsExist | scripts/patch_chromium_media.py:295-298 | the check succeeds exactly when every target exists |
| MediaPatch.SourceTree.ComputeAll | scripts/patch_chromium_media.py:302-309 | every target is read and patched in order before any write; the first failing patch is the result |
| MediaPatch.SourceTree.WriteChanged | scripts/patch_chromium_media.py:325-329 | the write loop leaves the tree `WriteAll` specifies |
| MediaPatch.SourceTree.PatchMedia | scripts/patch_chromium_media.py:275-334 | status 1, with nothing written, exactly when a target is missing or a patch fails; otherwise status 0 and the summary of the changed files; dry runs and empty summaries write nothing; otherwise the tree becomes `WriteAll` of the planned edits |
| MediaPatch.SummaryOf | scripts/patch_chromium_media.py:311-313 | the summary is the change entries of the changed files, in target order |
| MediaPatch.ComputeFailsIff | scripts/patch_chromium_media.py:302-309 | computing fails exactly when some target's patch fails |
| MediaPatch.PlanFails | scripts/patch_chromium_media.py:295-309 | a missing target fails the plan; with all present it fails exactly when some patch fails |
| MediaPatch.ComputeEditsShape | scripts/patch_chromium_media.py:302-307 | the edits are the four targets in order, each holding the text read and what its patch returned |
| MediaPatch.PlanConsistent | scripts/patch_chromium_media.py:288-309 | a successful plan's edits read their files from the tree, touch distinct files, and no backup path is another target |
| MediaPatch.WriteAllWrites | scripts/patch_chromium_media.py:325-329 | after the writes every target holds its patched text (an unchanged one keeps its text) |
| MediaPatch.WriteAllKeepsOthers | scripts/patch_chromium_media.py:325-329 | a file no edit targets, existing backups included, keeps its content |
| MediaPatch.WriteAllBacksUp | scripts/patch_chromium_media.py:325-329 | every changed file has a backup afterwards, holding the original text when it is new and left as it was when it existed |
| MediaPatch.WriteAllAddsOnlyBackups | scripts/patch_chromium_media.py:325-329 | the only files the writes create are backups of edited files |
| MediaPatch.TargetsApart | scripts/patch_chromium_media.py:288-293 | the four targets are distinct, and no target's backup path is a target |

## Left out

- Command-line parsing, `print` output and the messages of both `main` functions are not modelled. `MediaPatch.SourceTree.PatchMedia` returns the exit status and the summary lines; the FFmpeg config `main` is not modelled.
- The FFmpeg config `main`'s iteration over the platform directories of `TARGETS` is left out. It is filesystem discovery, and so are its warnings about missing directories and the list-file paths it visits. `ConfigFiles.Tree.ApplyPatch` is the per-file step it repeats.
- `find_chrome_branding_blocks` and `IF_BLOCK_RE` are not modelled. Nothing calls them, and they rely on a non-greedy DOTALL regular expression. The brace scanner they would use, `find_block_end`, is modelled.
- File I/O is abstract. `read_text` and `write_text` are reads and updates of a `map` from path to content, with UTF-8 decoding left out. `Path.is_file` is a predicate parameter. `exists` on a target or a backup is map membership. `shutil.copy2` copies the content only; timestamps and permissions are not modelled.
- MediaPatch.BackupPath: `path.with_suffix(path.suffix + ".orig")` is modelled as appending `.orig`. This agrees on every target, since each has a suffix.
- Gni.BaseName: `Path(source).name` is taken as the part after the last `/`. Path normalisation (`.`, `..`, repeated or trailing slashes) is not modelled.
- The catalogs `CONFIG_FLAGS`, `CODEC_LIST_ENTRIES`, `PARSER_LIST_ENTRIES`, `DEMUXER_LIST_ENTRIES` and `EXTRA_GNI_SOURCES` are parameters. Where a proof needs it, entries and flags are assumed to be tokens (non-empty, no whitespace) and sources to be `.c` paths without quote or line break. Every catalog entry has that shape.
- ConfigComponents.DefineZeroAt: the match is taken within one line. Under `re.MULTILINE` on the whole text, the script's `\s` runs may cross a line break, so it would also flip `#define CONFIG_X\n0`; the model does not. Generated config headers keep each define on one line.
- ListFile.Missing: an entry counts as present only when `&ff_x,` stands on one line. The script's `\s*` around the entry may cross line breaks, so it also accepts an entry split as `&ff_x\n,`. Generated list files keep each entry on one line.
- ListFile.HasEntry: the same one-line reading as `ListFile.Missing`, for the presence test of one entry.
- The Python regular-expression engine is not modelled. Each pattern is a fixed matcher written for its anchor. `\s` is ASCII whitespace, and `\w`/`\b` use ASCII letters, digits and `_`; Unicode whitespace and word characters are not modelled. A group repeated with `*` is matched greedily (`Pattern.Repeat`). This agrees with backtracking wherever the scripts repeat a group, because what follows the group cannot start where the group matches.
- `splitlines(keepends=True)` is modelled as splitting after each `\n`. The other separators Python also breaks on (`\r` alone, `\v`, `\f`, `\x1c`-`\x1e`, `\x85`, `\u2028`, `\u2029`) are not modelled. For text using `\n` or `\r\n` line breaks, both agree.
- ListFile.PatchListFile: the `"    "` indent fallback of `patch_list_file` is not modelled. `ListFile.NullLineIndent` shows it can never be taken.
- Gni.FindEntryIndent: the `"  "` indent fallback of `insert_into_managed_gni_block` is not modelled. `Gni.EntryIndentBlank` shows `^(\s*)\]` always matches a `]` line, so it can never be taken.
- GlueDemuxers.PatchGlueDemuxers: the `"    "` indent fallback is not modelled, because `^(\s*)` always matches. The indent is the `[ \t]*` run at the start of the match, which is where `\s*` stops, at `allowed_demuxers`.
- Gni.PatchGniAdds: proves that every source listed before stays listed. It does not prove that no other source appears; the added marker, `if` and bracket lines are not entry lines.
- Exceptions other than the script's own `RuntimeError`s are not modelled; an `OSError` raised while reading or writing is one example.
