# Ulaavi asset library: a Dafny model

Ulaavi is an asset browser for compositing work. Users file footage, images,
image sequences and Nuke templates under groups and `|`-separated category
paths. Each file gets a small `.mov` or `.png` proxy and a thumbnail made with
ffmpeg, and is shown in a thumbnail table that can be filtered by type, tag
and search text.

This project models the non-UI core of that program as pure Dafny functions
over immutable values, and proves properties about them. It covers five areas.

- **The document store** (`Document`, `Handler`, `Preferences`, `ToolData`).
  - The JSON document `{group: {category: [record]}}` and its tag registry.
  - Adding, tagging, removing and renaming categories and records.
  - The `[SETTINGS]` preferences section.
  - The `Data` facade the UI reads through, including its stale view after a rename.
- **Proxy paths and drop scanning** (`Utilities`, `ParseData`).
  - Where a source's proxy lives.
  - What a dropped file or folder turns into.
  - The checked variant and the pure variant.
- **The conversion job** (`Commands`, `ConvertMov`).
  - The ffmpeg and ffprobe argument lists.
  - The probe fallback.
  - The per-kind plans: video, image sequence, image.
  - The trace of commands, signals and the thumbnail rename that a run produces.
- **Pure logic inside widgets** (`CategoriesTree`, `ThumbnailGrid`).
  - Category path strings.
  - The default `New_Item_NN` name.
  - The root guards on rename and delete.
  - The existence test by pattern.
  - The grid-placement state machine.
  - The overlay tag list.
- **The first-version store** (`LegacyStore`, `DataFile`, `Container`).
  - The nested-dict database edits.
  - The `data.json` handler with its memoised read.
  - The thumbnail-table filters, cell positions and GIF job.

Shared vocabulary lives in small modules:

- `Wrappers`: Option, Result and the Python exceptions.
- `Strings`: Python `str` operations.
- `Seqs`.
- `Dicts`: Python dicts as insertion-ordered association lists.
- `Numerals`: `int()` and `str()` of integers, and `zfill`.
- `Paths`: `os.path`.
- `Config`: the format tuples.
- `Media`: metadata values.
- `CategoryPattern`: the `^C(\|.*)?$` key pattern.
- `Replacement`: how `re.sub` reads its replacement text as a template, following Python 3.12's `re`.

An operation that raises in Python returns `Err(e)` with the exception it
raises. An operation that changes state returns the new state.

The filesystem, subprocesses, the clock and `clique` are parameters:

- the existence test of a path;
- ffprobe's report;
- what each ffmpeg process wrote to stdout and stderr;
- the timestamp text;
- the grouped directory listing.

## Model

| member | source | states |
|---|---|---|
| Document.SetGroupWellFormed | data/_handler.py:148-155 | replacing one group of a document by a dict with distinct keys keeps every dict of the document key-unique, the invariant every write preserves |
| Replacement.Parse | data/_handler.py:243-244 | `re.sub` reads the new name as a template: escapes, references to group 0 or 1, and `re.error` or IndexError for an ill-formed one |
| Replacement.QuoteParses | data/_handler.py:243-244 | a text with every backslash doubled reads back as exactly that text, for every match |
| Replacement.PlainParses | data/_handler.py:243-244 | a new name without backslashes is inserted literally, whatever the match |
| Replacement.SimpleEscapeParses | data/_handler.py:243-244 | `\a \b \f \n \r \t \v \\` between plain texts each stand for their one character |
| Replacement.BadEscapeRaises | data/_handler.py:243-244 | a backslash before any other ASCII letter but `g` raises `re.error` |
| Replacement.TailReference | data/_handler.py:243-244 | a plain text followed by `\1` gives that text followed by group 1 |
| Replacement.TabEscape | data/_handler.py:243-244 | the new name `C:\temp` gives `C:`, a tab, then `emp` |
| Replacement.BadEscape | data/_handler.py:243-244 | the new name `C:\data` raises `re.error` |
| Replacement.GroupRef | data/_handler.py:243-244 | the pattern has one group, so a reference is valid exactly for groups 0 and 1 |
| Replacement.NamedGroup | data/_handler.py:243-244 | `\g<n>` with ASCII digits refers to group n; any other name is an error, IndexError for an identifier |
| Replacement.EscapePiece | data/_handler.py:243-244 | a known escape gives its character, an unknown ASCII-letter escape raises, any other escaped character is kept with its backslash, and a lone `\1` refers to group 1 |
| CategoryPattern.Substitute | data/_handler.py:243-244 | `re.sub` with the escaped pattern: a non-matching key is returned as is; a matching key becomes the template's text for the match, with the final newline the match stops before kept |
| CategoryPattern.MatchesNewlineFree | data/_handler.py:221 | for names with no other metacharacters, the pattern `^C(\|.*)?$` matches a newline-free key iff the key is the category or starts with `C|` |
| CategoryPattern.SubstituteDescendant | data/_handler.py:243-244 | a descendant key `C|rest` is renamed to the template's text with the whole key as group 0 and `|rest` as group 1 |
| CategoryPattern.SubstitutePlainDescendant | data/_handler.py:243-244 | with a new name without backslashes, a descendant is renamed to exactly the new name and its suffix is dropped |
| CategoryPattern.SubstituteTailDescendant | data/_handler.py:243-244 | with a new name ending in `\1`, a descendant `C|rest` keeps its suffix and becomes `a|rest` |
| Preferences.RootPath | data/_handler.py:349 | the root path is the home directory with every backslash turned into `/`, followed by `/Documents/ulaavi`; it holds no backslash |
| Preferences.RootPathOfPosixHome | data/_handler.py:349 | a home directory without backslashes is kept verbatim in front of `/Documents/ulaavi` |
| Preferences.IntOption | data/_handler.py:375-378 | `int(section.get(key))` succeeds iff the option exists and parses; a missing option raises TypeError |
| Preferences.Attributes | data/_handler.py:373-378 | the settings read are the proxy and data texts and the four integers parsed from their options; any missing or non-integer option fails the read |
| Preferences.DefaultAttributes | data/_handler.py:433-445 | the defaults read back as proxy `root/proxy`, data `root/data.json`, thread count 4, width 520, height 300, thumbnail 1 |
| Preferences.DefaultValues | data/_handler.py:433-445 | the six default options have distinct names, so the section they make is well formed |
| Preferences.Load | data/_handler.py:341-420 | a missing preferences file is written with the defaults before reading; a file without a SETTINGS section raises KeyError; the settings are always the attributes of the section read |
| Preferences.Merge | data/_handler.py:402-403 | every supplied option takes the last value supplied for it, every other option keeps its value |
| Preferences.ReadInto | data/_handler.py:361-377 | `_update_attributes` assigns proxy and data, then the four integers in order; it raises exactly when reading the section fails, and the attributes after the failing one keep their old values |
| Preferences.Update | data/_handler.py:394-406 | `update` always leaves the merged section written; it raises exactly when the attributes of that section cannot be read, and proxy and data are re-read either way |
| Preferences.UpdateFailureSticks | data/_handler.py:341-406 | after a failed `update` the file holds a section that makes every later `Preferences()` raise the same exception |
| Preferences.UpdateEmptyThreadCount | data/_handler.py:394-406 | an emptied thread-count field raises ValueError, yet the empty option is stored and the old thread count stays |
| Preferences.UpdateThreadCount | data/_handler.py:375-406 | setting thread_count to the text of `n` reads back as `n` |
| Preferences.MergeOne | data/_handler.py:402-403 | a single supplied lower-case option reads back as the value given |
| Handler.ResetGroup | data/_handler.py:148-149 | a group given without a category becomes an empty map whatever it held; every other group and the tag registry are unchanged |
| Handler.SetCategory | data/_handler.py:154-155 | assigning a category's list fails with KeyError exactly when the group is missing; otherwise the category holds the new list and nothing else changes |
| Handler.LookupItems | data/_handler.py:158 | reading `data[group][category]` succeeds exactly when both keys exist and raises KeyError naming the first missing key |
| Handler.AppendRecord | data/_handler.py:151-152 | a record without a tag is appended at the end of an existing category; every other category and group is unchanged |
| Handler.TagRecord | data/_handler.py:158-161 | one record of the tag loop: source, proxy and metadata unchanged; it carries the tag afterwards iff it did before or its source is listed; old tags keep their order; tag lists stay duplicate-free |
| Handler.TagCategory | data/_handler.py:157-161 | the tag branch changes only the named category, record by record as TagRecord, keeping the number and order of records |
| Handler.RegisterTag | data/_handler.py:163-165 | the registry gains the tag only when it is absent, at the end, and stays duplicate-free |
| Handler.UpdateData | data/_handler.py:144-165 | `update_data` dispatch: KeyError for an empty group with data type "data" before any change; the group reset, append, category reset and tag branches in the source's order; the registry branch for "tags"; no change otherwise |
| Handler.Sweep | data/_handler.py:182-193 | the `remove_data` loop never adds records; with a tag it keeps every record |
| Handler.SweepUntags | data/_handler.py:188-191 | with a non-empty tag every record stays in place and loses exactly one copy of the tag, whether or not its source is listed |
| Handler.SweepEmptyTag | data/_handler.py:185-193 | an empty tag is neither None nor true, so the sweep keeps every record unchanged |
| Handler.SweepDeletesListed | data/_handler.py:184-186 | without a tag the sweep is the order-preserving filter of the records whose source is not listed |
| Handler.RemoveData | data/_handler.py:169-195 | `remove_data` fails with KeyError when the group or category is missing; otherwise only that category changes and it holds the sweep of its records |
| Handler.RemoveGroup | data/_handler.py:217-218 | popping a group removes exactly that group and raises KeyError when it is absent |
| Handler.RemoveCategory | data/_handler.py:219-222 | removing a category deletes exactly the keys equal to it or below it (`category|...`); other keys and groups are unchanged; a missing group raises AttributeError |
| Handler.RemoveKey | data/_handler.py:198-225 | `remove_key` dispatch: group pop, category removal, or removal of a registered tag; an unregistered tag or another data type changes nothing |
| Handler.Rename | data/_handler.py:240-246 | the `update_key` loop yields a valid dict in which each key holds the value of the last original key that renames to it |
| Handler.UpdateKey | data/_handler.py:229-248 | `update_key` raises KeyError for a missing group, and the template's error for a new name `re` rejects when the group has categories; otherwise only that group changes, to the renamed dict |
| Handler.UpdateKeyBadEscape | data/_handler.py:229-248 | renaming to `C:\data` in a group with categories raises `re.error` |
| Handler.RenameKeepsUnrelated | data/_handler.py:242-246 | a key that does not match the old name, and that no matching key is renamed to, keeps its value |
| Handler.RenameMatchedIsLast | data/_handler.py:242-246 | when several keys rename to the same key, the value of the last of them in iteration order wins |
| Handler.RenameDropsDescendants | data/_handler.py:243-244 | with a new name without group references, no key equal to the renamed category or below it survives the rename, including the keys the group already holds: every one of them is rewritten to the new name |
| Handler.DataByKey | data/_handler.py:285-298 | a missing group reads as an empty map; with a category the category's records, or None when absent |
| Handler.IsCategoryItemExists | data/_handler.py:300-311 | true iff the group and category exist and the category holds at least one record |
| Handler.EmptiedCategoryNotExists | data/_handler.py:311 | a category that exists but was emptied reports as not existing |
| Handler.AppendedCategoryExists | data/_handler.py:151-152 | after a record is appended the category reports as existing |
| ToolData.Init | data/tool_data.py:54-62 | the facade starts viewing the loaded document's data and its tag list |
| ToolData.Groups | data/tool_data.py:64-73 | `groups()` lists every group of the viewed dict exactly once and nothing else; an empty dict lists nothing |
| ToolData.Categories | data/tool_data.py:128-139 | `categories(group)` lists each category key of the group exactly once; a missing group lists nothing |
| ToolData.AddGroup | data/tool_data.py:75-82 | adding a group succeeds iff the name is non-empty and leaves it empty in the store |
| ToolData.RemoveGroup | data/tool_data.py:84-91 | removing a group succeeds iff it exists and it is gone afterwards |
| ToolData.AddCategory | data/tool_data.py:93-102 | the category is created empty, replacing any records; an empty category name resets the whole group; an empty group raises |
| ToolData.RenameCategory | data/tool_data.py:104-115 | renaming applies the store's `update_key`, raising what it raises, and leaves the facade holding the dict it saw just after the rename, which later edits no longer reach |
| ToolData.StaleAfterRename | data/tool_data.py:61 | after a rename a newly added group is in the store but not in `groups()` |
| ToolData.RenameCategoryFresh | data/tool_data.py:104-115 | the corrected rename keeps the facade on the store's live dict and renames, or raises, as `update_key` does |
| ToolData.FreshAfterRename | data/tool_data.py:64-82 | with the corrected rename, a group added afterwards is listed by `groups()` |
| ToolData.RemoveCategory | data/tool_data.py:117-126 | the category and every key below it go; an empty category removes the whole group |
| ToolData.AddProxyData | data/tool_data.py:141-160 | the returned record is the untagged record built from the arguments and it is appended at the end of an existing category |
| ToolData.ThumbnailData | data/tool_data.py:162-189 | KeyError for a missing group; a missing category lists nothing; otherwise exactly the records carrying the tag (if given) whose file name contains the search case-blind (if given) |
| ToolData.ThumbnailDataIsFilter | data/tool_data.py:177-189 | the result is the order-preserving filter of the category's records by tag and search |
| ToolData.RemoveData | data/tool_data.py:191-202 | the listed records are deleted and the rest keep their order |
| ToolData.CreateTag | data/tool_data.py:214-222 | the stored registry gains a non-empty tag at most once; the cached tag list gains it on every call |
| ToolData.CreateTagTwice | data/tool_data.py:221-222 | creating a registered tag again leaves the cached list holding it twice |
| ToolData.AddTag | data/tool_data.py:224-237 | tagging marks the listed records of the category; with an empty tag the store's category-reset branch fires and the category is emptied |
| ToolData.RemoveTag | data/tool_data.py:239-252 | the tag is stripped from every record of the category carrying it, listed or not |
| ToolData.Refresh | data/tool_data.py:267-275 | the facade views exactly the dict read back from the data file; the cached tag list is not re-read |
| ToolData.RefreshListsReadGroups | data/tool_data.py:267-275 | after a refresh the groups and the categories listed are those of the document read, whatever the facade held before |
| ToolData.IsCategoryExists | data/tool_data.py:254-265 | a category exists exactly when the store holds a non-empty record list under it |
| Utilities.ProxyThumbnail | _utilities.py:87-108 | no proxy or an empty one gives None; a name not ending in `.mov` is returned as is; a `.mov` name has every `.mov` replaced by `.png` |
| Utilities.ProxyThumbnailOfStem | _utilities.py:106-107 | a `.mov` proxy whose stem holds no other `.mov` has the thumbnail `stem.png` |
| Utilities.ProxyDir | _utilities.py:237-239 | the proxy directory is `root/group/` followed by the category's segments below the top, with no `|` left in them |
| Utilities.ProxyDirTopLevel | _utilities.py:237-239 | a top-level category leaves the middle directory empty: the proxy sits at `root/group//name` |
| Utilities.ProxyDirSegments | _utilities.py:237 | the proxy directory of a nested category holds its segments after the first, recoverable by splitting on `/` |
| Utilities.ProxyName | _utilities.py:239 | `basename(splitext(source)[0])`: the last `/`-free segment of the source without its extension, the whole stem when it holds no `/` |
| Utilities.ProxySuffix | _utilities.py:241-245 | `.mov` for sequences and videos, `.png` for images, no extension for anything else |
| Utilities.ProxyPath | _utilities.py:205-248 | None exactly when a file already exists at the derived path; otherwise that path with backslashes turned into slashes |
| Utilities.ProxyPathShape | _utilities.py:241-248 | a derived proxy path holds no backslash and ends with the extension its source calls for |
| Utilities.CollectionEntry | _utilities.py:191-196 | a collection is yielded iff the text before ` [` names an image format, as `directory/head` with its range |
| Utilities.CollectionRoundTrip | _utilities.py:191-196 | a collection printed as `head [range]` gives back exactly its head and range |
| Utilities.ImageSequence | _utilities.py:188-202 | every sequence entry comes from a collection and every collection naming an image gives its entry; the loose entries are exactly the remainders, under the directory, that are images or videos |
| Utilities.DroppedFiles | _utilities.py:111-164 | a missing path gives nothing; a file gives one tuple exactly when it has no proxy yet; a directory gives a tuple for each collection and each remainder without a proxy, and nothing else |
| Utilities.ScanEntries | _utilities.py:151-164 | every tuple comes from an entry without a proxy (a sequence as `head range` with the flag set, a loose file as its path), and there are no more tuples than entries |
| Utilities.ScanEntriesComplete | _utilities.py:151-164 | every sequence and every loose file whose proxy does not exist yet gives its tuple |
| Utilities.SourceFilePathAsWritten | _utilities.py:296-299 | as written, every path not starting with a space is returned unchanged, because `re.match` anchors the pattern at the start |
| Utilities.SourceFilePathAsWrittenKeepsSequence | _utilities.py:296-299 | as written, a sequence text `path start-end` comes back unchanged where the documented result is the path's directory |
| Utilities.SourceFilePathAsWrittenEmpty | _utilities.py:296-297 | as written, the only texts the anchored pattern matches give the empty string |
| Utilities.SourceFilePath | _utilities.py:279-299 | a path not ending in a frame range is returned as is; otherwise the directory of the text before the last space |
| Utilities.SearchMatches | _utilities.py:296 | `re.search` of ` \d{1,9}-\d{1,9}$` finds a match when some space is followed by a frame range running to the end of the path |
| Utilities.SearchMatchesIff | _utilities.py:296-297 | `re.search` of ` <frame range>$` finds a match exactly when the path ends in a space and a frame range |
| Utilities.SourceFilePathSearched | _utilities.py:296-299 | with the search fixed but the cut as written, a path ending in a frame range gives the directory of the text before the first space |
| Utilities.SearchedOfSequence | _utilities.py:296-299 | for a sequence path without spaces, the search fix alone yields the directory of the sequence head, as the full correction does |
| Utilities.SearchedCutsAtFirstSpace | _utilities.py:297 | with `rsplit(' ')[0]`, a path holding a space before its range loses everything from the first space; cutting at the last space keeps it |
| Utilities.SearchedCutsSpacedPath | _utilities.py:297 | `/shots/fire plate/a.exr 1-2` gives `/shots` with the first-space cut and `/shots/fire plate` with the last-space cut |
| Utilities.SourceFilePathOfSequence | _utilities.py:281-284 | corrected: for a sequence text `path start-end` the result is the path's directory |
| ParseData.ProxyPathPure | _parse_data.py:59-74 | the pure derivation: None iff the source is neither a sequence, a video nor an image; otherwise the `.mov` or `.png` path in the category's proxy directory |
| ParseData.PureAgreesWithChecked | _parse_data.py:59-74 | where no proxy exists yet and no backslash is involved, the pure and the checked derivations name the same path |
| ParseData.ProxyForFile | _parse_data.py:34-38 | a single file always yields its tuple with flag false, even when no proxy can be derived |
| ParseData.ScanEntry | _parse_data.py:24-31 | a sequence entry yields `head range` with its `.mov` proxy and flag true; a loose entry goes through the single-file rule |
| ParseData.DroppedFilesPure | _parse_data.py:16-31 | nothing for a missing path, one tuple for a file, one tuple per scanned entry for a directory |
| ParseData.DirectoryDropsNameProxies | _parse_data.py:41-74 | every tuple a directory scan yields names a proxy, because the scan keeps only supported entries |
| ParseData.ProxyPathAsWritten | _parse_data.py:66-74 | as written, a non-sequence source raises AttributeError on the undefined lower-case `supported_video_formats` |
| ParseData.DroppedFilesAsWritten | _parse_data.py:16-56 | as written, a dropped file always raises, and a directory raises iff it has any entry |
| ParseData.DroppedFileFailsAsWritten | _parse_data.py:20-66 | every dropped file fails as written, while the configured tuples yield exactly one tuple for it |
| Commands.ParseScaleOfScale | conversion/_commands.py:41 | the scale filter every builder writes reads back as exactly the two resolutions it was built from |
| Commands.VideoArgs | conversion/_commands.py:31-45 | the video argument list: 15 arguments from `ffmpeg` to `-hide_banner`, the source after `-i`, the output second to last, no start number |
| Commands.ConvertVideo | conversion/_commands.py:9-45 | the video command: 15 arguments, the source after `-i`, `-movflags faststart`, the scale filter after `-vf`, the frame rate and the output last but one |
| Commands.VideoCommandOptions | conversion/_commands.py:9-45 | ffmpeg reads the source after `-i`, the scale filter of the two resolutions after `-vf`, and the frame rate after `-r` |
| Commands.SequenceInputCut | conversion/_commands.py:73 | `rsplit(' ', 1)[0]`: a text without a space is kept; otherwise the result is everything before the last space |
| Commands.SequenceInput | conversion/_commands.py:73 | `rsplit(' ', 1)[0]`: a text without a space is kept; otherwise the result is the prefix before the last space, so no space follows it |
| Commands.ConvertImageSequence | conversion/_commands.py:48-89 | the sequence command: 15 arguments, the start number, the cut input after `-i`, the scale filter after `-vf`, the frame rate and the output |
| Commands.SequenceArgs | conversion/_commands.py:75-89 | the sequence argument list: 15 arguments, the start frame after `-start_number`, the input after `-i`, the output second to last |
| Commands.SequenceCommandOptions | conversion/_commands.py:48-89 | ffmpeg reads the start frame, the input cut at the last space, and pixel format yuv420p |
| Commands.SequenceCommandNoFastStart | conversion/_commands.py:36-89 | a sequence command carries no `-movflags`, unlike the video command |
| Commands.SequenceCommandInput | conversion/_commands.py:73-79 | for a sequence text `path range` the input ffmpeg reads is the path alone |
| Commands.ImageArgs | conversion/_commands.py:108-114 | the image argument list: 7 arguments, the source after `-i`, the output second to last |
| Commands.ConvertImage | conversion/_commands.py:92-114 | the image command: 7 arguments, the source after `-i`, the scale filter after `-vf`, the output last but one |
| Commands.ImageCommandOptions | conversion/_commands.py:92-114 | ffmpeg reads the source after `-i` and the scale filter after `-vf` |
| Commands.ProbeCommand | conversion/_commands.py:127-136 | the probe list: 10 arguments from `ffprobe`, the source second to last |
| Commands.ProbeCommandOptions | conversion/_commands.py:117-136 | ffprobe reads the source after `-i`, JSON output format and log level 0 |
| Commands.ExtractArgs | conversion/_commands.py:161-173 | the extraction list: 13 arguments, the time after `-ss`, the source after `-i`, the output second to last |
| Commands.ExtractImage | conversion/_commands.py:139-173 | the extraction command: 13 arguments, the time after `-ss`, the source after `-i`, one frame, the scale filter, the output last but one |
| Commands.ExtractCommandOptions | conversion/_commands.py:139-173 | ffmpeg seeks to the time, reads the source, and writes exactly one frame |
| ConvertMov.Argv | conversion/_commands.py:31-45 | the command line of each planned command: only the extraction seeks, and every command writes its output second to last |
| ConvertMov.ParseInts | conversion/convert_mov.py:70 | `map(int, ...)` succeeds exactly when every part is an integer, keeping each value in order; otherwise ValueError |
| ConvertMov.GetFps | conversion/convert_mov.py:61-71 | a rate reads as a number exactly when its first two `/`-parts are integers and the second is non-zero; a zero denominator raises ZeroDivisionError |
| ConvertMov.GetFpsOfRatio | conversion/convert_mov.py:61-71 | a rate written `n/d` with `d != 0` reads back as `n / d` |
| ConvertMov.FileMetadata | conversion/convert_mov.py:30-58 | no probe output, or an empty report, gives the defaults `(0, 24, 1, None, None)`; a report without `streams` raises KeyError and an empty stream list IndexError; a result's rate and time are numbers |
| ConvertMov.FileMetadataOfStream | conversion/convert_mov.py:50-58 | the first stream decides the tuple: frame count (1 without one), size, frame rate (KeyError without one), half the duration rounded down (0 without one) |
| ConvertMov.Round2 | conversion/convert_mov.py:133 | the frame rate kept to two decimals lies within half a hundredth of the rate |
| ConvertMov.ThumbnailPath | conversion/convert_mov.py:180 | the thumbnail is the output's stem followed by `.png`; it is the output itself exactly when the output is a `.png` |
| ConvertMov.RenderFailed | conversion/convert_mov.py:258-264 | `_execute_render_command` fails exactly when the process wrote to stderr and nothing to stdout; with stderr merged into stdout it never fails (MergedStderrCompletes) |
| ConvertMov.ThumbnailFailed | conversion/convert_mov.py:284-289 | `_generate_thumbnail` fails whenever the process wrote to stderr, whatever it wrote to stdout |
| ConvertMov.Execute | conversion/convert_mov.py:169-247 | a missing output is encoded first; a failed encode leaves exactly its command and its error report |
| ConvertMov.FinishIsQuiet | conversion/convert_mov.py:189-247 | the finish of a job issues no command and reports no error |
| ConvertMov.ExecuteEvents | conversion/convert_mov.py:169-247 | every event of a trace is the encode (only when the output was missing), the extraction, an error report, or part of the finish |
| ConvertMov.FailedExecuteReportsOnly | conversion/convert_mov.py:169-247 | a failed step leaves only commands and error reports: nothing of the finish |
| ConvertMov.SucceededExecuteFinishes | conversion/convert_mov.py:169-247 | without a failure the trace is commands followed by the whole finish |
| ConvertMov.ExistingOutputSkipsEncode | conversion/convert_mov.py:182-240 | an existing output is not encoded again: the extraction is the only command left |
| ConvertMov.SucceededEndsWithFinish | conversion/convert_mov.py:249-292 | when neither process writes to stderr the trace ends with the plan's last event |
| ConvertMov.CompletionIsLast | conversion/convert_mov.py:190-247 | a completion, if present, is the trace's last event, and no step failed |
| ConvertMov.CompletionMeansSuccess | conversion/convert_mov.py:186-228 | a trace holding a completion had no failure |
| ConvertMov.FirstPadding | conversion/convert_mov.py:224 | the first match of `%\d{2}d`: a match at that index and none before it |
| ConvertMov.SplitPadding | conversion/convert_mov.py:224 | `re.split(r"%\d{2}d", s)` always yields at least one part |
| ConvertMov.TempNameUnpadded | conversion/convert_mov.py:223-224 | a thumbnail name without frame padding is its own temporary name |
| ConvertMov.TempName | conversion/convert_mov.py:223-224 | a name without frame padding is kept as it is |
| ConvertMov.TempNameEnds | conversion/convert_mov.py:223-224 | the temporary name starts with the text before the first padding and ends with the text after the last |
| ConvertMov.TempNamePadded | conversion/convert_mov.py:223-224 | a padded thumbnail name gets the `_$$$$<stamp>_` marker in place of its padding |
| ConvertMov.EncodeSequenceAsWrittenCutsPath | conversion/convert_mov.py:157-218 | as written, a sequence under a directory whose name holds a space loses everything after that space in the encode's input |
| ConvertMov.EncodeSequence | conversion/convert_mov.py:153-218 | the intended encode reads the sequence from its source with only the range cut off |
| ConvertMov.EncodeSequenceAsWritten | conversion/convert_mov.py:157-218 | as written, the builder cuts the already cut base again, so the input is the base before its last space |
| ConvertMov.ToInt | conversion/convert_mov.py:162 | `int(t)` succeeds exactly when the text parses as an integer, and then yields that integer; otherwise ValueError |
| ConvertMov.SplitSequence | conversion/convert_mov.py:157-158 | the three parts of a split rebuild the text as `path start-end`; a text without a space raises ValueError |
| ConvertMov.NumeralValue | conversion/convert_mov.py:162 | `int(t)` of a frame number is its decimal value |
| ConvertMov.RangeHasNoSpace | conversion/convert_mov.py:157 | `start-end` of two frame numbers holds no space |
| ConvertMov.RangeSplit | conversion/convert_mov.py:158 | `start-end` of two frame numbers splits at its dash |
| ConvertMov.RangeRSplit | conversion/convert_mov.py:157 | `path start-end` splits at its last space into the path and the range |
| ConvertMov.SplitSequenceOf | conversion/convert_mov.py:157-158 | `path start-end` splits back into its three texts, whatever spaces the path holds |
| ConvertMov.MetadataOf | conversion/convert_mov.py:133-137 | the metadata dict: the rate within half a hundredth, frames, size and format as given |
| ConvertMov.VideoPlan | conversion/convert_mov.py:169-190 | video: encode the source, extract the thumbnail beside the output at the probed time, then complete |
| ConvertMov.SequencePlan | conversion/convert_mov.py:192-228 | sequence: encode from the start frame, extract under the temporary name, rename it to the thumbnail, complete |
| ConvertMov.ImagePlan | conversion/convert_mov.py:230-247 | image: encode and complete, with no extraction |
| ConvertMov.ProcessVideo | conversion/convert_mov.py:128-139 | a video plan encodes, extracts, and finishes with a single completion of the job's output |
| ConvertMov.ProcessImage | conversion/convert_mov.py:141-151 | an image plan encodes the source to the output, never extracts, and finishes with a single completion |
| ConvertMov.ProcessSequence | conversion/convert_mov.py:153-167 | a sequence plan extracts, renames the temporary thumbnail to the path beside the output, then completes |
| ConvertMov.SequenceFromTexts | conversion/convert_mov.py:159-167 | the plan exists exactly when the frame count parses; it renames the temporary thumbnail, then completes |
| ConvertMov.FrameCount | conversion/convert_mov.py:162 | `int(end) - int(start) + 1`, with the end's ValueError taking precedence |
| ConvertMov.Process | conversion/convert_mov.py:113-126 | every plan the intended dispatch builds is sound and ends in the completion of the job's output |
| ConvertMov.Run | conversion/convert_mov.py:113-126 | an unsupported source does nothing; a supported one emits at least one event; a crash report is always the whole trace |
| ConvertMov.RunOfError | conversion/convert_mov.py:113-126 | a failure to build the plan (probe, frame rate, sequence text) ends the job with exactly that one crash report |
| ConvertMov.ExecuteNeverCrashes | conversion/convert_mov.py:169-247 | carrying out a sound plan emits at least one event and no crash report |
| ConvertMov.RunAsWritten | conversion/convert_mov.py:109-119 | `run` as written neither issues a command nor completes |
| ConvertMov.RunAsWrittenNeverConverts | conversion/convert_mov.py:109-119 | as written no job issues a command, while a working video job completes under the intended dispatch |
| ConvertMov.UnsupportedIsSilent | conversion/convert_mov.py:119-126 | a source that is no sequence and matches no format produces nothing |
| ConvertMov.FailedEncodeStops | conversion/convert_mov.py:186-245 | a failed encode ends the job after its command and error report |
| ConvertMov.EncodeOnlyWhenMissing | conversion/convert_mov.py:182-240 | the encode is issued exactly when the output file is missing, and then first |
| ConvertMov.CompletionComesLast | conversion/convert_mov.py:189-247 | a completion comes last, names the output and the `.png` beside it, and follows the extraction of a video or the rename of a sequence's thumbnail |
| ConvertMov.MergedStderrCompletes | conversion/convert_mov.py:258-292 | with stderr merged into stdout nothing is reported as failed, and a run that raised nothing ends in its completion |
| ConvertMov.ImageNeverExtracts | conversion/convert_mov.py:230-247 | an image job's only command is the image encode |
| ConvertMov.SequencePlanOf | conversion/convert_mov.py:153-167 | the plan for `path start-end`: the frames counted and the path's suffix as the format |
| ConvertMov.SequenceTextsOf | conversion/convert_mov.py:157-159 | a sequence job on `path start-end` goes on with its three texts and the probe of the path |
| ConvertMov.FrameCountOf | conversion/convert_mov.py:162 | two frame numbers count the frames from the first to the last, both included |
| ConvertMov.ProcessSequenceOf | conversion/convert_mov.py:153-167 | a sequence whose text splits and whose probe succeeds goes on with those texts and that probe |
| ConvertMov.SequenceFromTextsOf | conversion/convert_mov.py:161-167 | with both numbers parsed, the plan counts `end - start + 1` frames and takes the path's suffix as the format |
| ConvertMov.SequenceMetadata | conversion/convert_mov.py:161-165 | a sequence `path start-end` completes with `end - start + 1` frames and the path's suffix as its format |
| ConvertMov.SequencePlanEnds | conversion/convert_mov.py:192-228 | with both processes quiet a sequence's trace ends in its completion |
| ConvertMov.RunOfPlan | conversion/convert_mov.py:113-126 | once a plan is built, the run is its execution |
| CategoriesTree.UserData | ui/_categoriesTree.py:196-218 | no item gives None; a top-level item gives `category` itself |
| CategoriesTree.PathOf | ui/_categoriesTree.py:338-347 | an item's path is `user_data` of its own text |
| CategoriesTree.UserDataOfChild | ui/_categoriesTree.py:207-218 | the path a child gives `category` is its parent's path, `|`, then `category` |
| CategoriesTree.UserDataSplits | ui/_categoriesTree.py:216-218 | with `|`-free texts, splitting a path on `|` gives back the texts above the item and `category` |
| CategoriesTree.PathInjective | ui/_categoriesTree.py:216-218 | distinct items whose texts hold no `|` have distinct paths |
| CategoriesTree.PrecedesTransitive | ui/_categoriesTree.py:227-230 | Python's string order used by `max` is transitive |
| CategoriesTree.PrecedesIrreflexive | ui/_categoriesTree.py:227-230 | no string precedes itself |
| CategoriesTree.PrecedesTotal | ui/_categoriesTree.py:227-230 | of two distinct strings one precedes the other |
| CategoriesTree.MaxText | ui/_categoriesTree.py:227-230 | `max(names)` is one of the names and no name is greater |
| CategoriesTree.IsNewItemName | ui/_categoriesTree.py:226-227 | `findItems` with `MatchStartsWith` keeps a text exactly when it starts with `New_Item_` in any letter case |
| CategoriesTree.NewItemName | ui/_categoriesTree.py:224-234 | no `New_Item_` name gives `New_Item_01`; otherwise the greatest such name in string order decides: its third field plus one, padded to two digits, or `01` when that field is not an integer |
| CategoriesTree.NewItemNameOfTop | ui/_categoriesTree.py:225-232 | a `New_Item_` name that no other such name follows in string order, with number `v`, gives `New_Item_` and `v + 1` padded to two digits |
| CategoriesTree.NewItemNameRepeats | ui/_categoriesTree.py:225-232 | as written, with `New_Item_99` and `New_Item_100` present the next name is `New_Item_100` again |
| CategoriesTree.NewItemNameFresh | ui/_categoriesTree.py:224-234 | the corrected name still starts with `New_Item_` |
| CategoriesTree.NewItemNameFreshIsFresh | ui/_categoriesTree.py:224-240 | the corrected name is never the text of an existing item |
| CategoriesTree.EmptyPathOnlyAtTop | ui/_categoriesTree.py:78-80 | an edit gives the empty path exactly when a top-level item is edited to the empty text |
| CategoriesTree.AcceptedEditIsNew | ui/_categoriesTree.py:66-99 | an accepted edit gives a path no item has; editing an item to its own text is refused |
| CategoriesTree.AcceptsEdit | ui/_categoriesTree.py:66-99 | an edit is refused exactly when it empties a top-level item or gives a path some item already has |
| CategoriesTree.RenameOntoSiblingRefused | ui/_categoriesTree.py:85-99 | renaming an item to a sibling's text is refused, and the rename then reports the old path as both old and new |
| CategoriesTree.Rename | ui/_categoriesTree.py:247-270 | no current item raises AttributeError; an item named `root` in any case is not renamed; an edit the tree refuses carries the old path twice; an accepted one carries the old path and the new path |
| CategoriesTree.RenameLastSegment | ui/_categoriesTree.py:247-265 | below the top a rename carries the old path and the parent's path with the new text when the edit is accepted, with the old text when it is refused |
| CategoriesTree.Delete | ui/_categoriesTree.py:349-364 | `root` in any case or an unconfirmed deletion changes nothing; the remove signal carries the item's path; a top-level item raises; no item is added |
| CategoriesTree.DeleteRemovesSubtree | ui/_categoriesTree.py:362-364 | a confirmed deletion below the top removes exactly the item and the items under it, which are exactly those whose paths equal or extend the removed path by `|` |
| CategoriesTree.PathBelow | ui/_categoriesTree.py:207-218 | with `|`-free texts, an item is the other or under it exactly when its path equals or extends the other's by `|` |
| CategoriesTree.FindCategory | ui/_categoriesTree.py:280-296 | the first item in tree order that the search accepts, or none accepted |
| CategoriesTree.FindCategoryPaths | ui/_categoriesTree.py:292-296 | an item is found exactly when one with the text has a path the target equals or extends by `|` |
| CategoriesTree.FindsOwnPath | ui/_categoriesTree.py:292-296 | searching an item's own text and path always finds it or an earlier one |
| ThumbnailGrid.Reset | ui/_thumbnailUI.py:187-197 | no rows and the first cell, the column count kept |
| ThumbnailGrid.CalculateColumn | ui/_thumbnailUI.py:198-204 | zero cell width raises ZeroDivisionError; otherwise the columns times the cell width fall short of the width and one more column covers it |
| ThumbnailGrid.Place | ui/_thumbnailUI.py:470-488 | an empty source changes nothing; the first cell sets one row; the row wraps exactly when the next column equals the column count |
| ThumbnailGrid.PlaceAfter | ui/_thumbnailUI.py:477-488 | one more thumbnail after `n` moves the state to that after `n + 1` |
| ThumbnailGrid.PlaceAllRowMajor | ui/_thumbnailUI.py:191-196 | from a reset table with `c` columns, after `n` thumbnails the last cell is `((n-1) div c, (n-1) mod c)` with `(n-1) div c + 1` rows |
| ThumbnailGrid.PlaceAll | ui/_thumbnailUI.py:470-488 | placing keeps the column count, and a list with no non-empty source leaves the grid as it was |
| ThumbnailGrid.PastLastColumnNeverWraps | ui/_thumbnailUI.py:483 | once the last column is at or past the column count, each thumbnail moves one column right on the same row |
| ThumbnailGrid.OverlayTags | ui/_thumbnailUI.py:417-435 | `add` of an absent tag appends it; any other case succeeds exactly when the tag is present and removes one occurrence; otherwise ValueError |
| ThumbnailGrid.OverlayAddThenRemove | ui/_thumbnailUI.py:429-432 | adding an absent tag and then removing it gives the original list back |
| ThumbnailGrid.OverlayAddPresentRemoves | ui/_thumbnailUI.py:429-432 | `add` of a present tag removes it, as `remove` would |
| ThumbnailGrid.OverlayAll | ui/_thumbnailUI.py:417-435 | every selected list is edited when none raises; otherwise a ValueError is reported |
| DataFile.GroupDocument | data/data_handler.py:58-83 | the written document has the one group, holding the category's items or nothing |
| DataFile.UpdateDataJson | data/data_handler.py:58-83 | no file name raises; otherwise the file is replaced by the group document and the memo kept |
| DataFile.WriteLeavesOneGroup | data/data_handler.py:58-83 | after a write the file holds exactly one group, the one written |
| DataFile.Data | data/data_handler.py:84-95 | the memo answers once present; otherwise the file is read and memoised; no file name raises |
| DataFile.StaleReadAfterWrite | data/data_handler.py:84-95 | once read, a later write is never seen: the memo answers with the old document |
| DataFile.DataFresh | data/data_handler.py:84-95 | the intended read: always the file as it is, raising without a file name |
| DataFile.FreshReadSeesWrite | data/data_handler.py:58-95 | the intended read after a write returns the written document |
| DataFile.DataByKey | data/data_handler.py:96-108 | no category key gives the group's value or None; with a key the group's entry, AttributeError when the group is missing or not an object |
| DataFile.DataByKeyAfterWrite | data/data_handler.py:58-108 | right after a write with nothing memoised, the written category's items come back by key |
| LegacyStore.Subscript | database/database.py:24-83 | `d[k]` succeeds exactly on an object holding `k` and yields its value; a missing key raises KeyError, a non-object TypeError |
| LegacyStore.Assign | database/database.py:72-83 | `d[k] = x` on an object sets the key; a non-object raises TypeError |
| LegacyStore.Without | database/database.py:48-93 | the key is gone and every other key keeps its value |
| LegacyStore.DeleteKey | database/database.py:50-93 | `del d[k]` succeeds exactly when the key is there and removes it; a missing key raises KeyError |
| LegacyStore.PopKey | database/database.py:48-72 | `d.pop(k)` returns the value and the object without the key; a missing key raises KeyError |
| LegacyStore.UpdateWith | database/database.py:24-28 | `d.update(m)`: the keys of `m` take its values, the others keep theirs; a non-object raises AttributeError |
| LegacyStore.Modify | database/database.py:23-93 | an edit at a key path succeeds when the path resolves and the edit does; the value there becomes the edit's result; the top-level keys stay the same |
| LegacyStore.ModifyElsewhere | database/database.py:23-93 | an edit at one key path leaves every path that diverges from it unchanged |
| LegacyStore.AtSnoc | database/database.py:26-83 | looking up one more key is subscripting the value at the path |
| LegacyStore.AddEmpty | database/database.py:24-26 | `update({name: {}})` sets the name to an empty object; a mapping argument is unhashable and raises TypeError |
| LegacyStore.IngestMerges | database/database.py:27-28 | without depth the mapping's groups replace same-named groups and the other groups stay |
| LegacyStore.Ingest | database/database.py:17-30 | depth 1 and 2 with a mapping raise (a dict is not hashable); without depth a non-empty name raises, and data that is not an object has no `update`; other depths leave the data as read |
| LegacyStore.IngestAddsEmpty | database/database.py:23-26 | depth 1 and 2 put an empty object under the name, overwriting it; other names and paths off the parent are unchanged |
| LegacyStore.RemoveCategoryExactly | database/database.py:49-60 | depth 1 and 2 succeed exactly when the key is there, remove only it, and report `Removed <name> from json` |
| LegacyStore.RemoveCategory | database/database.py:41-60 | without depth the group is removed exactly when it is there, with the message `Removed <group> from json`; other depths change nothing |
| LegacyStore.RemoveGroupExactly | database/database.py:47-56 | without depth the group is popped, others kept, and the message names it; a missing group raises KeyError |
| LegacyStore.Rekey | database/database.py:70-72 | `d[new] = d.pop(old)`: the new key holds the old value, the old key is gone, the others are kept; a missing old key raises |
| LegacyStore.UpdateCategory | database/database.py:62-75 | a depth other than 1 or 2 leaves the document as it was |
| LegacyStore.UpdateCategoryMoves | database/database.py:69-72 | a rename succeeds exactly when the old key is there, moves its value, drops the old key, and leaves siblings and other paths unchanged |
| LegacyStore.UpdateItemsStores | database/database.py:82-83 | the key under the sub-category holds `{item: str(fav)}`; siblings and other paths are unchanged; it fails exactly when the sub-category is missing or not an object |
| LegacyStore.UpdateItems | database/database.py:76-85 | the update succeeds exactly when the sub-category is found and is an object; lookup errors propagate |
| LegacyStore.Unescape | database/database.py:82-83 | a JSON escape character is accepted exactly when it is one of `"\/bfnrt` |
| LegacyStore.DecodePlain | database/database.py:82-83 | a text without quotes, backslashes or control characters decodes to itself |
| LegacyStore.AsWrittenAgreesOnPlainItems | database/database.py:82-83 | for a plain item name the as-written call stores the same entry as the intended one |
| LegacyStore.UpdateItemsAsWritten | database/database.py:76-85 | a decoding error of the formatted entry propagates; otherwise the result is the intended update with the decoded name |
| LegacyStore.AsWrittenStoresDecoded | database/database.py:82-83 | the as-written call stores the entry under whatever name the item decodes to |
| LegacyStore.AsWrittenDecodesBackslashN | database/database.py:82-83 | as written, an item path holding `\n` is stored under a different name holding a newline |
| LegacyStore.AsWrittenRejectsUnknownEscape | database/database.py:82-83 | as written, an item path holding an unknown escape such as `\a` raises ValueError |
| LegacyStore.RemoveItemExactly | database/database.py:87-93 | removing an item succeeds exactly when the key is there, removes only it, and leaves other paths unchanged |
| LegacyStore.RemoveItem | database/database.py:87-95 | lookup errors propagate; a missing key raises KeyError; a removal keeps every top-level group |
| Container.TypeFiltersSplit | utils/container.py:295-309 | apart from `.nk` files every key passes exactly one of `stock` and `mesh`; a `.nk` key is a template and neither of those; `all` passes every key |
| Container.TypePasses | utils/container.py:295-309 | the `d_type` branches: "stock" hides `.nk`, `.obj`, `.fbx` and `.abc`, "template" shows names ending in `.nk`, "mesh" shows `.obj`, `.fbx` and `.abc`, "all" shows everything, and any other type shows nothing |
| Container.SearchPasses | utils/container.py:295-309 | an empty search passes every file; otherwise the search must occur in the lower-cased base name |
| Container.QueryEntry | utils/container.py:292-309 | a row is listed exactly when its file is in the entry and passes both the type filter and the search on the lower-cased base name |
| Container.QueryEntries | utils/container.py:292-309 | the query succeeds exactly when every entry is a mapping (else AttributeError); a row is listed exactly when some entry holds its file and it passes both filters |
| Container.QueryItems | utils/container.py:279-309 | a failed lookup of `data[group][top][current]` raises the same error; a result lists exactly the passing files of its entries |
| Container.NewTable | utils/container.py:32-62 | a new table holds the lower-cased search, no files, no rows and the first cell |
| Container.NewTableIgnoresCase | utils/container.py:62 | a new table lists the same rows for a search in any case |
| Container.LoadUserSearch | utils/container.py:141-149 | as written the search is stored unchanged and nothing else moves |
| Container.LoadUserSearchLowered | utils/container.py:141-149 | the corrected search is stored lower-cased and nothing else moves |
| Container.UpperNeverInLower | utils/container.py:297-308 | a search holding an upper-case letter is never part of a lower-cased name |
| Container.UpperCaseSearchListsNothing | utils/container.py:141-149 | as written, a typed search holding an upper-case letter lists no row at all |
| Container.AsWrittenMissesName | utils/container.py:148 | as written, typing a file's own base name that holds an upper-case letter does not find it |
| Container.LoweredSearchFindsName | utils/container.py:297-308 | with the search lower-cased, typing a file's base name in any case finds it |
| Container.ValidateDropped | utils/container.py:263-277 | the query's error propagates; otherwise the result is exactly the dropped files that no listed row has as its key |
| Container.ValidateDroppedSkipsListed | utils/container.py:270-277 | a dropped file already stored and passing the filters is dropped from the result |
| Container.ValidateDroppedKeepsNew | utils/container.py:270-277 | a dropped file that is not stored, or that the filters hide, is kept |
| Container.Cells | utils/container.py:321 | `[(i, j) for i in range(rows) for j in range(cols)]`, built row by row; CellsRowMajor states its order |
| Container.CellsRowMajor | utils/container.py:321 | the nested comprehension lists `rows * cols` cells with cell `k` at `(k div cols, k mod cols)` |
| Container.CellAt | utils/container.py:321 | cell `(i, j)` of the grid sits at index `i * cols + j` |
| Container.CellIndex | utils/container.py:321-331 | `pos.index((i, j))` is `i * cols + j` |
| Container.CellOfIndex | utils/container.py:321 | the cell at index `k` is `(k div cols, k mod cols)` |
| Container.CalcRowColPos | utils/container.py:311-321 | the file count grows by the files; zero columns raise ZeroDivisionError; otherwise the rows are the fewest that hold every file and the positions are the grid's cells |
| Container.Slice | utils/container.py:331-333 | Python's clamped slice: its length and its elements |
| Container.CellRowColIndex | utils/container.py:323-333 | a last cell missing from the positions raises ValueError; otherwise one position per file, from the last cell or just after it, clamped at the end |
| Container.CellsFrom | utils/container.py:321-333 | `n` positions from index `start` are the next `n` cells in row-major order |
| Container.NextCellInGrid | utils/container.py:317-321 | after a drop the grown grid contains the last cell and room for every file |
| Container.DropFillsNextCells | utils/container.py:311-333 | a drop of `n` files gets exactly `n` cells, the next ones after the files already placed, in row-major order |
| Container.NewGifJob | utils/container.py:829-853 | the input splits on `$$` exactly when it holds one `$$`, into input and start frame; a still image without a frame length gets a `.png` output in place of the GIF |
| Container.GifJobOfSequence | utils/container.py:842-846 | `head$$range` without other `$` gives the head as input and the range as start frame |
| Container.GifArgs | utils/container.py:869-879 | the GIF list: 9 arguments, the input after `-i`, the scale filter, the output second to last |
| Container.GifSequenceArgs | utils/container.py:881-893 | the sequence GIF list: 11 arguments, the start number, the input after `-i`, the output second to last |
| Container.GifCommand | utils/container.py:868-893 | no start frame or an empty one gives the 9-argument form; otherwise the 11-argument form starting at the range's first number |
| Container.RunGif | utils/container.py:855-902 | the command runs unless an existing output could not be removed; the job reports it finished when no command ran or the command wrote to stdout |
| Container.RunGifNeverSkips | utils/container.py:860-867 | an existing output that can be removed is converted again, as if it were missing |

## Left out

**Not modelled at all.**

- Qt widgets, painting, dialogs, thread pools and signal wiring. A signal appears only as an event in a trace or a value in a result.
- Reading and writing files.
  - JSON and configparser serialisation.
  - `make_directory`, `os.rename` and `os.remove` as actions.
  - The documents are values, and "the file exists" is a parameter.
- Running ffmpeg and ffprobe.
  - Their outputs are parameters.
  - The probe report arrives already parsed from JSON.
- `clique.assemble`: its grouping of a directory listing is an input.

**Approximated.**

- Floating point.
  - The frame rate, the thumbnail time and `duration // 2` are exact reals.
  - Python's `repr` of a float is the parameter `repr`.
  - ConvertMov.Round2: rounds half up on exact reals. Python formats the nearest binary float to two places, so a tie can come out differently; the contract only bounds the error by half a hundredth.
- Numerals.ParseInt: accepts an optional sign and ASCII digits only. Python's `int()` also strips surrounding whitespace, allows `_` between digits and reads non-ASCII decimal digits. The narrowing reaches Preferences.IntOption, ConvertMov.ToInt, ConvertMov.GetFps and CategoriesTree.NewItemName: text that Python would read with those extras is reported as not an integer.
- Paths: POSIX only. On Windows `os.path` also splits on `\` and knows drive letters; the model splits on `/` alone.
- Utilities.FrameNumber and ConvertMov.PaddingAt: `\d` is read as an ASCII digit. Python's `\d` on text also matches other Unicode decimal digits.
- Case mapping. Strings.Lower and the case-insensitive comparisons cover ASCII letters only, not Python's Unicode tables.
- Regular expressions.
  - The category pattern is modelled for category paths with no metacharacter other than `|`. The code escapes only `|`, so other metacharacters would be live in the pattern.
  - CategoriesTree.FindCategory requires every item path to be of that kind.
  - Replacement.Parse follows the template rules of Python 3.12. Group names in `\g<...>` are read as ASCII: a non-ASCII identifier gives `re.error` where Python raises IndexError. Older Pythons also accept `\g<+1>` and `\g< 1>`, which the model rejects.
- Preferences.Merge, Preferences.Update and Preferences.Load: configparser's `%` interpolation is not modelled. Values are stored and read back as plain text, so a value holding a lone `%`, which configparser rejects with ValueError when it is set, is accepted, and `%(name)s` is not expanded on reading. Writing the file and reading it back is taken to return the same section.

**Deliberately weaker contracts.**

- LegacyStore.UpdateItemsAsWritten: covers item names without `"` and without `\u` escapes. A `"` ends the JSON string early and `\u` decodes a code point; both are left unmodelled.

**Simplified from the source.**

- Container.Listed: keeps the stored value as it is. The source yields `str(value)`, Python's repr of a dict.
- Container.NewTable: takes the column count as an argument.
  - `calculate_column` in utils/container.py depends on the host application's version.
  - `math.ceil` on a float quotient is modelled as exact ceiling division (`Numerals.CeilDiv`), here and in ThumbnailGrid.CalculateColumn.
- Container.RunGif: does not carry the cell position and item the finished signal passes back. Printing of errors is not modelled.
- DataFile.Data: the memo of `functools.lru_cache` is the `cache` field. It is never cleared, as in the source, and is shared by nothing else.

## Findings

| source | as written | input that shows it | evidently intended | confidence | as-written member | corrected member |
|---|---|---|---|---|---|---|
| conversion/convert_mov.py:109, 119, 122, 125 | `run` reads `self.is_image_seq`, but `__init__` stores the flag as `self.__is_image_seq` (name-mangled), so the lookup raises AttributeError; the format tests then read `config.supported_image_formats` and `config.supported_video_formats`, which data/config.py:8-9 does not define (it has the upper-case names) | any job, e.g. a `.mov` source with working tools | dispatch on the stored flag, then on `SUPPORTED_IMAGE_FORMATS` and `SUPPORTED_VIDEO_FORMATS` | high; not executed | ConvertMov.RunAsWritten, ConvertMov.RunAsWrittenNeverConverts | ConvertMov.Run, ConvertMov.MergedStderrCompletes |
| conversion/convert_mov.py:157, 216; conversion/_commands.py:73 | `_process_image_sequence` cuts the range off with `rsplit(' ', 1)` and `convert_image_sequence` cuts at the last space again | `/shots/fire plate/fire.%04d.exr 1001-1010`: ffmpeg reads `/shots/fire` | cut the range off once | medium; not executed | ConvertMov.EncodeSequenceAsWritten, ConvertMov.EncodeSequenceAsWrittenCutsPath | ConvertMov.EncodeSequence, ConvertMov.EncodeSequenceAsWrittenCutsPath |
| _parse_data.py:66-74 | reads `config.supported_video_formats` and `config.supported_image_formats`, which data/config.py does not define (it has the upper-case names) | any dropped file that is not a sequence | use the configured upper-case tuples | high; not executed | ParseData.ProxyPathAsWritten, ParseData.DroppedFileFailsAsWritten | ParseData.ProxyPathPure, ParseData.DroppedFilesPure |
| _utilities.py:296-299 | `re.match` anchors the frame-range pattern at the start of the path, so it never matches a real sequence text | `/shots/plate.exr 1001-1100` comes back unchanged | `re.search`: the directory of the part before the range | high; not executed | Utilities.SourceFilePathAsWritten, Utilities.SourceFilePathAsWrittenKeepsSequence | Utilities.SourceFilePathSearched, Utilities.SearchedOfSequence |
| _utilities.py:297 | `rsplit(' ')[0]` splits at every space and keeps the first part, so a path holding a space loses everything from its first space | `/shots/fire plate/a.exr 1-2` gives `/shots` | cut off only the range, at the last space | medium; not executed | Utilities.SourceFilePathSearched, Utilities.SearchedCutsSpacedPath | Utilities.SourceFilePath, Utilities.SourceFilePathOfSequence |
| data/tool_data.py:61, 104-115; data/_handler.py:262-263 | the facade keeps the dict it read at start-up; `update_key` re-reads the file into a new dict, so the facade goes stale | rename a category, then add a group: `groups()` does not list it | the facade follows the store's current dict | medium; not executed | ToolData.RenameCategory, ToolData.StaleAfterRename | ToolData.RenameCategoryFresh, ToolData.FreshAfterRename |
| ui/_categoriesTree.py:225-232 | the next name comes from `max` of the names in string order, where `New_Item_99` is greater than `New_Item_100` | items `New_Item_99` and `New_Item_100`: the new item is `New_Item_100` again | one past the greatest number | high; not executed | CategoriesTree.NewItemName, CategoriesTree.NewItemNameRepeats | CategoriesTree.NewItemNameFresh, CategoriesTree.NewItemNameFreshIsFresh |
| database/database.py:82-83 | the entry is built by formatting `{"item": "fav"}` into JSON text and parsing it, so backslashes in the item path are read as escapes | item `C:\new.mov` is stored under a name holding a newline; `C:\a.mov` raises | the dict `{item: str(fav)}` | high; not executed | LegacyStore.UpdateItemsAsWritten, LegacyStore.AsWrittenDecodesBackslashN | LegacyStore.UpdateItems, LegacyStore.UpdateItemsStores |
| data/data_handler.py:83-95 | `data()` is memoised with `lru_cache` and never invalidated, so reads after `update_data_json` return the old document | read, then write another group, then read again | each read sees the file | medium; not executed | DataFile.Data, DataFile.StaleReadAfterWrite | DataFile.DataFresh, DataFile.FreshReadSeesWrite |
| utils/container.py:62, 148 | the constructor lower-cases the search, but `load_user_search` stores it as typed, while names are compared lower-cased | typing `Fire` for `fire.mov` (or `Fire.mov`) lists nothing | lower-case the typed search too | high; not executed | Container.LoadUserSearch, Container.AsWrittenMissesName, Container.UpperCaseSearchListsNothing | Container.LoadUserSearchLowered, Container.LoweredSearchFindsName |
