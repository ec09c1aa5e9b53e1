# FilePilot core, modelled in Dafny

FilePilot is a terminal file manager written in Rust. This project models four parts of it:

- the **search engine** (`src/search.rs`). There are three strategies:
  - `search`, the comprehensive walk. It pre-filters entries, then scores them in
    tiers: fuzzy, regex (score 50) and substring (40 or 30). It keeps the best 1000.
  - `search_fast`, the shallow walk. A substring match scores the fuzzy score or 25,
    other names score the fuzzy score alone. It keeps `max_results`.
  - `search_in_files`, over the current listing.
- the **session state** of the terminal interface (the `App` methods of `src/ui.rs`):
  - status messages and how they fade;
  - the two cursors, which wrap around;
  - search mode, viewing results and clearing them;
  - navigation, and opening or revealing the selected file;
  - the key handler of search mode.
- the **file explorer** (`FileExplorer` in `src/file_system.rs`). It scans a directory
  with directories first and names in order, navigates, goes up, and opens or reveals
  files.
- the small **pure helpers of the file-sharing server** (`src/file_sharing.rs`):
  - the `Range` header parser;
  - HTML escaping;
  - the MIME and show-inline tables;
  - the Markdown-to-HTML converter.

Anything the program asks of the outside world is a parameter of the model:

- The filesystem is an abstract value `FileSystem.Fs` that answers three questions:
  does a path exist, is it a directory, and what does a directory contain.
- Directory walks are given as sequences of entries, in the order the walker yields
  them.
- The fuzzy matcher and the regex compiler are function parameters.
- The two timeouts are a boolean saying whether the timer fired.
- The clock is a `now` parameter in nanoseconds; how long a search takes is a field of the
  search environment. The process launcher is a function parameter.
- The inline formatter that the Markdown converter calls is a function parameter.

Each module has its own file:

| File | Module | What it holds |
|---|---|---|
| `wrappers.dfy` | `Wrappers` | `Option` and `Result` |
| `strings.dfy` | `Strings` | lower-casing, `contains`, trimming, string order, `u64` parsing and printing, `split` |
| `sorting.dfy` | `Sorting` | a stable sort as a specification function, with an in-place insertion sort on an array proved equal to it |
| `file_system.dfy` | `FileSystem` | paths, `FileInfo::from_path`, the `FileExplorer` class |
| `search.dfy` | `Search` | the three search strategies |
| `ui.dfy` | `Ui` | an `AppState` value and the `App` class |
| `range.dfy` | `Range` | `parse_range` and the 206 reply |
| `html.dfy` | `Html` | `escape_html`, `get_mime_type`, `should_display_inline` |
| `markdown.dfy` | `Markdown` | `simple_markdown_to_html` |

The state-changing code keeps its imperative form:

- An `App` method is a Dafny method with a `modifies` clause. It is specified by
  `State() == XSpec(old(State()), ...)`, where `XSpec` is a function on the `AppState`
  snapshot.
- Properties of `App` are lemmas about those functions. An example is the invariant
  `ValidState`: search mode and viewing results never hold together, a result list
  is viewed only when it has results, and a non-empty result list has its cursor on
  one of its entries.
- `FileExplorer.Refresh` fills the listing in a loop and sorts it in place. It is
  proved equal to `RefreshSpec`.
- The Markdown converter is a `while` loop over lines. It is proved equal to the
  recursive `Render`, which the lemmas are about.

## Model

| member | source | states |
|---|---|---|
| Strings.ParseU64 | src/file_sharing.rs:2231 | a parsed `u64` never exceeds 2^64-1 |
| Strings.ParseNatToString | src/file_sharing.rs:2229-2253 | parsing the decimal rendering of any 64-bit value gives it back |
| Strings.SplitTwo | src/file_sharing.rs:2223-2227 | `split('-')` has two parts exactly when there is a single `-`, and the parts are what stands on either side |
| Strings.StrLessTrichotomy | src/file_system.rs:85 | string order is total and irreflexive, and no two strings are each before the other |
| Strings.StrLessTransitive | src/file_system.rs:85 | string order is transitive |
| Sorting.SortSpecPermutation | src/search.rs:148 | the stable sort keeps the length and the multiset of elements |
| Sorting.SortSpecSorted | src/search.rs:148 | given a strict weak order, the output never has a later element that must go before an earlier one |
| Sorting.SortSpecStable | src/search.rs:148 | elements that compare equal keep their relative order |
| Sorting.SortSpecIsUnique | src/search.rs:148 | any sorted arrangement that keeps every equivalence class in order equals the specification, so the choice of sort algorithm is immaterial |
| Sorting.SortBy | src/file_system.rs:80-87 | the in-place sort of an array leaves exactly the specification's output |
| Sorting.SortSeq | src/search.rs:146-149 | the sort of a sequence equals the specification |
| FileSystem.FromPath | src/file_system.rs:15-28 | succeeds exactly for an existing path, and records that path, whether it is a directory, its size and modification time, and its last component as the name, or "" when it has none |
| FileSystem.DirsFirstIsStrictWeakOrder | src/file_system.rs:80-87 | "directories first, then by name" is a strict weak order |
| FileSystem.ReadInfosRecords | src/file_system.rs:71-78 | every listed file comes from a directory entry and was read with `from_path`; without a failure every entry is listed |
| FileSystem.ReadInfosStops | src/file_system.rs:71-78 | the first failing entry stops the scan, so later entries change nothing |
| FileSystem.RefreshedOrder | src/file_system.rs:80-87 | after a refresh every directory precedes every file, and entries of one kind are in name order |
| FileSystem.RefreshedContents | src/file_system.rs:70-90 | after a refresh every listed file is the record of an entry of the directory, no entry failed, and every entry that exists is listed |
| FileSystem.FileExplorer.Init | src/file_system.rs:37-44 | a new explorer is at the given path with an empty listing |
| FileSystem.FileExplorer.New | src/file_system.rs:37-44 | a failed canonicalisation is returned as the error; otherwise the explorer is at the canonical path and has been refreshed |
| FileSystem.FileExplorer.Refresh | src/file_system.rs:70-90 | the loop and sort leave the listing and the outcome given by `RefreshSpec`, and the directory is unchanged |
| FileSystem.FileExplorer.NavigateTo | src/file_system.rs:54-60 | a path that is not a directory is ignored with success; a failed canonicalisation is returned with nothing changed; otherwise the canonical path is entered and the listing refreshed |
| FileSystem.FileExplorer.GoUp | src/file_system.rs:62-68 | the root stays put with success; otherwise the parent is entered and refreshed |
| FileSystem.FileExplorer.OpenFile | src/file_system.rs:92-108 | a directory is refused as invalid input; a file opens exactly when the launcher succeeds |
| FileSystem.FileExplorer.RevealTarget | src/file_system.rs:112-117 | a file is revealed through its parent directory, and a directory or the root as itself |
| FileSystem.FileExplorer.RevealInFileManager | src/file_system.rs:110-126 | revealing succeeds exactly when the launcher succeeds on the target |
| FileSystem.OpenDirectoryIgnoresOpener | src/file_system.rs:92-98 | opening a directory fails with invalid input whatever the launcher would do |
| Search.FilterMapMembers | src/search.rs:163-191 | a value is collected exactly when some entry maps to it |
| Search.Take | src/search.rs:149 | truncation keeps a prefix of exactly `n` elements of a longer list, and all of a shorter list |
| Search.ByScoreDescIsStrictWeakOrder | src/search.rs:148 | the descending score comparator is a strict weak order |
| Search.SortByScore | src/search.rs:146-148 | the score sort gives non-increasing scores, is a permutation, and keeps the entry order among equal scores |
| Search.TakeSorted | src/search.rs:149 | truncating a list sorted by descending score keeps it sorted, and nothing cut off scores above anything kept |
| Search.PreFilterIsSuperset | src/search.rs:93-106 | the pre-filter never drops an entry the scorer would accept |
| Search.FullTiers | src/search.rs:108-142 | a fuzzy match wins; otherwise a regex match on the path scores 50; otherwise a substring in the path scores 40 when it is also in the name and 30 when it is not; otherwise there is no result |
| Search.InvalidRegexDisablesTier | src/search.rs:68 | a pattern that does not compile evaluates as though the regex tier were absent |
| Search.EvaluateFast | src/search.rs:247-277 | a name that contains the pattern gives the fuzzy score or 25; any other name gives a result only through a fuzzy match, with that score; every result is a file-name match read from the path |
| Search.EvaluateLocal | src/search.rs:165-190 | the same two cases as the fast search, on an entry of the listing, and the result carries that entry |
| Search.Search | src/search.rs:36-153 | the search method returns what the full-search specification gives |
| Search.SearchFast | src/search.rs:200-286 | the fast-search method returns what its specification gives |
| Search.SearchInFiles | src/search.rs:155-197 | the listing search returns what its specification gives |
| Search.SearchErrors | src/search.rs:58-64 | both walking searches fail exactly when the root is not a directory or the timer fired, and a missing root or a non-directory root is reported as that, before the timeout |
| Search.FullSearchResults | src/search.rs:146-151 | at most 1000 results, sorted by score, every one from an entry of the walk; with at most 1000 hits, every hit is present |
| Search.FastSearchResults | src/search.rs:278-284 | at most `max_results` results, sorted by score, every one the evaluation of a walk entry and a file-name match; a name containing the pattern scores the fuzzy score or 25, any other name exactly its fuzzy score; with at most `max_results` hits, every hit is present |
| Search.FullSearchKeepsBest | src/search.rs:146-149 | a full search keeps exactly the smaller of 1000 and the hit count, only hits, and no dropped hit scores above a kept one |
| Search.FastSearchKeepsBest | src/search.rs:278-282 | a fast search keeps exactly the smaller of `max_results` and the hit count, only hits, and no dropped hit scores above a kept one |
| Search.LocalSearchShape | src/search.rs:163-196 | no more results than files, sorted by score, each a file-name match on a listed file, with equal scores in listing order |
| Search.LocalSearchMembers | src/search.rs:165-190 | a listed file is among the results exactly when its name contains the pattern or fuzzy-matches it |
| Ui.StrategyCycle | src/ui.rs:59-65 | the strategy cycles through all three values and returns after three steps |
| Ui.DescriptionsDistinct | src/ui.rs:67-73 | different strategies have different descriptions |
| Ui.App.constructor | src/ui.rs:93-116 | the session mirrors the explorer, the cursor is on the first entry, not in search mode, and the help text is shown |
| Ui.App.SetMessage | src/ui.rs:118-125 | only the status line changes: the text, kind, time and fade duration |
| Ui.App.SetInfoMessage | src/ui.rs:127-129 | an info message never fades |
| Ui.App.SetWarningMessage | src/ui.rs:131-133 | a warning lasts five seconds |
| Ui.App.SetErrorMessage | src/ui.rs:135-137 | an error lasts eight seconds |
| Ui.App.UpdateMessageFade | src/ui.rs:139-150 | the new state is `FadeSpec` of the old one |
| Ui.FadeRule | src/ui.rs:139-150 | fading touches only the status line; a message past its duration gives way to the help text, and otherwise nothing changes |
| Ui.ErrorFadesAfter | src/ui.rs:127-150 | any error message stays exactly while at most eight seconds have passed since its stamp |
| Ui.FadeDurations | src/ui.rs:127-150 | a warning survives exactly five seconds, an error eight, and an info message 2^64-1 seconds |
| Ui.CurrentMessage | src/ui.rs:152-154 | the text of the status line, or empty when there is none |
| Ui.App.NextItem | src/ui.rs:165-191 | the new state is `NextSpec` of the old one |
| Ui.App.PreviousItem | src/ui.rs:193-219 | the new state is `PrevSpec` of the old one |
| Ui.NextIndexCycles | src/ui.rs:165-191 | the next index is inside the list, one past the old one modulo the length |
| Ui.PrevIndexCycles | src/ui.rs:193-219 | the previous index is one before modulo the length, and undoes `next`; a cursor past the end is not brought back |
| Ui.CursorMoves | src/ui.rs:165-219 | exactly one cursor moves, onto an entry of its list; with both lists empty nothing happens |
| Ui.SelectedFile | src/ui.rs:362-384 | the selected entry of the list being viewed, or "No file selected" or "Invalid selection" |
| Ui.ViewedSelectionOk | src/ui.rs:362-384 | in a valid state, viewing results always yields the result under the cursor as the selection |
| Ui.SelectionReadersAgreeOutsideSearch | src/ui.rs:362-384 | outside search mode the cursor keys and the selection act on the same list; in search mode with results they do not |
| Ui.App.RunSearch | src/ui.rs:229-240 | the strategy chosen gives the outcome `SearchOutcome` |
| Ui.App.Report | src/ui.rs:242-261 | the new state is `ReportSpec` of the old one and the outcome |
| Ui.App.PerformSearch | src/ui.rs:221-263 | the new state is `PerformSpec` of the old one, the outcome stamped at the start time plus the search's duration |
| Ui.SearchErrorLasts | src/ui.rs:242-261 | a failed search's error stays on the status line for exactly eight seconds after the search returned |
| Ui.PerformOutcome | src/ui.rs:221-262 | empty input does nothing; success replaces the results and puts the cursor on the first result, with info or a warning; failure keeps the results and shows the error; the outcome message is stamped when the search returns |
| Ui.PerformKeepsRest | src/ui.rs:221-262 | a search changes only the results, their cursor and the status line |
| Ui.LocalStrategyNeverFails | src/ui.rs:236-239 | the local strategy always succeeds, with `search_in_files` over the listing |
| Ui.App.ToggleSearchStrategy | src/ui.rs:265-276 | the new state is `ToggleSpec` of the old one |
| Ui.App.NavigateToSelected | src/ui.rs:278-297 | the new state and the result are those of `NavigateSelectedSpec` |
| Ui.NavigateSelectedGuards | src/ui.rs:278-297 | only a selected directory in the designated list is entered; entering from results ends the search; entering from the listing puts the cursor on top |
| Ui.App.GoUp | src/ui.rs:299-303 | goes to the parent and, on success, puts the cursor on top |
| Ui.App.EnterSearchMode | src/ui.rs:305-312 | the new state is `EnterSpec` of the old one |
| Ui.App.ExitSearchMode | src/ui.rs:314-328 | the new state is `ExitSpec` of the old one |
| Ui.App.ClearSearchResults | src/ui.rs:330-338 | the new state is `ClearSpec` of the old one |
| Ui.ModeChanges | src/ui.rs:305-338 | entering discards the input and results; leaving keeps the results, and shows them exactly when there are some; clearing resets everything and puts the listing cursor on top |
| Ui.EnterThenExit | src/ui.rs:305-328 | entering and then leaving search mode returns to browsing, with the listing, its cursor and the strategy unchanged |
| Ui.App.OpenSelectedFile | src/ui.rs:340-351 | no selection is an error; a directory is refused with an error; a file is handed to the launcher |
| Ui.App.RevealSelected | src/ui.rs:353-360 | no selection is an error; otherwise the explorer's reveal decides the result |
| Ui.Pop | src/ui.rs:762 | `pop` removes the last character and leaves empty input empty |
| Ui.App.OnToggleKey | src/ui.rs:754-760 | the new state is `ToggleKeySpec` of the old one |
| Ui.App.OnBackspace | src/ui.rs:761-767 | the new state is `BackspaceSpec` of the old one |
| Ui.App.OnChar | src/ui.rs:775-781 | the new state is `TypeSpec` of the old one |
| Ui.App.HandleSearchKey | src/ui.rs:748-784 | the new state is `HandleSearchKeySpec` of the old one and the key |
| Ui.CharKeySearchesOnce | src/ui.rs:775-781 | typing appends the character and then searches once, 100 ms later |
| Ui.BackspaceKey | src/ui.rs:761-767 | backspace shortens the input and searches again; input that becomes empty drops the results without a search |
| Ui.ToggleKey | src/ui.rs:754-760 | toggling advances the strategy and searches again, 50 ms later, exactly when there is input |
| Ui.CursorsKeepValid | src/ui.rs:139-276 | fading, cursor moves and toggling keep `ValidState` |
| Ui.ModesKeepValid | src/ui.rs:305-338 | entering, leaving and clearing search mode keep `ValidState` |
| Ui.GoUpKeepsValid | src/ui.rs:299-303 | going up keeps `ValidState` |
| Ui.NavigateKeepsValid | src/ui.rs:278-297 | navigating keeps `ValidState` |
| Ui.PerformKeepsValid | src/ui.rs:221-263 | a search in search mode keeps `ValidState` and stays in search mode |
| Ui.SearchKeysKeepValid | src/ui.rs:748-784 | every key of search mode keeps `ValidState` |
| Range.Check | src/file_sharing.rs:2255-2259 | an accepted range starts inside the file and does not end before it starts |
| Range.ParseRange | src/file_sharing.rs:2216-2260 | as written: an accepted range lies inside the file, the underflow happens only on an empty file, and only `bytes=` with a single `-` is accepted |
| Range.ParseRangeFixed | src/file_sharing.rs:2216-2260 | corrected: an accepted range lies inside the file, and there is never an underflow |
| Range.HeaderParts | src/file_sharing.rs:2218-2227 | `bytes=A-B` splits into `A` and `B` when neither has a `-` |
| Range.OpenEndedForm | src/file_sharing.rs:2240-2259 | `bytes=N-` is N to the end when N is inside the file |
| Range.ClosedForm | src/file_sharing.rs:2240-2259 | `bytes=N-M` is N to M clamped to the file, when that is not empty |
| Range.SuffixForm | src/file_sharing.rs:2229-2259 | as written, `bytes=-L` starts at size-L but ends at min(L, size-1) |
| Range.NonNumericForm | src/file_sharing.rs:2229-2253 | a side that is not a number, or `bytes=-`, gives no range under either parser |
| Range.MalformedForm | src/file_sharing.rs:2218-2227 | a header without the prefix, or without exactly one `-`, gives no range under either parser |
| Range.SuffixRangeIsLost | src/file_sharing.rs:2229-2250 | `bytes=-100` on a 1000-byte file gives no range as written, and 900-999 corrected |
| Range.EmptyFileUnderflows | src/file_sharing.rs:2246-2250 | `bytes=0-` on an empty file underflows as written, and gives no range corrected |
| Range.SuffixFixed | src/file_sharing.rs:2229-2239 | corrected, `bytes=-L` is the last min(L, size) bytes |
| Range.FixedAgreesOtherwise | src/file_sharing.rs:2216-2260 | on a non-empty file and outside the suffix form, both parsers agree |
| Range.PartialContentFits | src/file_sharing.rs:150-170 | for the parser as the reply calls it, the 206 reply's content length is at least 1 and fits between the start and the end of the file |
| Range.FixedPartialContentFits | src/file_sharing.rs:2216-2260 | the same bounds hold for the corrected parser |
| Range.ContentRangeSplits | src/file_sharing.rs:170 | after `bytes `, the `Content-Range` text splits at `/` into exactly the `first-last` range and the file size |
| Range.ContentRangeEchoes | src/file_sharing.rs:170 | the `Content-Range` field reads `bytes first-last/size`; its range part parses back to the range served and its size part to the file size |
| Range.RangeRoundTrip | src/file_sharing.rs:2216-2260 | a range inside the file, written as `bytes=S-E` and parsed back, is itself under both parsers |
| Html.EscapeIsPerChar | src/file_sharing.rs:2208-2214 | the chain of five replacements equals escaping each character on its own, so no entity is escaped twice |
| Html.EscapedIsMarkupFree | src/file_sharing.rs:2208-2214 | escaped text has no `<`, `>`, `"` or `'` |
| Html.EscapeIdentity | src/file_sharing.rs:2208-2214 | text without the five special characters stays as it is |
| Html.EscapeRoundTrip | src/file_sharing.rs:2208-2214 | decoding the five entities gives back the text that was escaped |
| Html.MimeType | src/file_sharing.rs:512-578 | an unknown extension, or none, is served as `application/octet-stream` |
| Html.ShouldDisplayInline | src/file_sharing.rs:484-510 | a path without an extension is downloaded |
| Html.MediaInline | src/file_sharing.rs:491-496 | every image, video and audio extension is shown inline |
| Html.ImageMime | src/file_sharing.rs:541-548 | every image extension has an `image/` type |
| Html.VideoMime | src/file_sharing.rs:549-557 | every video extension has a `video/` type |
| Html.AudioMime | src/file_sharing.rs:558-565 | every audio extension has an `audio/` type |
| Html.InlineWithoutType | src/file_sharing.rs:500 | C, C++, header and Java files are shown inline but are served as `application/octet-stream` |
| Html.TypedButDownloaded | src/file_sharing.rs:572-575 | archives have a type of their own but are downloaded |
| Html.ExtensionDecides | src/file_sharing.rs:484-518 | both tables depend only on the lower-cased extension |
| Markdown.Lines | src/file_sharing.rs:1927 | no line contains a line feed |
| Markdown.LinesOfUnlines | src/file_sharing.rs:1927 | splitting joined lines gives them back when they have no line feed and no trailing carriage return |
| Markdown.HeadingLevel | src/file_sharing.rs:1962-1974 | a heading level is at most 6, and the marker fits in the line |
| Markdown.BulletRunEnd | src/file_sharing.rs:1982-1987 | the item loop stops at the first line that is not a bullet item |
| Markdown.OrderedRunEnd | src/file_sharing.rs:1994-2000 | the item loop stops at the first line that is not an ordered item |
| Markdown.BulletList | src/file_sharing.rs:1980-1990 | the loop emits `<ul>`, one item per line of the run, and `</ul>`, and stops where the run ends |
| Markdown.OrderedList | src/file_sharing.rs:1992-2003 | the loop emits `<ol>`, one item per line of the run, and `</ol>`, and stops where the run ends |
| Markdown.Turn | src/file_sharing.rs:1932-2018 | one turn of the main loop advances at least one line and emits the piece `Render` puts before the rest |
| Markdown.MarkdownToHtml | src/file_sharing.rs:1925-2021 | the converter's output is `Render` over the lines, outside code |
| Markdown.RenderFence | src/file_sharing.rs:1936-1952 | a fence closes an open code block, or opens one with its language |
| Markdown.RenderCode | src/file_sharing.rs:1954-1959 | inside a code block a line is escaped and kept |
| Markdown.CodeBody | src/file_sharing.rs:1954-1959 | a run of lines inside a code block is emitted escaped, line by line |
| Markdown.FencedBlock | src/file_sharing.rs:1936-1959 | a fenced block is the opening tag, the escaped body and the closing tag, and rendering then resumes outside code |
| Markdown.UnclosedCodeBlock | src/file_sharing.rs:1954-1959 | a code block never closed runs to the end escaped and contains no `<` |
| Markdown.HeadingLine | src/file_sharing.rs:1962-1974 | a line of 1-6 `#` and a space becomes a heading of that level with the text escaped |
| Markdown.BlankLine | src/file_sharing.rs:2009-2011 | an empty line emits nothing |
| Markdown.BlankTail | src/file_sharing.rs:2009-2011 | trailing blank lines emit nothing |
| Markdown.BulletRun | src/file_sharing.rs:1980-1990 | a run of bullet lines becomes one `<ul>` with an item per line, and the line after the run is not a bullet |
| Markdown.OrderedRun | src/file_sharing.rs:1992-2003 | a run of numbered lines becomes one `<ol>` with an item per line, and the line after the run is not numbered |

## Left out

- The concurrency of the searches is not modelled. This covers `tokio::spawn_blocking`, the `rayon` bridges and `timeout`. The timer is a boolean parameter, and a failed join of the blocking task is not modelled.
- The walker's depth limit, file-size limit and `.gitignore` rules are not modelled. The walk is given as a sequence of entries.
- The walk order is given by the caller. `par_bridge` does not fix that order, so the ties among equal scores in the full and fast searches hold only for the order given.
- How the fuzzy matcher scores and how regexes match are left out. Both are function parameters.
- `Strings.Lower` lowercases ASCII letters only. Rust's `to_lowercase` is full Unicode lowercasing, which has no counterpart here.
- `Ui.App.PerformSearch` sets the "Searching for..." message, which the final message overwrites at once. The model sets it too, but the terminal redraw that would show it is left out.
- The mapping from terminal key events to bindings is left out, with the rest of the event loop. Keys arrive already resolved to the datatype `Ui.SearchKey`.
- The 50 ms and 100 ms pauses before a search become offsets of the clock parameter.
- Drawing the interface is not modelled, and neither is `get_message_style`.
- The cut, copy, paste, preview and sharing features of `src/ui.rs` are not modelled. They are outside the session core modelled here.
- Ui.ValidState: the invariant does not claim that a non-empty listing has its cursor on an entry. When the refresh inside `navigate_to` fails on one entry, the listing has already been cleared and `navigate_to_selected` returns through `?` before `list_state.select(Some(0))` (src/ui.rs:288-293), so the old cursor can point past the new listing and the source does not keep that half.
- Modified times are opaque values and are not interpreted.
- Paths are sequences of named components, so paths that are not valid UTF-8 are not covered.
- `process_inline_formatting` is a function parameter of the Markdown converter. Its own rules are not modelled.
- Markdown.MarkdownToHtml: the body of the main loop is written as the method `Markdown.Turn` beside the loop instead of being inlined.
- Html.MimeType: the contract does not state that each known extension has the type in the table. The table is the function body, and the per-family lemmas (`ImageMime`, `VideoMime`, `AudioMime`) state the families.
- Range.ParseRange: a release build would let `file_size - 1` wrap around to 2^64-1. The model gives `SizeUnderflow`, which is the outcome of a debug build, where the subtraction panics.
- The rest of the HTTP server in `src/file_sharing.rs` is not part of this model: routing, streaming and the QR code.

## Findings

| source | as written | input that shows it | evidently intended | confidence | as-written member | corrected member |
|---|---|---|---|---|---|---|
| src/file_sharing.rs:2229-2250 | the suffix length `L` of `bytes=-L` becomes the end bound as well as setting the start | `bytes=-100` with a file of 1000 bytes gives no range | the last `L` bytes, here 900-999 (section 2.1 of RFC 7233) | not executed | Range.SuffixRangeIsLost | Range.SuffixFixed |
| src/file_sharing.rs:2246-2250 | `file_size - 1` is computed on `u64` without checking for an empty file | `bytes=0-` with an empty file underflows | no satisfiable range for an empty file | not executed | Range.EmptyFileUnderflows | Range.ParseRangeFixed |
