/** The interactive session (the `App` of src/ui.rs): search strategy, status messages,
    the two selection cursors, search mode and its result list, and the keys handled
    while search mode is on.

    Every state-changing method of `App` is specified by a transition function over a
    snapshot `AppState` of the application (with the explorer's directory and listing);
    the properties of the session are lemmas about those transition functions.
    The clock is a parameter `now` in nanoseconds. */
module Ui {
  import opened Wrappers
  import opened Strings
  import FS = FileSystem
  import S = Search

  // ---------------------------------------------------------------- strategy

  datatype SearchStrategy = Fast | Comprehensive | LocalOnly

  function Next(s: SearchStrategy): SearchStrategy
  {
    match s
    case Fast => Comprehensive
    case Comprehensive => LocalOnly
    case LocalOnly => Fast
  }

  function Description(s: SearchStrategy): string
  {
    match s
    case Fast => "Fast (limited depth)"
    case Comprehensive => "Comprehensive (full search)"
    case LocalOnly => "Local (current dir only)"
  }

  /** Toggling moves to another strategy and comes back after three steps. */
  lemma StrategyCycle(s: SearchStrategy)
    ensures Next(s) != s && Next(Next(s)) != s
    ensures Next(Next(Next(s))) == s
  {
  }

  /** The three strategies are told apart by their descriptions. */
  lemma DescriptionsDistinct(s: SearchStrategy, t: SearchStrategy)
    ensures Description(s) == Description(t) <==> s == t
  {
    if s != t {
      assert Description(s)[0] != Description(t)[0];
    }
  }

  // ---------------------------------------------------------------- status messages

  datatype MessageType = Info | Warning | Error

  /** A status line: its text, kind, the instant it was set and how long it lasts
      (both in nanoseconds). */
  datatype StatusMessage = StatusMessage(text: string, kind: MessageType, timestamp: nat, fade: nat)

  const Second: nat := 1_000_000_000
  const Millisecond: nat := 1_000_000

  /** `Duration::from_secs(u64::MAX)`, `from_secs(5)`, `from_secs(8)`. */
  const InfoFade: nat := U64_MAX * Second
  const WarningFade: nat := 5 * Second
  const ErrorFade: nat := 8 * Second

  const DefaultText := "Press '/' to search, 'q' to quit, Enter to navigate, 'x' to cut, 'c' to copy, 'v' to paste"
  const BrowseText := "Press '/' to search, 'q' to quit, Enter to navigate"

  /** `Instant::elapsed`, which is zero rather than negative for an instant in the future. */
  function Elapsed(since: nat, now: nat): nat
  {
    if now >= since then now - since else 0
  }

  // ---------------------------------------------------------------- the state

  /** What a search needs from the outside world: the filesystem, what the shallow
      (fast) and deep (comprehensive) walks yield, the fuzzy matcher, the regex
      compiler, whether the search's timeout fires, and how long the search takes on
      the clock (nanoseconds). */
  datatype SearchEnv = SearchEnv(fs: FS.Fs, fastWalk: seq<FS.DirEntry>, fullWalk: seq<FS.DirEntry>,
                                 fuzzy: (string, string) -> Option<int>,
                                 compile: string -> Option<S.Matcher>, timedOut: bool, duration: nat)

  /** A snapshot of the session: the explorer's directory and listing, then the
      fields of `App` that the modelled methods touch. */
  datatype AppState = AppState(
    currentPath: FS.Path,
    files: seq<FS.FileInfo>,
    listSel: Option<nat>,
    searchMode: bool,
    searchInput: string,
    searchResults: seq<S.SearchResult>,
    searchSel: Option<nat>,
    status: Option<StatusMessage>,
    strategy: SearchStrategy,
    showingResults: bool)

  /** Search mode and result viewing exclude each other, results are only viewed
      when there are some, and a non-empty result list has its cursor on one of them. */
  predicate ValidState(st: AppState)
  {
    !(st.searchMode && st.showingResults)
    && (st.showingResults ==> |st.searchResults| > 0)
    && (|st.searchResults| > 0 ==> st.searchSel.Some? && st.searchSel.value < |st.searchResults|)
  }

  function WithMessage(st: AppState, text: string, kind: MessageType, fade: nat, now: nat): AppState
  {
    st.(status := Some(StatusMessage(text, kind, now, fade)))
  }

  function WithInfo(st: AppState, text: string, now: nat): AppState
  {
    WithMessage(st, text, Info, InfoFade, now)
  }

  function WithWarning(st: AppState, text: string, now: nat): AppState
  {
    WithMessage(st, text, Warning, WarningFade, now)
  }

  function WithError(st: AppState, text: string, now: nat): AppState
  {
    WithMessage(st, text, Error, ErrorFade, now)
  }

  /** `update_message_fade`: a message older than its duration gives way to the
      default help text. */
  function FadeSpec(st: AppState, now: nat): AppState
  {
    match st.status
    case None => st
    case Some(m) => if Elapsed(m.timestamp, now) > m.fade then WithInfo(st, DefaultText, now) else st
  }

  /** `get_current_message`. */
  function CurrentMessage(st: AppState): (text: string)
    ensures st.status.None? ==> text == ""
    ensures st.status.Some? ==> text == st.status.value.text
  {
    match st.status
    case None => ""
    case Some(m) => m.text
  }

  // ---------------------------------------------------------------- cursors

  /** The cursor move of `next_item` on a list of `len` entries. */
  function NextIndex(sel: Option<nat>, len: nat): nat
    requires len > 0
  {
    match sel
    case None => 0
    case Some(i) => if i >= len - 1 then 0 else i + 1
  }

  /** The cursor move of `previous_item` on a list of `len` entries. */
  function PrevIndex(sel: Option<nat>, len: nat): nat
    requires len > 0
  {
    match sel
    case None => 0
    case Some(i) => if i == 0 then len - 1 else i - 1
  }

  /** Moving down wraps around the list: it lands in range from any cursor, and from a
      cursor in range it is the step `+1` modulo the length. */
  lemma NextIndexCycles(sel: Option<nat>, len: nat)
    requires len > 0
    ensures NextIndex(sel, len) < len
    ensures sel.Some? && sel.value < len ==> NextIndex(sel, len) == (sel.value + 1) % len
  {
  }

  /** Moving up from a cursor in range is the step `-1` modulo the length and undoes a
      move down; from a cursor beyond the list it may stay beyond it. */
  lemma PrevIndexCycles(sel: Option<nat>, len: nat)
    requires len > 0
    ensures sel.Some? && sel.value < len ==>
      PrevIndex(sel, len) < len && PrevIndex(sel, len) == (sel.value + len - 1) % len
    ensures sel.Some? && sel.value < len ==> PrevIndex(Some(NextIndex(sel, len)), len) == sel.value
    ensures sel.Some? && sel.value > len ==> PrevIndex(sel, len) >= len
  {
  }

  /** Whether the cursor keys act on the result list rather than on the listing. */
  predicate CursorOnResults(st: AppState)
  {
    (st.searchMode || st.showingResults) && |st.searchResults| > 0
  }

  function NextSpec(st: AppState): AppState
  {
    if CursorOnResults(st) then st.(searchSel := Some(NextIndex(st.searchSel, |st.searchResults|)))
    else if |st.files| > 0 then st.(listSel := Some(NextIndex(st.listSel, |st.files|)))
    else st
  }

  function PrevSpec(st: AppState): AppState
  {
    if CursorOnResults(st) then st.(searchSel := Some(PrevIndex(st.searchSel, |st.searchResults|)))
    else if |st.files| > 0 then st.(listSel := Some(PrevIndex(st.listSel, |st.files|)))
    else st
  }

  /** `next_item` moves exactly one cursor, onto an entry of its list, and changes nothing
      else; with both lists empty it does nothing. `previous_item` moves the same cursor. */
  lemma CursorMoves(st: AppState)
    ensures CursorOnResults(st) ==>
      NextSpec(st) == st.(searchSel := NextSpec(st).searchSel)
      && NextSpec(st).searchSel.Some? && NextSpec(st).searchSel.value < |st.searchResults|
      && PrevSpec(st) == st.(searchSel := PrevSpec(st).searchSel)
    ensures !CursorOnResults(st) && |st.files| > 0 ==>
      NextSpec(st) == st.(listSel := NextSpec(st).listSel)
      && NextSpec(st).listSel.Some? && NextSpec(st).listSel.value < |st.files|
      && PrevSpec(st) == st.(listSel := PrevSpec(st).listSel)
    ensures !CursorOnResults(st) && |st.files| == 0 ==> NextSpec(st) == st && PrevSpec(st) == st
  {
    if CursorOnResults(st) {
      NextIndexCycles(st.searchSel, |st.searchResults|);
    } else if |st.files| > 0 {
      NextIndexCycles(st.listSel, |st.files|);
    }
  }

  /** `get_selected_file`: it reads the result list only while results are being viewed. */
  function SelectedFile(st: AppState): (r: Result<FS.FileInfo, string>)
    ensures st.showingResults ==>
      (r.Ok? <==> st.searchSel.Some? && st.searchSel.value < |st.searchResults|)
      && (r.Ok? ==> r.value == st.searchResults[st.searchSel.value].fileInfo)
    ensures !st.showingResults ==>
      (r.Ok? <==> st.listSel.Some? && st.listSel.value < |st.files|)
      && (r.Ok? ==> r.value == st.files[st.listSel.value])
    ensures r.Err? ==> r.error == (if (if st.showingResults then st.searchSel else st.listSel).None?
                                   then "No file selected" else "Invalid selection")
  {
    if st.showingResults then
      match st.searchSel
      case None => Err("No file selected")
      case Some(i) => if i < |st.searchResults| then Ok(st.searchResults[i].fileInfo) else Err("Invalid selection")
    else
      match st.listSel
      case None => Err("No file selected")
      case Some(i) => if i < |st.files| then Ok(st.files[i]) else Err("Invalid selection")
  }

  /** In a valid state, viewing results always has a selected result: the one under
      the cursor. */
  lemma ViewedSelectionOk(st: AppState)
    requires ValidState(st) && st.showingResults
    ensures SelectedFile(st).Ok?
    ensures SelectedFile(st).value == st.searchResults[st.searchSel.value].fileInfo
  {
  }

  /** Outside search mode the cursor keys and the selection reader use the same list;
      in search mode with results they do not: the keys move the result cursor while
      the reader stays on the listing. */
  lemma SelectionReadersAgreeOutsideSearch(st: AppState)
    requires ValidState(st)
    ensures !st.searchMode ==> (CursorOnResults(st) <==> st.showingResults)
    ensures st.searchMode && |st.searchResults| > 0 ==>
      CursorOnResults(st) && SelectedFile(st) == SelectedFile(st.(searchSel := None))
  {
  }

  // ---------------------------------------------------------------- searching

  /** What the active strategy answers for the current input: `search_fast` with at
      most 100 results, `search`, or `search_in_files` over the listing (which cannot fail). */
  function SearchOutcome(st: AppState, env: SearchEnv): Result<seq<S.SearchResult>, S.SearchError>
  {
    match st.strategy
    case Fast => S.FastSearch(env.fs, st.currentPath, env.fastWalk, st.searchInput, env.fuzzy, 100, env.timedOut)
    case Comprehensive =>
      S.FullSearch(env.fs, st.currentPath, env.fullWalk, st.searchInput, env.fuzzy, env.compile, env.timedOut)
    case LocalOnly => Ok(S.LocalSearch(st.files, st.searchInput, env.fuzzy))
  }

  /** `perform_search`. The "Searching for ..." line it shows first is replaced by the
      outcome's message, stamped when the search has returned, before the screen is
      drawn again. */
  function PerformSpec(st: AppState, env: SearchEnv, now: nat): AppState
  {
    if st.searchInput == [] then st
    else
      var searching := WithInfo(st, "Searching for '" + st.searchInput + "' in "
                                    + FS.PathText(st.currentPath) + "...", now);
      ReportSpec(searching, SearchOutcome(st, env), now + env.duration)
  }

  /** How `perform_search` takes in the outcome of a search. */
  function ReportSpec(st: AppState, result: Result<seq<S.SearchResult>, S.SearchError>, now: nat): AppState
  {
    match result
    case Ok(rs) =>
      var t := st.(searchResults := rs, searchSel := if rs == [] then None else Some(0));
      if rs == [] then
        WithWarning(t, "No results found for '" + st.searchInput + "' (" + Description(st.strategy) + ")", now)
      else
        WithInfo(t, "Found " + NatToString(|rs|) + " results (" + Description(st.strategy) + ")", now)
    case Err(e) => WithError(st, "Search error: " + S.ErrorMessage(e), now)
  }

  /** Searching with no input does nothing; a successful search replaces the results
      wholesale and puts the cursor on the first one exactly when there is one; a failed
      search reports an error and keeps the previous results and cursor. Nothing but
      the results, their cursor and the message changes. */
  lemma PerformOutcome(st: AppState, env: SearchEnv, now: nat)
    ensures st.searchInput == [] ==> PerformSpec(st, env, now) == st
    ensures st.searchInput != [] && SearchOutcome(st, env).Ok? ==>
      var t := PerformSpec(st, env, now);
      t.searchResults == SearchOutcome(st, env).value
      && (t.searchSel == Some(0) <==> |t.searchResults| > 0)
      && (t.searchSel.None? <==> |t.searchResults| == 0)
      && t.status.Some? && t.status.value.kind == (if |t.searchResults| > 0 then Info else Warning)
      && t.status.value.timestamp == now + env.duration
    ensures st.searchInput != [] && SearchOutcome(st, env).Err? ==>
      var t := PerformSpec(st, env, now);
      t.searchResults == st.searchResults && t.searchSel == st.searchSel
      && t.status == Some(StatusMessage("Search error: " + S.ErrorMessage(SearchOutcome(st, env).error),
                                        Error, now + env.duration, ErrorFade))
  {
  }

  /** The error of a failed search, a time-out among them, stays on the status line for
      eight seconds counted from the moment the search returned. */
  lemma SearchErrorLasts(st: AppState, env: SearchEnv, now: nat, later: nat)
    requires st.searchInput != [] && SearchOutcome(st, env).Err?
    ensures var t := PerformSpec(st, env, now);
      FadeSpec(t, later) == t <==> later <= now + env.duration + ErrorFade
  {
    var t := PerformSpec(st, env, now);
    PerformOutcome(st, env, now);
    ErrorFadesAfter(t, now + env.duration, later);
  }

  /** The local strategy never fails, and its results are those of `search_in_files`. */
  lemma LocalStrategyNeverFails(st: AppState, env: SearchEnv)
    requires st.strategy == LocalOnly
    ensures SearchOutcome(st, env) == Ok(S.LocalSearch(st.files, st.searchInput, env.fuzzy))
  {
  }

  /** `toggle_search_strategy`. */
  function ToggleSpec(st: AppState, now: nat): AppState
  {
    var next := Next(st.strategy);
    WithInfo(st.(strategy := next),
             "Search strategy: " + Description(next)
             + (if st.searchMode && st.searchInput != [] then " - type to search again" else ""), now)
  }

  // ---------------------------------------------------------------- modes

  /** `enter_search_mode`. The result cursor is left where it was. */
  function EnterSpec(st: AppState, now: nat): AppState
  {
    WithInfo(st.(searchMode := true, showingResults := false, searchInput := [], searchResults := []),
             "Search mode: " + Description(st.strategy)
             + " - Type to search, F2 to toggle strategy, ESC to exit, Enter to keep results", now)
  }

  /** `exit_search_mode`: with results, switch to viewing them; without, back to browsing. */
  function ExitSpec(st: AppState, now: nat): AppState
  {
    if st.searchResults != [] then
      WithInfo(st.(searchMode := false, showingResults := true),
               "Search results (" + NatToString(|st.searchResults|)
               + " items) - Navigate with ↑↓, Enter to open, '/' to search again", now)
    else
      WithInfo(st.(searchMode := false, showingResults := false, searchInput := []), BrowseText, now)
  }

  /** `clear_search_results`. */
  function ClearSpec(st: AppState, now: nat): AppState
  {
    WithInfo(st.(searchMode := false, showingResults := false, searchInput := [], searchResults := [],
                 searchSel := None, listSel := Some(0)), DefaultText, now)
  }

  /** Entering search mode discards the previous input and results; leaving it keeps
      the results (and the input) exactly when there are any. */
  lemma ModeChanges(st: AppState, now: nat)
    ensures var t := EnterSpec(st, now);
      t.searchMode && !t.showingResults && t.searchInput == [] && t.searchResults == []
      && t.searchSel == st.searchSel && t.listSel == st.listSel
    ensures var t := ExitSpec(st, now);
      !t.searchMode && t.searchResults == st.searchResults
      && (t.showingResults <==> |st.searchResults| > 0)
      && (t.searchInput == if |st.searchResults| > 0 then st.searchInput else [])
    ensures var t := ClearSpec(st, now);
      !t.searchMode && !t.showingResults && t.searchInput == [] && t.searchResults == []
      && t.searchSel.None? && t.listSel == Some(0)
  {
  }

  /** Entering and at once leaving search mode returns to plain browsing, with the
      listing, its cursor and the strategy untouched. */
  lemma EnterThenExit(st: AppState, t1: nat, t2: nat)
    ensures var t := ExitSpec(EnterSpec(st, t1), t2);
      !t.searchMode && !t.showingResults && t.searchInput == [] && t.searchResults == []
      && t.listSel == st.listSel && t.files == st.files && t.currentPath == st.currentPath
      && t.strategy == st.strategy && CurrentMessage(t) == BrowseText
  {
  }

  // ---------------------------------------------------------------- navigation

  /** `navigate_to_selected`: only a selected directory is entered. From the result list
      a successful move clears the search; from the listing it puts the cursor on top.
      A failed move is reported and leaves the session as the explorer left it. */
  function NavigateSelectedSpec(st: AppState, fs: FS.Fs, now: nat): (AppState, Result<(), FS.IoError>)
  {
    if st.searchMode || st.showingResults then
      if st.searchSel.Some? && st.searchSel.value < |st.searchResults|
         && st.searchResults[st.searchSel.value].fileInfo.isDirectory
      then
        var (dir, files, r) := FS.NavigateSpec(fs, st.currentPath, st.files,
                                               st.searchResults[st.searchSel.value].fileInfo.path);
        var moved := st.(currentPath := dir, files := files);
        if r.Err? then (moved, r) else (ClearSpec(moved, now), Ok(()))
      else (st, Ok(()))
    else if st.listSel.Some? && st.listSel.value < |st.files| && st.files[st.listSel.value].isDirectory then
      var (dir, files, r) := FS.NavigateSpec(fs, st.currentPath, st.files, st.files[st.listSel.value].path);
      var moved := st.(currentPath := dir, files := files);
      if r.Err? then (moved, r) else (moved.(listSel := Some(0)), Ok(()))
    else (st, Ok(()))
  }

  /** The explorer moves only when a directory is selected in the list the mode
      designates; a successful move from search results ends the search. */
  lemma NavigateSelectedGuards(st: AppState, fs: FS.Fs, now: nat)
    ensures var (t, r) := NavigateSelectedSpec(st, fs, now);
      var onResults := st.searchMode || st.showingResults;
      var sel := if onResults then st.searchSel else st.listSel;
      var len := if onResults then |st.searchResults| else |st.files|;
      var target := if sel.Some? && sel.value < len then
                      Some(if onResults then st.searchResults[sel.value].fileInfo else st.files[sel.value])
                    else None;
      (target.None? || !target.value.isDirectory ==> t == st && r.Ok?)
      && (onResults && r.Ok? && target.Some? && target.value.isDirectory ==>
            !t.searchMode && !t.showingResults && t.searchResults == [] && t.searchSel.None?)
      && (!onResults && r.Ok? && target.Some? && target.value.isDirectory ==> t.listSel == Some(0))
  {
  }

  function GoUpAppSpec(st: AppState, fs: FS.Fs): (AppState, Result<(), FS.IoError>)
  {
    var (dir, files, r) := FS.GoUpSpec(fs, st.currentPath, st.files);
    var moved := st.(currentPath := dir, files := files);
    if r.Err? then (moved, r) else (moved.(listSel := Some(0)), Ok(()))
  }

  // ---------------------------------------------------------------- keys in search mode

  /** A key press in search mode, already resolved to the first binding it matches
      (exit, exit to results, toggle strategy, backspace, up, down, navigate), or a
      plain character, or anything else. */
  datatype SearchKey = ExitSearch | ExitToResults | ToggleStrategy | Backspace | Up | Down
                     | NavigateTab | Char(c: char) | OtherKey

  /** `String::pop`. */
  function Pop(s: string): (t: string)
    ensures s == [] ==> t == []
    ensures s != [] ==> t + [s[|s| - 1]] == s
  {
    if s == [] then [] else s[..|s| - 1]
  }

  function HandleSearchKeySpec(st: AppState, key: SearchKey, env: SearchEnv, now: nat): AppState
  {
    match key
    case ExitSearch => ExitSpec(st, now)
    case ExitToResults => ExitSpec(st, now)
    case ToggleStrategy => ToggleKeySpec(st, env, now)
    case Backspace => BackspaceSpec(st, env, now)
    case Up => PrevSpec(st)
    case Down => NextSpec(st)
    case NavigateTab => NavigateSelectedSpec(st, env.fs, now).0
    case Char(c) => TypeSpec(st, c, env, now)
    case OtherKey => st
  }

  /** The toggle-strategy key in search mode: the next strategy, then a new search 50 ms later when there
      is input. */
  function ToggleKeySpec(st: AppState, env: SearchEnv, now: nat): AppState
  {
    var t := ToggleSpec(st, now);
    if t.searchInput != [] then PerformSpec(t, env, now + 50 * Millisecond) else t
  }

  /** Backspace in search mode. */
  function BackspaceSpec(st: AppState, env: SearchEnv, now: nat): AppState
  {
    var t := st.(searchInput := Pop(st.searchInput));
    if t.searchInput != [] then PerformSpec(t, env, now) else t.(searchResults := [])
  }

  /** A printable character in search mode: appended, then a search 100 ms later. */
  function TypeSpec(st: AppState, c: char, env: SearchEnv, now: nat): AppState
  {
    PerformSpec(st.(searchInput := st.searchInput + [c]), env, now + 100 * Millisecond)
  }

  /** Typing appends the character and searches once for the longer input. */
  lemma CharKeySearchesOnce(st: AppState, env: SearchEnv, now: nat, c: char)
    ensures var t := HandleSearchKeySpec(st, Char(c), env, now);
      t.searchInput == st.searchInput + [c]
      && t == PerformSpec(st.(searchInput := st.searchInput + [c]), env, now + 100 * Millisecond)
  {
    PerformKeepsRest(st.(searchInput := st.searchInput + [c]), env, now + 100 * Millisecond);
  }

  /** Backspace drops the last character and searches again, unless the input became
      empty: then the results are dropped without a search and the cursor is kept. */
  lemma BackspaceKey(st: AppState, env: SearchEnv, now: nat)
    ensures |st.searchInput| <= 1 ==>
      HandleSearchKeySpec(st, Backspace, env, now) == st.(searchInput := [], searchResults := [])
    ensures |st.searchInput| > 1 ==>
      HandleSearchKeySpec(st, Backspace, env, now)
      == PerformSpec(st.(searchInput := st.searchInput[..|st.searchInput| - 1]), env, now)
  {
  }

  /** Toggling advances the strategy and searches again exactly when there is input. */
  lemma ToggleKey(st: AppState, env: SearchEnv, now: nat)
    ensures var t := HandleSearchKeySpec(st, ToggleStrategy, env, now);
      t.strategy == Next(st.strategy) && t.searchInput == st.searchInput
      && (st.searchInput == [] ==> t == ToggleSpec(st, now))
      && (st.searchInput != [] ==> t == PerformSpec(ToggleSpec(st, now), env, now + 50 * Millisecond))
  {
    PerformKeepsRest(ToggleSpec(st, now), env, now + 50 * Millisecond);
  }

  /** A search touches nothing but the results, their cursor and the status line. */
  lemma PerformKeepsRest(st: AppState, env: SearchEnv, now: nat)
    ensures var t := PerformSpec(st, env, now);
      t.(searchResults := st.searchResults, searchSel := st.searchSel, status := st.status) == st
  {
    if st.searchInput != [] {
      var searching := WithInfo(st, "Searching for '" + st.searchInput + "' in "
                                    + FS.PathText(st.currentPath) + "...", now);
      var outcome := SearchOutcome(st, env);
      assert PerformSpec(st, env, now) == ReportSpec(searching, outcome, now + env.duration);
      ReportKeepsRest(searching, outcome, now + env.duration);
    }
  }

  lemma ReportKeepsRest(st: AppState, result: Result<seq<S.SearchResult>, S.SearchError>, now: nat)
    ensures var t := ReportSpec(st, result, now);
      t.(searchResults := st.searchResults, searchSel := st.searchSel, status := st.status) == st
  {
  }

  /** Every transition keeps `ValidState`; a search is only started from search mode. */
  lemma CursorsKeepValid(st: AppState, now: nat)
    requires ValidState(st)
    ensures ValidState(FadeSpec(st, now)) && ValidState(NextSpec(st)) && ValidState(PrevSpec(st))
    ensures ValidState(ToggleSpec(st, now))
  {
  }

  lemma ModesKeepValid(st: AppState, now: nat)
    requires ValidState(st)
    ensures ValidState(EnterSpec(st, now)) && ValidState(ExitSpec(st, now))
    ensures ValidState(ClearSpec(st, now))
  {
    var exit := ExitSpec(st, now);
    assert exit.showingResults ==> st.searchResults != [];
  }

  lemma GoUpKeepsValid(st: AppState, fs: FS.Fs)
    requires ValidState(st)
    ensures ValidState(GoUpAppSpec(st, fs).0)
  {
  }

  lemma NavigateKeepsValid(st: AppState, fs: FS.Fs, now: nat)
    requires ValidState(st)
    ensures ValidState(NavigateSelectedSpec(st, fs, now).0)
  {
  }

  /** A search started from search mode keeps `ValidState` and stays in search mode. */
  lemma PerformKeepsValid(st: AppState, env: SearchEnv, now: nat)
    requires ValidState(st) && st.searchMode
    ensures ValidState(PerformSpec(st, env, now)) && PerformSpec(st, env, now).searchMode
  {
    PerformKeepsRest(st, env, now);
  }

  lemma EditKeysKeepValid(st: AppState, env: SearchEnv, now: nat, key: SearchKey)
    requires ValidState(st) && st.searchMode
    requires key.ToggleStrategy? || key.Backspace? || key.Char?
    ensures ValidState(HandleSearchKeySpec(st, key, env, now))
  {
    if key.ToggleStrategy? {
      var t := ToggleSpec(st, now);
      CursorsKeepValid(st, now);
      if t.searchInput != [] {
        PerformKeepsValid(t, env, now + 50 * Millisecond);
      }
    } else if key.Backspace? {
      var t := st.(searchInput := Pop(st.searchInput));
      if t.searchInput != [] {
        PerformKeepsValid(t, env, now);
      }
    } else {
      PerformKeepsValid(st.(searchInput := st.searchInput + [key.c]), env, now + 100 * Millisecond);
    }
  }

  lemma MoveKeysKeepValid(st: AppState, env: SearchEnv, now: nat, key: SearchKey)
    requires ValidState(st) && st.searchMode
    requires !(key.ToggleStrategy? || key.Backspace? || key.Char?)
    ensures ValidState(HandleSearchKeySpec(st, key, env, now))
  {
    if key.Up? || key.Down? {
      CursorsKeepValid(st, now);
    } else if key.NavigateTab? {
      NavigateKeepsValid(st, env.fs, now);
    } else {
      ModesKeepValid(st, now);
    }
  }

  /** Every key of search mode keeps `ValidState`. */
  lemma SearchKeysKeepValid(st: AppState, env: SearchEnv, now: nat, key: SearchKey)
    requires ValidState(st) && st.searchMode
    ensures ValidState(HandleSearchKeySpec(st, key, env, now))
  {
    if key.ToggleStrategy? || key.Backspace? || key.Char? {
      EditKeysKeepValid(st, env, now, key);
    } else {
      MoveKeysKeepValid(st, env, now, key);
    }
  }

  // ---------------------------------------------------------------- message fading

  /** Only the status line fades, and it does so exactly when its age exceeds its duration. */
  lemma FadeRule(st: AppState, now: nat)
    ensures FadeSpec(st, now).(status := st.status) == st
    ensures st.status.Some? && Elapsed(st.status.value.timestamp, now) > st.status.value.fade ==>
      FadeSpec(st, now).status == Some(StatusMessage(DefaultText, Info, now, InfoFade))
    ensures st.status.None? || Elapsed(st.status.value.timestamp, now) <= st.status.value.fade ==>
      FadeSpec(st, now) == st
  {
  }

  /** An error message stamped at `t` is still shown at `now` exactly when at most eight
      seconds have passed. */
  lemma ErrorFadesAfter(st: AppState, t: nat, now: nat)
    requires st.status.Some? && st.status.value.kind == Error
    requires st.status.value.timestamp == t && st.status.value.fade == ErrorFade
    ensures FadeSpec(st, now) == st <==> now <= t + ErrorFade
  {
    if now > t + ErrorFade {
      assert FadeSpec(st, now).status.value.kind == Info;
    }
  }

  /** A warning set at `t` lasts exactly five seconds, an error eight, and an information
      message `u64::MAX` seconds. */
  lemma FadeDurations(st: AppState, text: string, t: nat, now: nat)
    ensures var w := WithWarning(st, text, t); (FadeSpec(w, now) == w <==> now <= t + 5 * Second)
    ensures var e := WithError(st, text, t); (FadeSpec(e, now) == e <==> now <= t + 8 * Second)
    ensures var i := WithInfo(st, text, t); (FadeSpec(i, now) == i <==> now <= t + U64_MAX * Second)
  {
    var w := WithWarning(st, text, t);
    if now > t + 5 * Second {
      assert FadeSpec(w, now).status.value.kind == Info;
    }
    var e := WithError(st, text, t);
    if now > t + 8 * Second {
      assert FadeSpec(e, now).status.value.kind == Info;
    }
    var i := WithInfo(st, text, t);
    if now > t + U64_MAX * Second {
      assert FadeSpec(i, now).status.value.timestamp == now != t;
    }
  }

  // ---------------------------------------------------------------- the application

  class App {
    const explorer: FS.FileExplorer
    var listSel: Option<nat>
    var searchMode: bool
    var searchInput: string
    var searchResults: seq<S.SearchResult>
    var searchSel: Option<nat>
    var status: Option<StatusMessage>
    var strategy: SearchStrategy
    var showingResults: bool

    function State(): AppState
      reads this, explorer
    {
      AppState(explorer.currentPath, explorer.files, listSel, searchMode, searchInput,
               searchResults, searchSel, status, strategy, showingResults)
    }

    /** `App::new`: browsing, the cursor on the first entry, the default help text. */
    constructor (explorer: FS.FileExplorer, now: nat)
      ensures this.explorer == explorer
      ensures State() == AppState(explorer.currentPath, explorer.files, Some(0), false, [], [], None,
                                  Some(StatusMessage(DefaultText, Info, now, InfoFade)), Fast, false)
      ensures ValidState(State())
    {
      this.explorer := explorer;
      listSel := Some(0);
      searchMode := false;
      searchInput := [];
      searchResults := [];
      searchSel := None;
      status := Some(StatusMessage(DefaultText, Info, now, InfoFade));
      strategy := Fast;
      showingResults := false;
    }

    method SetMessage(text: string, kind: MessageType, fade: nat, now: nat)
      modifies this
      ensures State() == WithMessage(old(State()), text, kind, fade, now)
    {
      status := Some(StatusMessage(text, kind, now, fade));
    }

    method SetInfoMessage(text: string, now: nat)
      modifies this
      ensures State() == WithInfo(old(State()), text, now)
    {
      SetMessage(text, Info, InfoFade, now);
    }

    method SetWarningMessage(text: string, now: nat)
      modifies this
      ensures State() == WithWarning(old(State()), text, now)
    {
      SetMessage(text, Warning, WarningFade, now);
    }

    method SetErrorMessage(text: string, now: nat)
      modifies this
      ensures State() == WithError(old(State()), text, now)
    {
      SetMessage(text, Error, ErrorFade, now);
    }

    method UpdateMessageFade(now: nat)
      modifies this
      ensures State() == FadeSpec(old(State()), now)
    {
      if status.Some? && Elapsed(status.value.timestamp, now) > status.value.fade {
        SetInfoMessage(DefaultText, now);
      }
    }

    method NextItem()
      modifies this
      ensures State() == NextSpec(old(State()))
    {
      if (searchMode || showingResults) && |searchResults| > 0 {
        var i := match searchSel
          case Some(i) => if i >= |searchResults| - 1 then 0 else i + 1
          case None => 0;
        searchSel := Some(i);
      } else if |explorer.files| > 0 {
        var i := match listSel
          case Some(i) => if i >= |explorer.files| - 1 then 0 else i + 1
          case None => 0;
        listSel := Some(i);
      }
    }

    method PreviousItem()
      modifies this
      ensures State() == PrevSpec(old(State()))
    {
      if (searchMode || showingResults) && |searchResults| > 0 {
        var i := match searchSel
          case Some(i) => if i == 0 then |searchResults| - 1 else i - 1
          case None => 0;
        searchSel := Some(i);
      } else if |explorer.files| > 0 {
        var i := match listSel
          case Some(i) => if i == 0 then |explorer.files| - 1 else i - 1
          case None => 0;
        listSel := Some(i);
      }
    }

    /** The search of the active strategy, by the search module's own procedures. */
    method RunSearch(env: SearchEnv) returns (result: Result<seq<S.SearchResult>, S.SearchError>)
      ensures result == SearchOutcome(State(), env)
    {
      match strategy {
        case Fast =>
          result := S.SearchFast(env.fs, explorer.currentPath, env.fastWalk, searchInput, env.fuzzy, 100, env.timedOut);
        case Comprehensive =>
          result := S.Search(env.fs, explorer.currentPath, env.fullWalk, searchInput, env.fuzzy, env.compile, env.timedOut);
        case LocalOnly =>
          var results := S.SearchInFiles(explorer.files, searchInput, env.fuzzy);
          result := Ok(results);
      }
    }

    method PerformSearch(env: SearchEnv, now: nat)
      modifies this
      ensures State() == PerformSpec(old(State()), env, now)
    {
      if searchInput != [] {
        SetInfoMessage("Searching for '" + searchInput + "' in " + FS.PathText(explorer.currentPath) + "...", now);
        var result := RunSearch(env);
        Report(result, now + env.duration);
      }
    }

    method Report(result: Result<seq<S.SearchResult>, S.SearchError>, now: nat)
      modifies this
      ensures State() == ReportSpec(old(State()), result, now)
    {
      match result {
        case Ok(results) =>
          searchResults := results;
          searchSel := if searchResults == [] then None else Some(0);
          if searchResults == [] {
            SetWarningMessage("No results found for '" + searchInput + "' (" + Description(strategy) + ")", now);
          } else {
            SetInfoMessage("Found " + NatToString(|searchResults|) + " results (" + Description(strategy) + ")", now);
          }
        case Err(e) =>
          SetErrorMessage("Search error: " + S.ErrorMessage(e), now);
      }
    }

    method ToggleSearchStrategy(now: nat)
      modifies this
      ensures State() == ToggleSpec(old(State()), now)
    {
      strategy := Next(strategy);
      SetInfoMessage("Search strategy: " + Description(strategy), now);
      if searchMode && searchInput != [] {
        status := Some(status.value.(text := status.value.text + " - type to search again"));
      } else {
        assert status.value.text == "Search strategy: " + Description(strategy) + "";
      }
    }

    method NavigateToSelected(fs: FS.Fs, now: nat) returns (r: Result<(), FS.IoError>)
      modifies this, explorer
      ensures (State(), r) == NavigateSelectedSpec(old(State()), fs, now)
    {
      if searchMode || showingResults {
        if searchSel.Some? && searchSel.value < |searchResults| && searchResults[searchSel.value].fileInfo.isDirectory {
          r := explorer.NavigateTo(searchResults[searchSel.value].fileInfo.path, fs);
          if r.Err? {
            return r;
          }
          ClearSearchResults(now);
        }
      } else if listSel.Some? && listSel.value < |explorer.files| && explorer.files[listSel.value].isDirectory {
        r := explorer.NavigateTo(explorer.files[listSel.value].path, fs);
        if r.Err? {
          return r;
        }
        listSel := Some(0);
      }
      return Ok(());
    }

    method GoUp(fs: FS.Fs) returns (r: Result<(), FS.IoError>)
      modifies this, explorer
      ensures (State(), r) == GoUpAppSpec(old(State()), fs)
    {
      r := explorer.GoUp(fs);
      if r.Err? {
        return r;
      }
      listSel := Some(0);
      return Ok(());
    }

    method EnterSearchMode(now: nat)
      modifies this
      ensures State() == EnterSpec(old(State()), now)
    {
      searchMode := true;
      showingResults := false;
      searchInput := [];
      searchResults := [];
      SetInfoMessage("Search mode: " + Description(strategy)
                     + " - Type to search, F2 to toggle strategy, ESC to exit, Enter to keep results", now);
    }

    method ExitSearchMode(now: nat)
      modifies this
      ensures State() == ExitSpec(old(State()), now)
    {
      if searchResults != [] {
        searchMode := false;
        showingResults := true;
        SetInfoMessage("Search results (" + NatToString(|searchResults|)
                       + " items) - Navigate with ↑↓, Enter to open, '/' to search again", now);
      } else {
        searchMode := false;
        showingResults := false;
        searchInput := [];
        SetInfoMessage(BrowseText, now);
      }
    }

    method ClearSearchResults(now: nat)
      modifies this
      ensures State() == ClearSpec(old(State()), now)
    {
      searchMode := false;
      showingResults := false;
      searchInput := [];
      searchResults := [];
      searchSel := None;
      listSel := Some(0);
      SetInfoMessage(DefaultText, now);
    }

    /** `open_selected_file`: the selection must be a file; the outcome is the opener's.
        `launch` stands for `open::that`. */
    function OpenSelectedFile(launch: FS.Path -> Result<(), string>): (r: Result<string, string>)
      reads this, explorer
      ensures SelectedFile(State()).Err? ==> r == Err(SelectedFile(State()).error)
      ensures SelectedFile(State()).Ok? && SelectedFile(State()).value.isDirectory ==>
        r == Err("Cannot open directory as file. Use Enter to navigate.")
      ensures SelectedFile(State()).Ok? && !SelectedFile(State()).value.isDirectory ==>
        (r.Ok? <==> launch(SelectedFile(State()).value.path).Ok?)
    {
      match SelectedFile(State())
      case Err(e) => Err(e)
      case Ok(fi) =>
        if fi.isDirectory then Err("Cannot open directory as file. Use Enter to navigate.")
        else
          match explorer.OpenFile(fi, launch)
          case Ok(_) => Ok("Opened '" + fi.name + "' with default application")
          case Err(e) => Err("Failed to open '" + fi.name + "': " + e.message)
    }

    /** `reveal_selected_in_file_manager`. */
    function RevealSelected(launch: FS.Path -> Result<(), string>): (r: Result<string, string>)
      reads this, explorer
      ensures SelectedFile(State()).Err? ==> r == Err(SelectedFile(State()).error)
      ensures SelectedFile(State()).Ok? ==>
        (r.Ok? <==> launch(explorer.RevealTarget(SelectedFile(State()).value)).Ok?)
    {
      match SelectedFile(State())
      case Err(e) => Err(e)
      case Ok(fi) =>
        match explorer.RevealInFileManager(fi, launch)
        case Ok(_) => Ok("Revealed '" + fi.name + "' in file manager")
        case Err(e) => Err("Failed to reveal '" + fi.name + "': " + e.message)
    }

    /** The search-mode branch of the event loop, for one key press. The pauses before
        a search advance the clock by 50 ms (toggle) and 100 ms (typed character). */
    method OnToggleKey(env: SearchEnv, now: nat)
      modifies this
      ensures State() == ToggleKeySpec(old(State()), env, now)
    {
      ToggleSearchStrategy(now);
      if searchInput != [] {
        PerformSearch(env, now + 50 * Millisecond);
      }
    }

    method OnBackspace(env: SearchEnv, now: nat)
      modifies this
      ensures State() == BackspaceSpec(old(State()), env, now)
    {
      if searchInput != [] {
        searchInput := searchInput[..|searchInput| - 1];
      }
      if searchInput != [] {
        PerformSearch(env, now);
      } else {
        searchResults := [];
      }
    }

    method OnChar(c: char, env: SearchEnv, now: nat)
      modifies this
      ensures State() == TypeSpec(old(State()), c, env, now)
    {
      searchInput := searchInput + [c];
      PerformSearch(env, now + 100 * Millisecond);
    }

    method HandleSearchKey(key: SearchKey, env: SearchEnv, now: nat)
      requires searchMode
      modifies this, explorer
      ensures State() == HandleSearchKeySpec(old(State()), key, env, now)
    {
      match key {
        case ExitSearch =>
          ExitSearchMode(now);
        case ExitToResults =>
          ExitSearchMode(now);
        case ToggleStrategy =>
          OnToggleKey(env, now);
        case Backspace =>
          OnBackspace(env, now);
        case Up =>
          PreviousItem();
        case Down =>
          NextItem();
        case NavigateTab =>
          var _ := NavigateToSelected(env.fs, now);
        case Char(c) =>
          OnChar(c, env, now);
        case OtherKey =>
      }
    }
  }
}
