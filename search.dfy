/** The search engine (src/search.rs): per-entry scoring closures, the collect / sort /
    truncate pipeline, and root validation.

    The directory walker is replaced by its output: an arbitrary sequence of walk items
    (`DirEntry`, an error item being dropped as `filter_map(|e| e.ok())` drops it).
    The fuzzy matcher is the parameter `fuzzy(choice, pattern)`, and compiling the
    pattern as a regular expression is `compile(pattern)`, `None` when it is invalid.
    Whether the timeout fired is the parameter `timedOut`. */
module Search {
  import opened Wrappers
  import opened Strings
  import FS = FileSystem
  import Sorting

  datatype MatchType = FileName | FilePath

  datatype SearchResult = SearchResult(fileInfo: FS.FileInfo, score: int, matchType: MatchType)

  /** A compiled regular expression, as `Regex::is_match` sees it. */
  type Matcher = string -> bool

  const FullLimit: nat := 1000

  // ---------------------------------------------------------------- sequences

  /** `filter_map(..).collect()` over an ordered source. */
  function FilterMap<A, B>(s: seq<A>, f: A -> Option<B>): (r: seq<B>)
    ensures |r| <= |s|
  {
    if s == [] then []
    else FilterMap(s[..|s| - 1], f) + (match f(s[|s| - 1]) case Some(b) => [b] case None => [])
  }

  lemma FilterMapMembers<A, B>(s: seq<A>, f: A -> Option<B>, b: B)
    ensures b in FilterMap(s, f) <==> exists i :: 0 <= i < |s| && f(s[i]) == Some(b)
  {
    if b in FilterMap(s, f) {
      FilterMapSound(s, f, b);
    }
    if exists i :: 0 <= i < |s| && f(s[i]) == Some(b) {
      var i :| 0 <= i < |s| && f(s[i]) == Some(b);
      FilterMapComplete(s, f, i);
    }
  }

  lemma {:induction false} FilterMapSound<A, B>(s: seq<A>, f: A -> Option<B>, b: B)
    requires b in FilterMap(s, f)
    ensures exists i :: 0 <= i < |s| && f(s[i]) == Some(b)
  {
    var init := s[..|s| - 1];
    if b in FilterMap(init, f) {
      FilterMapSound(init, f, b);
      var i :| 0 <= i < |init| && f(init[i]) == Some(b);
      assert s[i] == init[i];
    } else {
      assert f(s[|s| - 1]) == Some(b);
    }
  }

  lemma {:induction false} FilterMapComplete<A, B>(s: seq<A>, f: A -> Option<B>, i: nat)
    requires i < |s| && f(s[i]).Some?
    ensures f(s[i]).value in FilterMap(s, f)
  {
    var init := s[..|s| - 1];
    if i < |init| {
      FilterMapComplete(init, f, i);
      assert init[i] == s[i];
    }
  }

  /** `Vec::truncate(n)`. */
  function Take<T>(s: seq<T>, n: nat): (r: seq<T>)
    ensures |r| <= n && |r| <= |s|
    ensures n < |s| ==> |r| == n
    ensures n >= |s| ==> r == s
    ensures r == s[..|r|]
  {
    if n >= |s| then s else s[..n]
  }

  // ---------------------------------------------------------------- ordering

  /** The comparator `b.score.cmp(&a.score)`: higher scores first. */
  predicate ByScoreDesc(a: SearchResult, b: SearchResult)
  {
    a.score > b.score
  }

  lemma ByScoreDescIsStrictWeakOrder()
    ensures Sorting.StrictWeakOrder(ByScoreDesc)
  {
  }

  predicate ScoresNonIncreasing(r: seq<SearchResult>)
  {
    forall i, j :: 0 <= i < j < |r| ==> r[i].score >= r[j].score
  }

  /** The results of `s` that have score `k`, in their order in `s`. */
  function WithScore(s: seq<SearchResult>, k: int): seq<SearchResult>
  {
    if s == [] then []
    else WithScore(s[..|s| - 1], k) + (if s[|s| - 1].score == k then [s[|s| - 1]] else [])
  }

  lemma {:induction false} ClassIsWithScore(s: seq<SearchResult>, y: SearchResult)
    ensures Sorting.Class(s, y, ByScoreDesc) == WithScore(s, y.score)
  {
    if s != [] {
      ClassIsWithScore(s[..|s| - 1], y);
    }
  }

  /** Sorting by descending score yields non-increasing scores and keeps the elements
      and, within each score, their relative order. */
  lemma SortByScore(s: seq<SearchResult>)
    ensures var r := Sorting.SortSpec(s, ByScoreDesc);
      ScoresNonIncreasing(r) && |r| == |s| && multiset(r) == multiset(s)
      && forall k :: WithScore(r, k) == WithScore(s, k)
  {
    var r := Sorting.SortSpec(s, ByScoreDesc);
    ByScoreDescIsStrictWeakOrder();
    Sorting.SortSpecSorted(s, ByScoreDesc);
    Sorting.SortSpecPermutation(s, ByScoreDesc);
    forall k ensures WithScore(r, k) == WithScore(s, k) {
      var y := SearchResult(FS.FileInfo(FS.Path(false, []), "", false, 0, None), k, FileName);
      Sorting.SortSpecStable(s, y, ByScoreDesc);
      ClassIsWithScore(r, y);
      ClassIsWithScore(s, y);
    }
  }

  /** Truncating a list sorted by descending score keeps it sorted and keeps the best:
      nothing cut off scores above anything kept. */
  lemma TakeSorted(s: seq<SearchResult>, n: nat)
    requires ScoresNonIncreasing(s)
    ensures ScoresNonIncreasing(Take(s, n))
    ensures forall x, y :: x in s && x !in Take(s, n) && y in Take(s, n) ==> x.score <= y.score
  {
    var r := Take(s, n);
    forall x, y | x in s && x !in r && y in r
      ensures x.score <= y.score
    {
      var j :| 0 <= j < |s| && s[j] == x;
      var k :| 0 <= k < |r| && r[k] == y;
      assert s[k] == y;
      forall i | 0 <= i < |r|
        ensures s[i] != x
      {
        assert s[i] == r[i];
      }
    }
  }

  // ---------------------------------------------------------------- full search, per entry

  /** The cheap test that decides whether an entry is scored at all: the lower-cased
      pattern in the lower-cased file name or path, a regex match on the path, or a
      fuzzy match on the file name. */
  predicate PreFilter(filename: string, pathStr: string, pattern: string,
                      fuzzy: (string, string) -> Option<int>, regex: Option<Matcher>)
  {
    Contains(Lower(filename), Lower(pattern)) || Contains(Lower(pathStr), Lower(pattern))
    || (regex.Some? && regex.value(pathStr))
    || fuzzy(filename, pattern).Some?
  }

  /** The detailed scoring of an entry whose record is `fi`, in priority order. */
  function ScoreEntry(fi: FS.FileInfo, filename: string, pathStr: string, pattern: string,
                      fuzzy: (string, string) -> Option<int>, regex: Option<Matcher>): Option<SearchResult>
  {
    match fuzzy(fi.name, pattern)
    case Some(score) => Some(SearchResult(fi, score, FileName))
    case None =>
      if regex.Some? && regex.value(pathStr) then Some(SearchResult(fi, 50, FilePath))
      else if Contains(Lower(pathStr), Lower(pattern)) then
        Some(SearchResult(fi, if Contains(Lower(filename), Lower(pattern)) then 40 else 30, FilePath))
      else None
  }

  /** The closure of `search_internal` applied to one walked path. */
  function EvaluateFull(fs: FS.Fs, p: FS.Path, pattern: string,
                        fuzzy: (string, string) -> Option<int>, regex: Option<Matcher>): Option<SearchResult>
  {
    match FS.FileName(p)
    case None => None
    case Some(filename) =>
      var pathStr := FS.PathText(p);
      if !PreFilter(filename, pathStr, pattern, fuzzy, regex) then None
      else
        match FS.FromPath(fs, p)
        case Err(_) => None
        case Ok(fi) => ScoreEntry(fi, filename, pathStr, pattern, fuzzy, regex)
  }

  /** The pre-filter never drops an entry the scorer would accept: the full search
      evaluates every entry exactly as if there were no pre-filter. */
  lemma PreFilterIsSuperset(fs: FS.Fs, p: FS.Path, pattern: string,
                            fuzzy: (string, string) -> Option<int>, regex: Option<Matcher>)
    ensures EvaluateFull(fs, p, pattern, fuzzy, regex)
         == match FS.FileName(p)
            case None => None
            case Some(filename) =>
              match FS.FromPath(fs, p)
              case Err(_) => None
              case Ok(fi) => ScoreEntry(fi, filename, FS.PathText(p), pattern, fuzzy, regex)
  {
  }

  /** The priority order of the full-search scorer, for an entry with a file name that
      can be stat'ed. */
  lemma FullTiers(fs: FS.Fs, p: FS.Path, pattern: string,
                  fuzzy: (string, string) -> Option<int>, regex: Option<Matcher>)
    requires FS.FileName(p).Some? && FS.Exists(fs, p)
    ensures var fi := FS.FromPath(fs, p).value;
      var name := FS.FileName(p).value;
      var pathStr := FS.PathText(p);
      var r := EvaluateFull(fs, p, pattern, fuzzy, regex);
      if fuzzy(name, pattern).Some? then r == Some(SearchResult(fi, fuzzy(name, pattern).value, FileName))
      else if regex.Some? && regex.value(pathStr) then r == Some(SearchResult(fi, 50, FilePath))
      else if Contains(Lower(pathStr), Lower(pattern)) then
        r == Some(SearchResult(fi, if Contains(Lower(name), Lower(pattern)) then 40 else 30, FilePath))
      else r == None
  {
    PreFilterIsSuperset(fs, p, pattern, fuzzy, regex);
  }

  /** An invalid regular expression only switches the regex tier off: the entry is
      evaluated as with a regex that matches nothing. */
  lemma InvalidRegexDisablesTier(fs: FS.Fs, p: FS.Path, pattern: string,
                                 fuzzy: (string, string) -> Option<int>)
    ensures EvaluateFull(fs, p, pattern, fuzzy, None)
         == EvaluateFull(fs, p, pattern, fuzzy, Some((s: string) => false))
  {
    PreFilterIsSuperset(fs, p, pattern, fuzzy, None);
    PreFilterIsSuperset(fs, p, pattern, fuzzy, Some((s: string) => false));
  }

  function CollectFull(fs: FS.Fs, walk: seq<FS.DirEntry>, pattern: string,
                       fuzzy: (string, string) -> Option<int>, regex: Option<Matcher>): seq<SearchResult>
  {
    FilterMap(walk, (e: FS.DirEntry) => if e.Entry? then EvaluateFull(fs, e.path, pattern, fuzzy, regex) else None)
  }

  // ---------------------------------------------------------------- fast search, per entry

  /** The closure of `search_fast_internal`: a name containing the pattern always
      matches (fuzzy score or 25); any other name only through the fuzzy matcher. */
  function EvaluateFast(fs: FS.Fs, p: FS.Path, pattern: string,
                        fuzzy: (string, string) -> Option<int>): (r: Option<SearchResult>)
    ensures r.Some? ==> r.value.matchType == FileName && FS.FromPath(fs, p) == Ok(r.value.fileInfo)
    ensures r.Some? && Contains(Lower(r.value.fileInfo.name), Lower(pattern)) ==>
      r.value.score == fuzzy(r.value.fileInfo.name, pattern).GetOr(25)
    ensures r.Some? && !Contains(Lower(r.value.fileInfo.name), Lower(pattern)) ==>
      fuzzy(r.value.fileInfo.name, pattern) == Some(r.value.score)
    ensures r.None? && FS.FileName(p).Some? && FS.Exists(fs, p) ==>
      !Contains(Lower(FS.FileName(p).value), Lower(pattern)) && fuzzy(FS.FileName(p).value, pattern).None?
  {
    match FS.FileName(p)
    case None => None
    case Some(filename) =>
      if Contains(Lower(filename), Lower(pattern)) then
        match FS.FromPath(fs, p)
        case Err(_) => None
        case Ok(fi) => Some(SearchResult(fi, fuzzy(fi.name, pattern).GetOr(25), FileName))
      else
        match fuzzy(filename, pattern)
        case None => None
        case Some(score) =>
          match FS.FromPath(fs, p)
          case Err(_) => None
          case Ok(fi) => Some(SearchResult(fi, score, FileName))
  }

  function CollectFast(fs: FS.Fs, walk: seq<FS.DirEntry>, pattern: string,
                       fuzzy: (string, string) -> Option<int>): seq<SearchResult>
  {
    FilterMap(walk, (e: FS.DirEntry) => if e.Entry? then EvaluateFast(fs, e.path, pattern, fuzzy) else None)
  }

  // ---------------------------------------------------------------- local search, per entry

  /** The closure of `search_in_files`. */
  function EvaluateLocal(fi: FS.FileInfo, pattern: string,
                         fuzzy: (string, string) -> Option<int>): (r: Option<SearchResult>)
    ensures r.Some? ==> r.value.fileInfo == fi && r.value.matchType == FileName
    ensures Contains(Lower(fi.name), Lower(pattern)) ==>
      r == Some(SearchResult(fi, fuzzy(fi.name, pattern).GetOr(25), FileName))
    ensures !Contains(Lower(fi.name), Lower(pattern)) ==>
      (r.Some? <==> fuzzy(fi.name, pattern).Some?)
      && (r.Some? ==> r.value.score == fuzzy(fi.name, pattern).value)
  {
    if !Contains(Lower(fi.name), Lower(pattern)) then
      match fuzzy(fi.name, pattern)
      case Some(score) => Some(SearchResult(fi, score, FileName))
      case None => None
    else
      Some(SearchResult(fi, fuzzy(fi.name, pattern).GetOr(25), FileName))
  }

  function CollectLocal(files: seq<FS.FileInfo>, pattern: string,
                        fuzzy: (string, string) -> Option<int>): seq<SearchResult>
  {
    FilterMap(files, (fi: FS.FileInfo) => EvaluateLocal(fi, pattern, fuzzy))
  }

  // ---------------------------------------------------------------- whole searches

  datatype SearchError = RootMissing(root: FS.Path) | RootNotDirectory(root: FS.Path)
                       | TimedOut | FastTimedOut

  /** The text each error displays as. */
  function ErrorMessage(e: SearchError): string
  {
    match e
    case RootMissing(root) => "Search path does not exist: " + FS.PathText(root)
    case RootNotDirectory(root) => "Search path is not a directory: " + FS.PathText(root)
    case TimedOut =>
      "Search timed out after 30 seconds. Try a more specific search term or search from a smaller directory."
    case FastTimedOut => "Fast search timed out after 10 seconds. Try a more specific search term."
  }

  /** Root validation shared by both walking searches; it runs before any traversal. */
  function ValidateRoot(fs: FS.Fs, root: FS.Path): Option<SearchError>
  {
    if !FS.Exists(fs, root) then Some(RootMissing(root))
    else if !FS.IsDir(fs, root) then Some(RootNotDirectory(root))
    else None
  }

  /** `search`: validation, then (unless the 30-second timeout fires) the collected
      results sorted by descending score and cut to 1000. */
  function FullSearch(fs: FS.Fs, root: FS.Path, walk: seq<FS.DirEntry>, pattern: string,
                      fuzzy: (string, string) -> Option<int>, compile: string -> Option<Matcher>,
                      timedOut: bool): Result<seq<SearchResult>, SearchError>
  {
    match ValidateRoot(fs, root)
    case Some(e) => Err(e)
    case None =>
      if timedOut then Err(TimedOut)
      else Ok(Take(Sorting.SortSpec(CollectFull(fs, walk, pattern, fuzzy, compile(pattern)), ByScoreDesc), FullLimit))
  }

  /** `search_fast`: the same shape with the fast closure and the caller's limit. */
  function FastSearch(fs: FS.Fs, root: FS.Path, walk: seq<FS.DirEntry>, pattern: string,
                      fuzzy: (string, string) -> Option<int>, maxResults: nat,
                      timedOut: bool): Result<seq<SearchResult>, SearchError>
  {
    match ValidateRoot(fs, root)
    case Some(e) => Err(e)
    case None =>
      if timedOut then Err(FastTimedOut)
      else Ok(Take(Sorting.SortSpec(CollectFast(fs, walk, pattern, fuzzy), ByScoreDesc), maxResults))
  }

  /** `search_in_files`: every matching entry, sorted by descending score. */
  function LocalSearch(files: seq<FS.FileInfo>, pattern: string,
                       fuzzy: (string, string) -> Option<int>): seq<SearchResult>
  {
    Sorting.SortSpec(CollectLocal(files, pattern, fuzzy), ByScoreDesc)
  }

  method Search(fs: FS.Fs, root: FS.Path, walk: seq<FS.DirEntry>, pattern: string,
                fuzzy: (string, string) -> Option<int>, compile: string -> Option<Matcher>,
                timedOut: bool) returns (r: Result<seq<SearchResult>, SearchError>)
    ensures r == FullSearch(fs, root, walk, pattern, fuzzy, compile, timedOut)
  {
    if !FS.Exists(fs, root) {
      return Err(RootMissing(root));
    }
    if !FS.IsDir(fs, root) {
      return Err(RootNotDirectory(root));
    }
    if timedOut {
      return Err(TimedOut);
    }
    var results := CollectFull(fs, walk, pattern, fuzzy, compile(pattern));
    var sorted := Sorting.SortSeq(results, ByScoreDesc);
    if |sorted| > FullLimit {
      sorted := sorted[..FullLimit];
    }
    return Ok(sorted);
  }

  method SearchFast(fs: FS.Fs, root: FS.Path, walk: seq<FS.DirEntry>, pattern: string,
                    fuzzy: (string, string) -> Option<int>, maxResults: nat,
                    timedOut: bool) returns (r: Result<seq<SearchResult>, SearchError>)
    ensures r == FastSearch(fs, root, walk, pattern, fuzzy, maxResults, timedOut)
  {
    if !FS.Exists(fs, root) {
      return Err(RootMissing(root));
    }
    if !FS.IsDir(fs, root) {
      return Err(RootNotDirectory(root));
    }
    if timedOut {
      return Err(FastTimedOut);
    }
    var results := CollectFast(fs, walk, pattern, fuzzy);
    var sorted := Sorting.SortSeq(results, ByScoreDesc);
    if |sorted| > maxResults {
      sorted := sorted[..maxResults];
    }
    return Ok(sorted);
  }

  method SearchInFiles(files: seq<FS.FileInfo>, pattern: string,
                       fuzzy: (string, string) -> Option<int>) returns (r: seq<SearchResult>)
    ensures r == LocalSearch(files, pattern, fuzzy)
  {
    var results := CollectLocal(files, pattern, fuzzy);
    r := Sorting.SortSeq(results, ByScoreDesc);
  }

  // ---------------------------------------------------------------- properties

  /** Both walking searches fail exactly when the root is missing or not a directory,
      or the timeout fires; root validation wins over the timeout. */
  lemma SearchErrors(fs: FS.Fs, root: FS.Path, walk: seq<FS.DirEntry>, pattern: string,
                     fuzzy: (string, string) -> Option<int>, compile: string -> Option<Matcher>,
                     maxResults: nat, timedOut: bool)
    ensures var full := FullSearch(fs, root, walk, pattern, fuzzy, compile, timedOut);
      var fast := FastSearch(fs, root, walk, pattern, fuzzy, maxResults, timedOut);
      (full.Err? <==> !FS.IsDir(fs, root) || timedOut)
      && (fast.Err? <==> !FS.IsDir(fs, root) || timedOut)
      && (!FS.Exists(fs, root) ==> full == Err(RootMissing(root)) && fast == Err(RootMissing(root)))
      && (FS.Exists(fs, root) && !FS.IsDir(fs, root) ==>
            full == Err(RootNotDirectory(root)) && fast == Err(RootNotDirectory(root)))
  {
  }

  /** A full search returns at most 1000 evaluated walk entries with non-increasing
      scores, and when no more than 1000 entries match it returns all of them. */
  lemma FullSearchResults(fs: FS.Fs, root: FS.Path, walk: seq<FS.DirEntry>, pattern: string,
                          fuzzy: (string, string) -> Option<int>, compile: string -> Option<Matcher>,
                          timedOut: bool)
    requires FullSearch(fs, root, walk, pattern, fuzzy, compile, timedOut).Ok?
    ensures var r := FullSearch(fs, root, walk, pattern, fuzzy, compile, timedOut).value;
      |r| <= FullLimit && ScoresNonIncreasing(r)
      && (forall x :: x in r ==>
            exists i :: (0 <= i < |walk| && walk[i].Entry?
                         && EvaluateFull(fs, walk[i].path, pattern, fuzzy, compile(pattern)) == Some(x)))
      && (|CollectFull(fs, walk, pattern, fuzzy, compile(pattern))| <= FullLimit ==>
            forall i :: (0 <= i < |walk| && walk[i].Entry?
                         && EvaluateFull(fs, walk[i].path, pattern, fuzzy, compile(pattern)).Some?) ==>
              EvaluateFull(fs, walk[i].path, pattern, fuzzy, compile(pattern)).value in r)
  {
    var regex := compile(pattern);
    var f := (e: FS.DirEntry) => if e.Entry? then EvaluateFull(fs, e.path, pattern, fuzzy, regex) else None;
    var collected := CollectFull(fs, walk, pattern, fuzzy, regex);
    var sorted := Sorting.SortSpec(collected, ByScoreDesc);
    var r := Take(sorted, FullLimit);
    SortByScore(collected);
    forall x | x in r
      ensures exists i :: (0 <= i < |walk| && walk[i].Entry?
                           && EvaluateFull(fs, walk[i].path, pattern, fuzzy, regex) == Some(x))
    {
      Sorting.SortSpecMembers(collected, ByScoreDesc, x);
      FilterMapMembers(walk, f, x);
      var i :| 0 <= i < |walk| && f(walk[i]) == Some(x);
    }
    if |collected| <= FullLimit {
      forall i | (0 <= i < |walk| && walk[i].Entry?
                  && EvaluateFull(fs, walk[i].path, pattern, fuzzy, regex).Some?)
        ensures EvaluateFull(fs, walk[i].path, pattern, fuzzy, regex).value in r
      {
        var x := EvaluateFull(fs, walk[i].path, pattern, fuzzy, regex).value;
        assert f(walk[i]) == Some(x);
        FilterMapMembers(walk, f, x);
        Sorting.SortSpecMembers(collected, ByScoreDesc, x);
      }
    }
  }

  /** A fast search returns at most `maxResults` evaluated walk entries, all name
      matches, with non-increasing scores; a name containing the pattern scores its fuzzy
      score or 25, any other name exactly its fuzzy score. When no more than `maxResults`
      entries match it returns all of them. */
  lemma FastSearchResults(fs: FS.Fs, root: FS.Path, walk: seq<FS.DirEntry>, pattern: string,
                          fuzzy: (string, string) -> Option<int>, maxResults: nat, timedOut: bool)
    requires FastSearch(fs, root, walk, pattern, fuzzy, maxResults, timedOut).Ok?
    ensures var r := FastSearch(fs, root, walk, pattern, fuzzy, maxResults, timedOut).value;
      |r| <= maxResults && ScoresNonIncreasing(r)
      && (forall x :: x in r ==>
           (exists i :: 0 <= i < |walk| && walk[i].Entry?
                        && EvaluateFast(fs, walk[i].path, pattern, fuzzy) == Some(x))
           && x.matchType == FileName
           && (Contains(Lower(x.fileInfo.name), Lower(pattern)) ==>
                 x.score == fuzzy(x.fileInfo.name, pattern).GetOr(25))
           && (!Contains(Lower(x.fileInfo.name), Lower(pattern)) ==>
                 fuzzy(x.fileInfo.name, pattern) == Some(x.score)))
      && (|CollectFast(fs, walk, pattern, fuzzy)| <= maxResults ==>
            forall i :: (0 <= i < |walk| && walk[i].Entry?
                         && EvaluateFast(fs, walk[i].path, pattern, fuzzy).Some?) ==>
              EvaluateFast(fs, walk[i].path, pattern, fuzzy).value in r)
  {
    var f := (e: FS.DirEntry) => if e.Entry? then EvaluateFast(fs, e.path, pattern, fuzzy) else None;
    var collected := CollectFast(fs, walk, pattern, fuzzy);
    var r := Take(Sorting.SortSpec(collected, ByScoreDesc), maxResults);
    SortByScore(collected);
    forall x | x in r
      ensures (exists i :: 0 <= i < |walk| && walk[i].Entry?
                           && EvaluateFast(fs, walk[i].path, pattern, fuzzy) == Some(x))
           && x.matchType == FileName
           && (Contains(Lower(x.fileInfo.name), Lower(pattern)) ==>
                 x.score == fuzzy(x.fileInfo.name, pattern).GetOr(25))
           && (!Contains(Lower(x.fileInfo.name), Lower(pattern)) ==>
                 fuzzy(x.fileInfo.name, pattern) == Some(x.score))
    {
      Sorting.SortSpecMembers(collected, ByScoreDesc, x);
      FilterMapMembers(walk, f, x);
      var i :| 0 <= i < |walk| && f(walk[i]) == Some(x);
    }
    if |collected| <= maxResults {
      forall i | (0 <= i < |walk| && walk[i].Entry?
                  && EvaluateFast(fs, walk[i].path, pattern, fuzzy).Some?)
        ensures EvaluateFast(fs, walk[i].path, pattern, fuzzy).value in r
      {
        var x := EvaluateFast(fs, walk[i].path, pattern, fuzzy).value;
        assert f(walk[i]) == Some(x);
        FilterMapMembers(walk, f, x);
        Sorting.SortSpecMembers(collected, ByScoreDesc, x);
      }
    }
  }

  /** A full search keeps exactly `min(hits, 1000)` results, and no hit that is cut off
      scores above one that is kept. */
  lemma FullSearchKeepsBest(fs: FS.Fs, root: FS.Path, walk: seq<FS.DirEntry>, pattern: string,
                            fuzzy: (string, string) -> Option<int>, compile: string -> Option<Matcher>,
                            timedOut: bool)
    requires FullSearch(fs, root, walk, pattern, fuzzy, compile, timedOut).Ok?
    ensures var hits := CollectFull(fs, walk, pattern, fuzzy, compile(pattern));
      var r := FullSearch(fs, root, walk, pattern, fuzzy, compile, timedOut).value;
      |r| == (if |hits| < FullLimit then |hits| else FullLimit)
      && (forall x :: x in r ==> x in hits)
      && forall x, y :: x in hits && x !in r && y in r ==> x.score <= y.score
  {
    var hits := CollectFull(fs, walk, pattern, fuzzy, compile(pattern));
    var sorted := Sorting.SortSpec(hits, ByScoreDesc);
    SortByScore(hits);
    TakeSorted(sorted, FullLimit);
    forall x | x in hits || x in Take(sorted, FullLimit)
      ensures x in hits <==> x in sorted
    {
      Sorting.SortSpecMembers(hits, ByScoreDesc, x);
    }
  }

  /** A fast search keeps exactly `min(hits, maxResults)` results, and no hit that is
      cut off scores above one that is kept. */
  lemma FastSearchKeepsBest(fs: FS.Fs, root: FS.Path, walk: seq<FS.DirEntry>, pattern: string,
                            fuzzy: (string, string) -> Option<int>, maxResults: nat, timedOut: bool)
    requires FastSearch(fs, root, walk, pattern, fuzzy, maxResults, timedOut).Ok?
    ensures var hits := CollectFast(fs, walk, pattern, fuzzy);
      var r := FastSearch(fs, root, walk, pattern, fuzzy, maxResults, timedOut).value;
      |r| == (if |hits| < maxResults then |hits| else maxResults)
      && (forall x :: x in r ==> x in hits)
      && forall x, y :: x in hits && x !in r && y in r ==> x.score <= y.score
  {
    var hits := CollectFast(fs, walk, pattern, fuzzy);
    var sorted := Sorting.SortSpec(hits, ByScoreDesc);
    SortByScore(hits);
    TakeSorted(sorted, maxResults);
    forall x | x in hits || x in Take(sorted, maxResults)
      ensures x in hits <==> x in sorted
    {
      Sorting.SortSpecMembers(hits, ByScoreDesc, x);
    }
  }

  /** `search_in_files` returns at most one result per entry, each a copy of an entry
      tagged `FileName`, with non-increasing scores; results with equal scores keep
      the order of their entries. */
  lemma LocalSearchShape(files: seq<FS.FileInfo>, pattern: string,
                         fuzzy: (string, string) -> Option<int>)
    ensures var r := LocalSearch(files, pattern, fuzzy);
      |r| <= |files| && ScoresNonIncreasing(r)
      && (forall x :: x in r ==> x.fileInfo in files && x.matchType == FileName)
      && forall k :: WithScore(r, k) == WithScore(CollectLocal(files, pattern, fuzzy), k)
  {
    var f := (fi: FS.FileInfo) => EvaluateLocal(fi, pattern, fuzzy);
    var collected := CollectLocal(files, pattern, fuzzy);
    SortByScore(collected);
    forall x | x in LocalSearch(files, pattern, fuzzy)
      ensures x.fileInfo in files && x.matchType == FileName
    {
      Sorting.SortSpecMembers(collected, ByScoreDesc, x);
      FilterMapMembers(files, f, x);
      var i :| 0 <= i < |files| && f(files[i]) == Some(x);
    }
  }

  /** Which entries `search_in_files` returns: one whose lower-cased name contains the
      lower-cased pattern always (fuzzy score or 25), any other exactly when the fuzzy
      matcher accepts it (with that score). */
  lemma LocalSearchMembers(files: seq<FS.FileInfo>, pattern: string,
                           fuzzy: (string, string) -> Option<int>, i: nat)
    requires i < |files|
    ensures var r := LocalSearch(files, pattern, fuzzy);
      var fi := files[i];
      (Contains(Lower(fi.name), Lower(pattern)) ==>
         SearchResult(fi, fuzzy(fi.name, pattern).GetOr(25), FileName) in r)
      && (!Contains(Lower(fi.name), Lower(pattern)) ==>
           ((exists x :: x in r && x.fileInfo == fi) <==> fuzzy(fi.name, pattern).Some?)
           && (fuzzy(fi.name, pattern).Some? ==>
                 SearchResult(fi, fuzzy(fi.name, pattern).value, FileName) in r))
  {
    var f := (fi: FS.FileInfo) => EvaluateLocal(fi, pattern, fuzzy);
    var collected := CollectLocal(files, pattern, fuzzy);
    var r := LocalSearch(files, pattern, fuzzy);
    var fi := files[i];
    if f(fi).Some? {
      FilterMapMembers(files, f, f(fi).value);
      Sorting.SortSpecMembers(collected, ByScoreDesc, f(fi).value);
    }
    if !Contains(Lower(fi.name), Lower(pattern)) && fuzzy(fi.name, pattern).None? {
      forall x | x in r ensures x.fileInfo != fi {
        Sorting.SortSpecMembers(collected, ByScoreDesc, x);
        FilterMapMembers(files, f, x);
      }
    }
  }
}
