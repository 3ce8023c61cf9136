/**
 * A model of `crates/maple_cli/src/cmd/grep.rs`: how the grep command's
 * arguments are composed, how a cached result is recognised and served, how
 * `dyn_grep` picks its data source, and when the forerunner job runs.
 *
 * Everything the environment supplies is a parameter: the cache storage
 * (`CacheStore`), the set of paths that exist, the result of
 * `std::env::current_dir()`, and whether the platform is Windows. Running
 * processes is not modelled; an operation returns the command it would run.
 */
module Grep {
  import opened Wrappers
  import opened Text
  import opened Numbers

  /** A file-system path, as its sequence of components. */
  type Path = seq<string>

  /** The ways the code panics instead of returning an error. */
  datatype Panic =
    | IndexOutOfBounds            // `args[0]` on an empty argument vector
    | UnwrapParseError(suffix: string)  // `parse::<u64>().unwrap()` on a suffix that is not a `u64`

  /** A `std::process::Command` as configured before it is handed to the executor. */
  datatype GrepCommand = GrepCommand(program: string, args: seq<string>, cwd: Option<Path>)

  // ---------------------------------------------------------------------------
  // Argument composition: `prepare_grep_and_args` and `run`
  // ---------------------------------------------------------------------------

  /** What `prepare_grep_and_args` returns: the command for the first token, and every token. */
  datatype Prepared = Prepared(cmd: GrepCommand, args: seq<string>)

  /**
   * `prepare_grep_and_args`: split the command string on whitespace, make a
   * command for the first token, in `cmdDir` when one is given. A blank
   * command string has no first token and panics.
   */
  function PrepareGrepAndArgs(cmdStr: string, cmdDir: Option<Path>): (r: Result<Prepared, Panic>)
    ensures r.Failure? <==> IsBlank(cmdStr)
    ensures r.Failure? ==> r.error == IndexOutOfBounds
    ensures r.Success? ==>
      && r.value.args == SplitWhitespace(cmdStr)
      && |r.value.args| >= 1
      && r.value.cmd == GrepCommand(r.value.args[0], [], cmdDir)
  {
    SplitBlank(cmdStr);
    var args := SplitWhitespace(cmdStr);
    if |args| == 0 then Failure(IndexOutOfBounds)
    else Success(Prepared(GrepCommand(args[0], [], cmdDir), args))
  }

  /** The tokens a glob filter adds. */
  function GlobArgs(glob: Option<string>): seq<string>
  {
    if glob.Some? then ["-g", glob.value] else []
  }

  /** The trailing path token ripgrep needs on Windows. */
  function PlatformArgs(windows: bool): seq<string>
  {
    if windows then ["."] else []
  }

  /** What `run` hands to the executor: the command, and the whole argument vector. */
  datatype GrepRun = GrepRun(cmd: GrepCommand, executed: seq<string>)

  /**
   * `run`: the query goes in as one token after the command's own tokens,
   * then `-g <glob>` when a glob is given, then `.` on Windows. The first
   * token names the executable and the rest are its arguments.
   */
  method Run(grepCmd: string, grepQuery: string, glob: Option<string>, cmdDir: Option<Path>, windows: bool)
    returns (r: Result<GrepRun, Panic>)
    ensures r.Failure? <==> IsBlank(grepCmd)
    ensures r.Failure? ==> r.error == IndexOutOfBounds
    ensures r.Success? ==>
      && r.value.executed == SplitWhitespace(grepCmd) + [grepQuery] + GlobArgs(glob) + PlatformArgs(windows)
      && r.value.cmd == GrepCommand(r.value.executed[0], r.value.executed[1..], cmdDir)
  {
    var prepared := PrepareGrepAndArgs(grepCmd, cmdDir);
    if prepared.Failure? {
      return Failure(prepared.error);
    }
    var cmd := prepared.value.cmd;
    var args := prepared.value.args;
    args := args + [grepQuery];
    if glob.Some? {
      args := args + ["-g"];
      args := args + [glob.value];
    }
    if windows {
      args := args + ["."];
    }
    cmd := cmd.(args := args[1..]);
    r := Success(GrepRun(cmd, args));
  }

  /**
   * Where each piece lands in the composed vector: the command's tokens first,
   * the query as the single next token, the glob flag and pattern after it,
   * and `.` last on Windows.
   */
  lemma ComposedLayout(base: seq<string>, query: string, glob: Option<string>, windows: bool)
    ensures var a := base + [query] + GlobArgs(glob) + PlatformArgs(windows);
      && |a| == |base| + 1 + (if glob.Some? then 2 else 0) + (if windows then 1 else 0)
      && a[..|base|] == base
      && a[|base|] == query
      && (glob.Some? ==> a[|base| + 1] == "-g" && a[|base| + 2] == glob.value)
      && (windows ==> a[|a| - 1] == ".")
      && (!windows && glob.None? ==> a[|a| - 1] == query)
  {
  }

  /**
   * Why the query is kept apart from the command string: a query holding
   * whitespace is never one of the tokens `split_whitespace` produces, from
   * any string at all.
   */
  lemma QueryNeedsOwnToken(query: string, s: string)
    requires exists i :: 0 <= i < |query| && IsWhitespace(query[i])
    ensures query !in SplitWhitespace(s)
  {
    var ts := SplitWhitespace(s);
    forall k | 0 <= k < |ts| ensures ts[k] != query {
      assert IsToken(ts[k]);
    }
  }

  // ---------------------------------------------------------------------------
  // The git-repository gate: `is_git_repo`
  // ---------------------------------------------------------------------------

  /** A path directly below `dir` whose last component is `.git`. */
  predicate IsGitChild(p: Path, dir: Path)
  {
    |p| == |dir| + 1 && p[..|dir|] == dir && p[|dir|] == ".git"
  }

  /**
   * `is_git_repo`: the path `dir/.git` exists, in the snapshot `existing` of
   * existing paths; that is, `dir` has an existing direct child named `.git`.
   */
  predicate IsGitRepo(dir: Path, existing: set<Path>)
    ensures IsGitRepo(dir, existing) <==> exists p :: p in existing && IsGitChild(p, dir)
  {
    var gitdir := dir + [".git"];
    assert IsGitChild(gitdir, dir) by {
      assert gitdir[..|dir|] == dir;
    }
    assert forall p :: IsGitChild(p, dir) ==> p == gitdir by {
      forall p | IsGitChild(p, dir) ensures p == gitdir {
        assert p == p[..|dir|] + [p[|dir|]];
      }
    }
    gitdir in existing
  }

  // ---------------------------------------------------------------------------
  // The cache: `cache_exists`
  // ---------------------------------------------------------------------------

  /** An entry's file name, as `OsStr::to_str` sees it. */
  datatype FileName = Utf8(text: string) | NotUtf8

  datatype CacheEntry = CacheEntry(path: Path, fileName: FileName)

  /**
   * The cache storage: `get_cached_entry` for an argument vector and directory
   * (`None` for its `Err`), and the lines of the file at a path (`None` when
   * `read_first_lines` cannot open it).
   */
  datatype CacheStore = CacheStore(
    lookup: (seq<string>, Path) -> Option<CacheEntry>,
    read: Path -> Option<seq<string>>)

  /** How many lines of a cached result are previewed. */
  const PreviewLimit: nat := 100

  /** The separator between the key and the total in a cache entry's name. */
  const Delimiter: char := '_'

  /** `read_first_lines(path, n)`: at most the first `n` lines of a readable file. */
  function ReadFirstLines(body: Option<seq<string>>, n: nat): (r: Option<seq<string>>)
    ensures r.Some? <==> body.Some?
    ensures r.Some? ==>
      && |r.value| == (if |body.value| < n then |body.value| else n)
      && r.value == body.value[..|r.value|]
  {
    match body
    case None => None
    case Some(lines) => Some(if |lines| <= n then lines else lines[..n])
  }

  /** The first `PreviewLimit` lines of the body, each decorated by `icon`. */
  function Preview(body: Option<seq<string>>, icon: string -> string): (r: Option<seq<string>>)
    ensures r.Some? <==> body.Some?
    ensures r.Some? ==>
      && |r.value| == (if |body.value| < PreviewLimit then |body.value| else PreviewLimit)
      && forall i :: 0 <= i < |r.value| ==> r.value[i] == icon(body.value[i])
  {
    match ReadFirstLines(body, PreviewLimit)
    case None => None
    case Some(first) => Some(seq(|first|, i requires 0 <= i < |first| => icon(first[i])))
  }

  /** What a cache entry's name says. */
  datatype Identifier =
    | Malformed                  // splitting on `_` does not give exactly two parts
    | UnparsableTotal(suffix: string)
    | Total(count: nat)

  /** How a cache entry's name is decoded: `<key>_<total>`. */
  function DecodeIdentifier(name: string): (d: Identifier)
    ensures d.Malformed? <==> |Split(name, Delimiter)| != 2
    ensures var info := Split(name, Delimiter);
      && (d.Total? ==> Some(d.count) == ParseU64(info[1]))
      && (d.UnparsableTotal? <==> |info| == 2 && ParseU64(info[1]).None?)
      && (d.UnparsableTotal? ==> d.suffix == info[1])
  {
    var info := Split(name, Delimiter);
    if |info| != 2 then Malformed
    else
      match ParseU64(info[1])
      case None => UnparsableTotal(info[1])
      case Some(n) => Total(n)
  }

  /** The name a cache entry for `key` holding `total` lines is stored under. */
  function EncodeIdentifier(key: string, total: nat): string
  {
    key + [Delimiter] + ShowNat(total)
  }

  /** Decoding recovers the total from the name of an entry whose key has no `_`. */
  lemma DecodeEncode(key: string, total: nat)
    requires Delimiter !in key
    requires total < U64Limit
    ensures DecodeIdentifier(EncodeIdentifier(key, total)) == Total(total)
  {
    var digits := ShowNat(total);
    assert forall i :: 0 <= i < |digits| ==> digits[i] != Delimiter;
    SplitAfter(key, Delimiter, digits);
    SplitWithout(digits, Delimiter);
    ParseShowNat(total);
  }

  /** A key holding `_` gives a name with more than two parts, so it never hits. */
  lemma KeyWithDelimiterNeverHits(key: string, suffix: string)
    requires Delimiter in key
    ensures DecodeIdentifier(key + [Delimiter] + suffix).Malformed?
  {
    assert multiset(key)[Delimiter] >= 1;
    assert multiset(key + [Delimiter] + suffix) == multiset(key) + multiset{Delimiter} + multiset(suffix);
  }

  /** A name without `_` is a single part, so it never hits. */
  lemma NameWithoutDelimiterNeverHits(name: string)
    requires Delimiter !in name
    ensures DecodeIdentifier(name).Malformed?
  {
    SplitWithout(name, Delimiter);
  }

  /** The JSON record `cache_exists` prints on a hit. */
  datatype Record = Record(total: nat, lines: Option<seq<string>>, tempfile: Path, usingCache: bool)

  /** What `cache_exists` does: a miss (`false`), a hit (`true`, after printing the record), or a panic. */
  datatype CacheCheck = Miss | Hit(emitted: Record) | TotalPanic(panic: Panic)

  /**
   * `cache_exists`: look the entry up, decode its name, and on a two-part
   * name print `{total, lines?, using_cache: true}`, with the decorated
   * preview when the file is readable and without lines when it is not.
   */
  function CacheExists(args: seq<string>, cmdDir: Path, store: CacheStore, icon: string -> string): (r: CacheCheck)
    ensures var entry := store.lookup(args, cmdDir);
      r.Miss? <==>
        || entry.None?
        || entry.value.fileName.NotUtf8?
        || |Split(entry.value.fileName.text, Delimiter)| != 2
    ensures !r.Miss? ==>
      var entry := store.lookup(args, cmdDir).value;
      var info := Split(entry.fileName.text, Delimiter);
      && (r.TotalPanic? <==> ParseU64(info[1]).None?)
      && (r.TotalPanic? ==> r.panic == UnwrapParseError(info[1]))
      && (r.Hit? ==>
        && Some(r.emitted.total) == ParseU64(info[1])
        && r.emitted.tempfile == entry.path
        && r.emitted.usingCache)
    ensures r.Hit? ==>
      var body := store.read(r.emitted.tempfile);
      && (r.emitted.lines.Some? <==> body.Some?)
      && (r.emitted.lines.Some? ==>
        && |r.emitted.lines.value| == (if |body.value| < PreviewLimit then |body.value| else PreviewLimit)
        && forall i :: 0 <= i < |r.emitted.lines.value| ==> r.emitted.lines.value[i] == icon(body.value[i]))
  {
    match store.lookup(args, cmdDir)
    case None => Miss
    case Some(entry) =>
      match entry.fileName
      case NotUtf8 => Miss
      case Utf8(name) =>
        match DecodeIdentifier(name)
        case Malformed => Miss
        case UnparsableTotal(suffix) => TotalPanic(UnwrapParseError(suffix))
        case Total(total) => Hit(Record(total, Preview(store.read(entry.path), icon), entry.path, true))
  }

  /**
   * An entry stored under `<key>_<total>`, with `_` not in the key, is a hit
   * reporting that total, whether or not its file can be read.
   */
  lemma CacheHitOnEncodedEntry(args: seq<string>, cmdDir: Path, store: CacheStore, icon: string -> string,
                               key: string, total: nat)
    requires store.lookup(args, cmdDir).Some?
    requires store.lookup(args, cmdDir).value.fileName == Utf8(EncodeIdentifier(key, total))
    requires Delimiter !in key
    requires total < U64Limit
    ensures var r := CacheExists(args, cmdDir, store, icon);
      && r.Hit?
      && r.emitted.total == total
      && r.emitted.usingCache
      && (r.emitted.lines.None? <==> store.read(store.lookup(args, cmdDir).value.path).None?)
  {
    DecodeEncode(key, total);
  }

  /** An entry named `abc123_542` whose file has 542 lines: total 542, 100 preview lines. */
  lemma CacheHitExample(args: seq<string>, cmdDir: Path, store: CacheStore, icon: string -> string, body: seq<string>)
    requires store.lookup(args, cmdDir).Some?
    requires store.lookup(args, cmdDir).value.fileName == Utf8("abc123_542")
    requires store.read(store.lookup(args, cmdDir).value.path) == Some(body)
    requires |body| == 542
    ensures var r := CacheExists(args, cmdDir, store, icon);
      && r.Hit?
      && r.emitted.total == 542
      && r.emitted.lines.Some? && |r.emitted.lines.value| == 100
      && r.emitted.usingCache
  {
    assert EncodeIdentifier("abc123", 542) == "abc123_542" by {
      assert ShowNat(5) == "5";
      assert ShowNat(54) == "54";
    }
    assert Delimiter !in "abc123";
    CacheHitOnEncodedEntry(args, cmdDir, store, icon, "abc123", 542);
  }

  // ---------------------------------------------------------------------------
  // Data-source selection: `dyn_grep`
  // ---------------------------------------------------------------------------

  /** The shell command `dyn_grep` runs when it does not replay a file or serve the cache. */
  const DynGrepCommand: string := "rg --column --line-number --no-heading --color=never --smart-case ''"

  /** The argument vector `dyn_grep` looks the cache up with. */
  const DynGrepArgs: seq<string> :=
    ["rg", "--column", "--line-number", "--no-heading", "--color=never", "--smart-case", "''"]

  /** Where the lines that `filter::dyn_run` filters come from. */
  datatype Source = File(path: Path) | Shell(command: string, cwd: Option<Path>)

  /** What `dyn_grep` does: serve the cache and return, panic, or filter a source for the query. */
  datatype DynGrepOutcome =
    | ServedFromCache(record: Record)
    | CachePanic(panic: Panic)
    | Filter(query: string, source: Source)

  /** The outcome runs a process exactly when it filters the output of a shell command. */
  predicate SpawnsProcess(o: DynGrepOutcome)
  {
    o.Filter? && o.source.Shell?
  }

  /**
   * `dyn_grep`: a replay file wins; else, with a directory, a cache hit is
   * served and nothing runs, and a miss runs the shell command there; else the
   * shell command runs in the ambient directory.
   */
  function DynGrep(grepQuery: string, cmdDir: Option<Path>, input: Option<Path>,
                   store: CacheStore, icon: string -> string): (r: DynGrepOutcome)
    ensures r.Filter? ==> r.query == grepQuery
    ensures r.Filter? && r.source.File? <==> input.Some?
    ensures input.Some? ==> r.source.path == input.value
    ensures r.ServedFromCache? <==>
      input.None? && cmdDir.Some? && CacheExists(DynGrepArgs, cmdDir.value, store, icon).Hit?
    ensures r.ServedFromCache? ==> r.record == CacheExists(DynGrepArgs, cmdDir.value, store, icon).emitted
    ensures r.CachePanic? ==>
      && input.None? && cmdDir.Some?
      && CacheExists(DynGrepArgs, cmdDir.value, store, icon).TotalPanic?
      && r.panic == CacheExists(DynGrepArgs, cmdDir.value, store, icon).panic
    ensures SpawnsProcess(r) <==>
      input.None? && (cmdDir.None? || CacheExists(DynGrepArgs, cmdDir.value, store, icon).Miss?)
    ensures SpawnsProcess(r) ==> r.source == Shell(DynGrepCommand, cmdDir)
  {
    if input.Some? then Filter(grepQuery, File(input.value))
    else if cmdDir.Some? then
      match CacheExists(DynGrepArgs, cmdDir.value, store, icon)
      case Hit(record) => ServedFromCache(record)
      case TotalPanic(p) => CachePanic(p)
      case Miss => Filter(grepQuery, Shell(DynGrepCommand, cmdDir))
    else Filter(grepQuery, Shell(DynGrepCommand, None))
  }

  /** With a replay file the cache is never consulted: the outcome does not depend on the store. */
  lemma ReplayIgnoresCache(grepQuery: string, cmdDir: Option<Path>, input: Path,
                           store1: CacheStore, store2: CacheStore, icon: string -> string)
    ensures DynGrep(grepQuery, cmdDir, Some(input), store1, icon)
         == DynGrep(grepQuery, cmdDir, Some(input), store2, icon)
  {
  }

  /** With a directory whose cache entry is `<key>_<total>`, the cache is served and nothing runs. */
  lemma DynGrepServesEncodedEntry(grepQuery: string, dir: Path, store: CacheStore, icon: string -> string,
                                  key: string, total: nat)
    requires store.lookup(DynGrepArgs, dir).Some?
    requires store.lookup(DynGrepArgs, dir).value.fileName == Utf8(EncodeIdentifier(key, total))
    requires Delimiter !in key
    requires total < U64Limit
    ensures var r := DynGrep(grepQuery, Some(dir), None, store, icon);
      r.ServedFromCache? && r.record.total == total && !SpawnsProcess(r)
  {
    CacheHitOnEncodedEntry(DynGrepArgs, dir, store, icon, key, total);
  }

  // ---------------------------------------------------------------------------
  // The forerunner: `run_forerunner`
  // ---------------------------------------------------------------------------

  /** The forerunner's arguments: the interactive flags with an empty pattern, so every line matches. */
  const ForerunnerArgs: seq<string> :=
    ["--column", "--line-number", "--no-heading", "--color=never", "--smart-case", ""]

  /** What `run_forerunner` does: return at once, or execute ripgrep. */
  datatype Forerunner = Skip | Execute(cmd: GrepCommand, executed: seq<string>)

  /** The directory the gate looks at: the explicit one, else the current one if it can be had. */
  function EffectiveDir(cmdDir: Option<Path>, currentDir: Option<Path>): Option<Path>
  {
    if cmdDir.Some? then cmdDir else currentDir
  }

  /**
   * `run_forerunner`: skip when the explicit directory, or else the current
   * directory, has no `.git`; when there is neither (no explicit directory and
   * `current_dir()` fails) the job still runs. `currentDir` is the result of
   * `current_dir()`, `None` for an error.
   */
  method RunForerunner(cmdDir: Option<Path>, currentDir: Option<Path>, existing: set<Path>)
    returns (d: Forerunner)
    ensures d.Skip? <==>
      EffectiveDir(cmdDir, currentDir).Some? && !IsGitRepo(EffectiveDir(cmdDir, currentDir).value, existing)
    ensures cmdDir.None? && currentDir.None? ==> d.Execute?
    ensures d.Execute? ==>
      && d.cmd == GrepCommand("rg", ForerunnerArgs, cmdDir)
      && d.executed == ForerunnerArgs
    ensures d.Execute? ==> |d.executed| == 6 && d.executed[5] == ""
  {
    var cmd := GrepCommand("rg", ForerunnerArgs, None);
    if cmdDir.Some? {
      if !IsGitRepo(cmdDir.value, existing) {
        return Skip;
      }
    } else if currentDir.Some? {
      if !IsGitRepo(currentDir.value, existing) {
        return Skip;
      }
    }
    cmd := cmd.(cwd := cmdDir);
    d := Execute(cmd, ForerunnerArgs);
  }
}
