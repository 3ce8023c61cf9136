# vim-clap grep command: a Dafny model

This project models the decision and string logic of the `grep` subcommand of
vim-clap's Rust backend (`maple`), `crates/maple_cli/src/cmd/grep.rs`:

- **Argument composition** (`prepare_grep_and_args`, `run`). The grep command
  string is split on whitespace. The user's query is appended as one unsplit
  token. `-g <glob>` follows when a glob is given, and `.` comes last on Windows.
  The first token names the executable and the rest are its arguments.
- **The git gate** (`is_git_repo`): a directory is a repository when
  `dir/.git` exists.
- **The cache check** (`cache_exists`). A cached result's file name has the form
  `<key>_<total>`. A missing entry, a name that is not valid UTF-8 and a name
  that does not split on `_` into exactly two parts are misses. A two-part
  name whose second part parses as a `u64` is a hit that reports the total,
  and it previews the first 100 lines of the file, each decorated with an
  icon. A two-part name whose second part does not parse (`key_abc`, `key_`)
  makes `unwrap` panic.
- **Source selection** (`dyn_grep`). A replay file wins. Otherwise, with a
  directory, a cache hit is served and nothing is run, and on a miss ripgrep
  runs in that directory through the shell. Otherwise ripgrep runs in the
  ambient directory.
- **The forerunner** (`run_forerunner`). It runs a query-less ripgrep pass to
  warm the cache, but only in git repositories. When no directory is known at
  all, it still runs.

Everything the environment supplies is a parameter:

- the cache storage (`Grep.CacheStore`: the entry lookup and the file reader);
- the set of paths that exist;
- the result of `std::env::current_dir()`;
- whether the platform is Windows;
- the icon decorator, as an arbitrary function `string -> string`.

Processes are never run. Each operation returns the command it would execute
or the record it would print.

Files:

- `wrappers.dfy`: `Option` and `Result`.
- `text.dfy`: module `Text`, with Rust's `split_whitespace` and `split(char)`,
  each with the join that inverts it.
- `numbers.dfy`: module `Numbers`, with Rust's `u64::from_str` and the decimal
  rendering it inverts.
- `grep.dfy`: module `Grep`, the model of `grep.rs`.

The two places where the code panics are modelled as outcomes (`Grep.Panic`),
not as preconditions:

- `args[0]` on a blank command string (`IndexOutOfBounds`);
- `parse::<u64>().unwrap()` on a name `<key>_<suffix>` whose suffix is not a
  `u64` (`UnwrapParseError`).

A non-numeric total is not a miss: `unwrap` panics, and the model returns
`TotalPanic` from `Grep.CacheExists` and `CachePanic` from `Grep.DynGrep`.

Two observations the model makes visible, though it cannot settle them:

- The forerunner executes six arguments, with no `rg` and an empty pattern
  `""`. `dyn_grep` looks the cache up with seven, starting with `rg` and ending
  with the shell-quoted `''`. Whether these reach the same cache entry depends
  on how `get_cached_entry` derives its key, and that function is not part of
  this model.
- A key that itself contains `_` can never be a hit
  (`Grep.KeyWithDelimiterNeverHits`).

## Model

| member | source | states |
|---|---|---|
| `Text.SplitWhitespace` | crates/maple_cli/src/cmd/grep.rs:11 | every token `split_whitespace` yields is non-empty and holds no whitespace |
| `Text.SplitJoinSpaced` | crates/maple_cli/src/cmd/grep.rs:11 | splitting space-joined tokens gives back exactly those tokens |
| `Text.SplitSkipsWhitespace` | crates/maple_cli/src/cmd/grep.rs:11 | whitespace in front of the command string yields no token: the split is that of the rest |
| `Text.SplitKeepsText` | crates/maple_cli/src/cmd/grep.rs:11 | the tokens together hold every non-whitespace character of the string, in order: only whitespace is dropped |
| `Text.SplitBlank` | crates/maple_cli/src/cmd/grep.rs:11-13 | the command string has no first token exactly when it is blank |
| `Text.Split` | crates/maple_cli/src/cmd/grep.rs:63 | `split('_')` yields one more part than there are `_` characters, and no part contains `_` |
| `Text.JoinSplit` | crates/maple_cli/src/cmd/grep.rs:63 | joining the parts with the delimiter gives back the file name |
| `Text.SplitJoinWith` | crates/maple_cli/src/cmd/grep.rs:63 | splitting delimiter-free parts that were joined by the delimiter gives back the parts |
| `Numbers.ParseU64` | crates/maple_cli/src/cmd/grep.rs:65 | a parsed total is below 2^64 |
| `Numbers.ParseAccepts` | crates/maple_cli/src/cmd/grep.rs:65 | whatever parses to `n` is the decimal rendering of `n` padded with leading zeros, possibly after one `+`, and `n` is below 2^64 |
| `Numbers.ParseZeroPadded` | crates/maple_cli/src/cmd/grep.rs:65 | the rendering of any `u64` after any number of leading zeros, with or without one leading `+`, parses to that number (`+007` gives 7) |
| `Numbers.ParseRejectsNonDigit` | crates/maple_cli/src/cmd/grep.rs:65 | a string holding a non-digit anywhere, other than one leading `+` before digits, does not parse, so `unwrap` panics on `54x` or `abc` |
| `Numbers.DigitsAreZeroPadded` | crates/maple_cli/src/cmd/grep.rs:65 | every non-empty digit string is the rendering of its value after some leading zeros |
| `Numbers.ParseShowNat` | crates/maple_cli/src/cmd/grep.rs:65 | parsing the decimal rendering of any `u64` gives the number back |
| `Numbers.ParsePlusShowNat` | crates/maple_cli/src/cmd/grep.rs:65 | a leading `+` is accepted, as `u64::from_str` accepts it |
| `Numbers.ParseOverflow` | crates/maple_cli/src/cmd/grep.rs:65 | a decimal number of 2^64 or more does not parse, so `unwrap` panics on it |
| `Numbers.ParseRejectsSigns` | crates/maple_cli/src/cmd/grep.rs:65 | the empty string, a lone sign and a negative number do not parse |
| `Grep.PrepareGrepAndArgs` | crates/maple_cli/src/cmd/grep.rs:10-18 | panics exactly when the command string is blank; otherwise the arguments are its whitespace tokens, and the command runs the first token in the given directory |
| `Grep.Run` | crates/maple_cli/src/cmd/grep.rs:20-51 | panics exactly on a blank command string; otherwise executes `split_whitespace(cmd) ++ [query] ++ ["-g", glob]? ++ ["."]?` (the dot on Windows only), with `args[0]` as the program and `args[1..]` as its arguments, in the given directory |
| `Grep.ComposedLayout` | crates/maple_cli/src/cmd/grep.rs:31-42 | in the composed vector the query is the single token right after the command's tokens, `-g` and the glob follow it, and `.` is last on Windows |
| `Grep.QueryNeedsOwnToken` | crates/maple_cli/src/cmd/grep.rs:30-31 | a query containing whitespace is never a token of `split_whitespace` of any string, which is why it is appended unsplit |
| `Grep.IsGitRepo` | crates/maple_cli/src/cmd/grep.rs:53-57 | `is_git_repo(dir)` holds exactly when `dir` has an existing direct child named `.git` |
| `Grep.ReadFirstLines` | crates/maple_cli/src/cmd/grep.rs:67 | a readable file yields its first `min(n, lines)` lines in order; an unreadable one yields nothing |
| `Grep.Preview` | crates/maple_cli/src/cmd/grep.rs:67-70 | the preview exists exactly when the file is readable; it has `min(100, lines)` entries, each `prepend_grep_icon` of the file line at the same position |
| `Grep.DecodeIdentifier` | crates/maple_cli/src/cmd/grep.rs:62-65 | a name is malformed exactly when splitting on `_` does not give two parts; the total is unparsable exactly when there are two parts and the second does not parse as a `u64`, and that second part is the suffix reported; otherwise the total is the second part parsed, below 2^64 |
| `Grep.DecodeEncode` | crates/maple_cli/src/cmd/grep.rs:63-65 | the name `<key>_<total>`, with no `_` in the key, decodes to that total |
| `Grep.KeyWithDelimiterNeverHits` | crates/maple_cli/src/cmd/grep.rs:63-64 | a name whose key part contains `_` has more than two parts, so it is never a hit |
| `Grep.NameWithoutDelimiterNeverHits` | crates/maple_cli/src/cmd/grep.rs:63-64 | a name without `_` (such as `abc123`) is a single part, so it is a miss |
| `Grep.CacheExists` | crates/maple_cli/src/cmd/grep.rs:59-81 | miss exactly when there is no entry, the name is not UTF-8, or it does not split into two parts; panic exactly when the second part is not a `u64`; otherwise a hit that prints the parsed total, the entry's path and `using_cache = true`, with lines exactly when the file is readable, at most 100 of them, each the icon applied to the matching file line |
| `Grep.CacheHitOnEncodedEntry` | crates/maple_cli/src/cmd/grep.rs:64-76 | an entry named `<key>_<total>` is a hit reporting `total` with `using_cache`, whether or not its file can be read, and without lines exactly when it cannot |
| `Grep.CacheHitExample` | crates/maple_cli/src/cmd/grep.rs:65-71 | the entry `abc123_542` with a 542-line file gives total 542 and 100 preview lines |
| `Grep.DynGrep` | crates/maple_cli/src/cmd/grep.rs:83-116 | a replay file is the source exactly when one is given; the cache is served exactly when there is no replay file, there is a directory and the cache hits, and the record served is the one `cache_exists` prints; a panic happens only there and is the panic of `cache_exists`; a process is spawned exactly when there is no replay file and either no directory or a cache miss, and then it is the ripgrep shell command in `cmd_dir`; the query goes to the filter unchanged |
| `Grep.ReplayIgnoresCache` | crates/maple_cli/src/cmd/grep.rs:102-103 | with a replay file the outcome is the same for every cache store: the cache is not consulted |
| `Grep.DynGrepServesEncodedEntry` | crates/maple_cli/src/cmd/grep.rs:104-107 | a directory whose entry is `<key>_<total>` is served from the cache with that total, and no process is spawned |
| `Grep.RunForerunner` | crates/maple_cli/src/cmd/grep.rs:118-153 | skips exactly when the effective directory (the explicit one, else the current one) is known and has no `.git`; runs when there is no directory and `current_dir()` fails; when it runs, it executes `rg` with the six fixed arguments ending in the empty pattern, in `cmd_dir` |

## Left out

- Running processes (`Command`, `LightCommand::new_grep`, `execute`,
  `fuzzy_filter::subprocess::Exec::shell`) is foreign I/O. The model returns
  the command and argument vector that would be executed. Errors that
  `execute` returns through `?` are not modelled. The `number` and
  `enable_icon` parameters only reach `LightCommand` and `dyn_run`, so they
  are left out too.
- `crate::cmd::filter::dyn_run` is not part of this model. `Grep.DynGrep`
  returns the query and the source it would filter.
- `get_cached_entry` and `read_first_lines` (in `crate::utils`) are not part of
  this model. The lookup is an arbitrary function of the argument vector and
  directory, and the reader is an arbitrary function from path to the file's
  lines. `read_first_lines(path, n)` is assumed to yield the first `n` of
  those lines.
- `set_current_dir` (in `crate::light_command`) is not part of this model. It
  is assumed to set the command's working directory when one is given, so
  `GrepCommand.cwd` records the directory passed to it.
- `prepend_grep_icon` is an arbitrary function `string -> string`.
- `print_json_with_length!` is modelled by the `Grep.Record` it prints, not by
  the JSON text.
- `Path::exists` is membership in a snapshot of existing paths. Symbolic links
  and permission errors are not distinguished. Paths are sequences of
  components, and `PathBuf::push(".git")` appends one component.
- Only the fact that an entry's name is or is not valid UTF-8 is modelled, not
  its bytes.
- `cfg!(windows)` is a boolean parameter.
- Cache staleness and refresh are not modelled. The source leaves them as an
  open TODO (crates/maple_cli/src/cmd/grep.rs:75).
- The `test_git_repo` test depends on one machine's path and asserts nothing.
- That `dyn_grep`'s shell command string and its cache-lookup vector carry the
  same tokens is not proved.
