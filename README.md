# zq-base utilities, modelled in Dafny

A Dafny model of the utility crates `zutils` and `zqutils` of Zilliqa's
zq-base, with proofs of what their functions promise:

- the provisioning-script bookkeeping of `zutils/src/script.rs`:
  - the `/etc/os-release` parse;
  - the execution context (extra environment variables and `PATH` entries) and how `modify_context` applies it to a command;
  - the `Command` flags;
  - dry-run execution;
  - the marked-block rewrite of `~/.bashrc`, including its idempotence;
- the YAML path lookup, insertion and flattening of `zutils/src/yaml.rs`,
  over an in-memory tree whose mappings are ordered lists of entries with distinct keys;
- the port-window scans of both `network.rs` files, with the bind probe as an oracle;
- the container status rules, the polling loops and the image-URL parser of `zutils/src/containers.rs`;
- the regex filter sets of `zutils/src/filters.rs`, with the regex engine abstract;
- the character sets, password generation and identifier generation of both `security.rs` files,
  with the random generator an oracle of raw draws;
- `remove_suffix` and `string_or_empty_from_u8` of `zutils/src/utils.rs`,
  with UTF-8 decoding and encoding written out and proved inverse;
- the upward `.git` search of `zqutils/src/repo.rs`:
  - its loop is followed step by step;
  - for an absolute path with no `.git` directory above it, the model proves the loop never ends.

Files:

- `wrappers.dfy`: `Option` and `Result`.
- `text.dfy`: `str::find`, `split` and `join` on `seq<char>`.
- `utils.dfy`: `utils.rs`.
- `script.dfy`: `script.rs`.
- `yaml.dfy`: `yaml.rs`.
- `network.dfy` and `zq_network.dfy`: the two `network.rs` files.
- `containers.dfy`: `containers.rs`.
- `filters.dfy`: `filters.rs`.
- `security.dfy` and `zq_security.dfy`: the two `security.rs` files.
- `repo.dfy`: `repo.rs`.

How a Rust panic is modelled depends on what causes it:

- a panic caused by the caller's arguments is a `requires`, e.g. `keys.len() - 1` on empty keys, and `u16` overflow in the port scans;
- a panic caused by the data is a `None` or `Err` result, e.g. `replace_range` with crossed bounds in `append_bashrc`, and `as_str().unwrap()` on a non-string key in `flatten_yaml`.

## Model

| member | source | states |
|---|---|---|
| Text.Find | zutils/src/script.rs:157-158 | `str::find`: the result is an occurrence and no earlier occurrence exists; `None` means there is no occurrence at all |
| Text.Split | zutils/src/script.rs:45 | `str::split` on one character always yields at least one piece |
| Text.JoinSplit | zutils/src/script.rs:45 | joining the pieces of a split with the separator gives back the original text |
| Text.SplitJoin | zutils/src/script.rs:67-71 | splitting a join of separator-free pieces gives back the pieces |
| Text.SplitPiecesFree | zutils/src/script.rs:45 | no piece of a split contains the separator |
| Text.SplitSingle | zutils/src/script.rs:45 | a split has one piece exactly when the separator does not occur, and that piece is the whole text |
| Script.ParseLine | zutils/src/script.rs:48-50 | a line has a key/value pair iff it contains `=`; the key has no `=`, and key, `=` and value concatenate back to the line, so every later `=` stays in the value |
| Script.ParseLineFormat | zutils/src/script.rs:48-50 | `key=value` with an `=`-free key parses to exactly that pair, whatever the value contains |
| Script.GetOsParams | zutils/src/script.rs:41-55 | the loop over the lines builds exactly the map of the line-by-line fold |
| Script.OsParamsKeys | zutils/src/script.rs:45-53 | a key is in the result iff some line defines it |
| Script.OsParamsLastWins | zutils/src/script.rs:46-53 | the value of every key comes from the last line defining it (a later duplicate overwrites an earlier one) |
| Script.OsParamsSkips | zutils/src/script.rs:48 | a line without `=` changes nothing |
| Script.Command.New | zutils/src/script.rs:218-224 | a new command is neither mandatory nor imperative and has no program, arguments or environment |
| Script.Command.AsRoot | zutils/src/script.rs:226-234 | the program is `sudo` with the arguments unchanged; mandatory and imperative |
| Script.Command.Build | zutils/src/script.rs:236-244 | the given program and arguments; mandatory and imperative |
| Script.Command.Mandatory | zutils/src/script.rs:258-261 | sets `mandatory`; nothing else changes |
| Script.Command.Imperative | zutils/src/script.rs:262-265 | sets `imperative`; nothing else changes |
| Script.Command.Interrogative | zutils/src/script.rs:266-269 | clears `imperative`; nothing else changes |
| Script.Command.Optional | zutils/src/script.rs:270-273 | clears `mandatory`; nothing else changes |
| Script.Command.EnvVar | zutils/src/script.rs:71-73 | the builder's `env_var` as it is used here: sets one variable and nothing else |
| Script.Context.constructor | zutils/src/script.rs:21-32 | a new context keeps the dry-run flag, os-release parameters and architecture, with no extra variables or paths |
| Script.Context.AddToPath | zutils/src/script.rs:57-59 | appends one path at the end, keeping earlier entries in order; nothing else changes |
| Script.Context.AddToEnv | zutils/src/script.rs:61-63 | sets `vars[name] = val`, overwriting only that name; nothing else changes |
| Script.Context.ModifyContext | zutils/src/script.rs:65-76 | fails, leaving the command alone, iff `PATH` is unset; otherwise the command's environment is the old one with `PATH` set to the inherited path and the appended paths joined by `:`, and then every context variable applied over it |
| Script.OverlayAll | zutils/src/script.rs:72-74 | applying the variables one by one in any order gives the old environment overridden by all of them |
| Script.ComposedPathSplits | zutils/src/script.rs:67-71 | splitting the composed `PATH` at `:` gives back the inherited path followed by every appended path, in order, when none contains `:` |
| Script.ModifiedEnv | zutils/src/script.rs:71-74 | after `modify_context`, a context variable wins; then `PATH` takes the composed path; every other variable keeps its old value |
| Script.Execute | zutils/src/script.rs:246-253 | a real run returns the run's outcome; a dry run returns the fake successful output, or the error from describing the command, and never consults the runner |
| Script.AppendBashrc | zutils/src/script.rs:143-179 | building the block line by line and merging it into the text gives the marked-block rewrite |
| Script.BlockFree | zutils/src/script.rs:151-155 | the block holds no marker its lines are free of, and when non-empty it ends with a newline |
| Script.EndNotInBegin | zutils/src/script.rs:149-150 | the end marker never occurs inside the begin marker |
| Script.RewriteAppends | zutils/src/script.rs:167-175 | with neither marker present, the text is extended by a newline, the begin marker, a newline, the block, the end marker and a newline |
| Script.RewriteAppendLocates | zutils/src/script.rs:167-175 | after appending, the old text is a prefix and the new block is found in place just after it, both markers first of their kind |
| Script.RewriteReplaces | zutils/src/script.rs:157-164 | with the block in place, the text between the begin line and the end marker is replaced by the block and the rest is kept |
| Script.RewriteReplaceLocates | zutils/src/script.rs:157-164 | after replacing, the new block is found in place where the old one was |
| Script.RewriteManaged | zutils/src/script.rs:157-175 | from a text with no markers or with the block in place, the rewrite succeeds and leaves the new block in place |
| Script.Rewrite | zutils/src/script.rs:149-175 | the merge fails exactly when both markers are found, the begin marker first, and the end marker starts inside the begin line (the crossed `replace_range` bounds); otherwise the new block occurs in the result |
| Script.RewriteIdempotent | zutils/src/script.rs:157-175 | for an id without a newline, lines that do not contain the end marker, and a text with either no markers or a block in place, rewriting twice with the same id and lines gives the same text as rewriting once |
| Script.RewriteStrayEndKeepsAppending | zutils/src/script.rs:157-175 | a text that is only the end marker, with no begin marker before it, is not managed: each rewrite appends another block, so a second rewrite is longer than the first |
| Script.RewritePlacedSame | zutils/src/script.rs:157-164 | a text already holding exactly this block is left unchanged |
| Yaml.MapGet | zutils/src/yaml.rs:48 | a mapping lookup finds a value exactly for the keys present |
| Yaml.MapInsert | zutils/src/yaml.rs:33 | `Mapping::insert` adds the key, keeps the keys distinct, and leaves the size alone when the key was already there |
| Yaml.MapInsertGet | zutils/src/yaml.rs:33 | after an insert the key maps to the new value and every other key to what it mapped to before |
| Yaml.MapInsertAppends | zutils/src/yaml.rs:33 | a new key is appended at the end of the entries |
| Yaml.WalkOkIff | zutils/src/yaml.rs:46-52 | a lookup succeeds iff at every step the node is a mapping containing the next key |
| Yaml.WalkErrorAt | zutils/src/yaml.rs:47-50 | the first failing step gives "not a map" when the node is not a mapping, and otherwise "cannot find key", for that key |
| Yaml.WalkPastError | zutils/src/yaml.rs:46-52 | once a lookup has failed, longer paths fail with the same error |
| Yaml.WalkSnoc | zutils/src/yaml.rs:46-52 | looking up one more key is one more step from the node reached |
| Yaml.GetMutMappedValue | zutils/src/yaml.rs:41-54 | the loop returns exactly the lookup along the keys: the node at the end of the path, or the error of the first failing step |
| Yaml.GetMutMappedPartialValue | zutils/src/yaml.rs:57-72 | succeeds iff the lookup does, returning the node with a count equal to the number of keys |
| Yaml.Rebuild | zutils/src/yaml.rs:21-30 | the rebuild loop wraps the pair in one single-entry mapping per key after `idx`; with `idx` at or past the last key it wraps nothing |
| Yaml.InsertValue | zutils/src/yaml.rs:8-38 | succeeds iff the path resolves to a mapping; then the document is the old one with that mapping replaced by the mapping after inserting `insKey: insValue`; a failed lookup reports its error; a non-mapping tip is an error; on every error the document is unchanged |
| Yaml.InsertValueEffect | zutils/src/yaml.rs:32-33 | after a successful insert the path plus `insKey` leads to `insValue`, every other key of the target mapping is unchanged, and every path off the insertion point resolves as before |
| Yaml.WalkSetAtOnPath | zutils/src/yaml.rs:32-33 | after replacing the node at a path, lookups through that path continue in the new node |
| Yaml.WalkSetAtOffPath | zutils/src/yaml.rs:32-33 | replacing the node at a path leaves every lookup that is neither a prefix nor an extension of it unchanged |
| Yaml.InsertValueMissingKeyFails | zutils/src/yaml.rs:14-21 | in `{}` with keys `[a, b]` the lookup fails with "cannot find key a", so `insert_value` fails and builds no nodes |
| Yaml.GetMappedPrefix | zutils/src/yaml.rs:14-16 | the partial lookup the rebuild loop is written for: follows the keys while they are found and stops at the first missing key below a mapping; it fails only at a non-mapping node; the count it returns is exactly `MappedDepth` |
| Yaml.RebuildFrom | zutils/src/yaml.rs:16-30 | the rebuild loop over every key from `idx` on gives the chain of single-entry mappings for those keys |
| Yaml.WalkIntoNest | zutils/src/yaml.rs:16-33 | inserting such a chain into a mapping makes the missing keys followed by `insKey` lead to the value |
| Yaml.PrefixGivesPathMappings | zutils/src/yaml.rs:14-16 | a prefix that ends in a mapping lacking the next key leaves no non-mapping node on the path |
| Yaml.MappedDepth | zutils/src/yaml.rs:14-16 | the number of keys found one after the other from the root is at most the number of keys |
| Yaml.MappedDepthReaches | zutils/src/yaml.rs:14-16 | the lookup along that many keys succeeds, and the next key, if any, is missing or its node is not a mapping |
| Yaml.Created | zutils/src/yaml.rs:16-33 | the document with the missing part of the path created as single-entry mappings under the deepest found mapping: the path plus `insKey` leads to `insValue` |
| Yaml.CreatedIs | zutils/src/yaml.rs:14-33 | with the depth and node the partial lookup finds, that node is a mapping and the created document is it replaced by the mapping holding the new chain |
| Yaml.CreatedKeepsOthers | zutils/src/yaml.rs:16-33 | every path that neither leads to the deepest found mapping nor goes through it, and every path through a sibling of the first new key, resolves as before |
| Yaml.CreatedExample | zutils/src/yaml.rs:8-38 | into `{}` with keys `[a, b]`, `k: v` gives `{a: {b: {k: v}}}` |
| Yaml.WalkConcat | zutils/src/yaml.rs:46-52 | looking up `a + b` is looking up `a` and then `b` from the node reached |
| Yaml.InsertValueCreating | zutils/src/yaml.rs:8-38 | the insert with the missing part of the path created: succeeds iff every node the path reaches is a mapping, and then the new document is exactly the created document, in which the path plus `insKey` leads to `insValue`; on failure the document is unchanged |
| Yaml.Flatten | zutils/src/yaml.rs:76-96 | a non-mapping is returned as it is, and a mapping flattens to a mapping |
| Yaml.FlattenYaml | zutils/src/yaml.rs:76-96 | the loop over the entries with its accumulator computes the recursive flattening |
| Yaml.InsertFlattenedChild | zutils/src/yaml.rs:82-86 | the inner loop inserts every entry of the flattened child under `key.innerKey`, in order, and is the `unwrap` panic at the first non-string key |
| Yaml.FlattenIsFlat | zutils/src/yaml.rs:80-91 | a flattened mapping holds no mapping values |
| Yaml.FlattenTotal | zutils/src/yaml.rs:83-85 | flattening never panics when every mapping key in the tree is a string, and then every key of the result is a string |
| Yaml.FlattenFlatIdentity | zutils/src/yaml.rs:88-90 | a mapping without mapping values flattens to itself |
| Yaml.FlattenIdempotent | zutils/src/yaml.rs:76-96 | flattening a flattened value changes nothing |
| Yaml.FlattenExample | zutils/src/yaml.rs:80-87 | `{a: {b: {c: 1}, d: 2}}` flattens to `{a.b.c: 1, a.d: 2}` |
| Yaml.FlattenDropsEmptyChild | zutils/src/yaml.rs:81-87 | an entry whose value is an empty mapping, inserted at any position of a mapping, changes nothing in its flattening |
| Yaml.FlattenPanicsOnNumberKey | zutils/src/yaml.rs:85 | a number key above a mapping value makes flattening panic |
| Network.FindAvailablePort | zutils/src/network.rs:22-29 | returns the least available port of `[from, from + range)`, and fails iff there is none (so always when `range` is 0) |
| Network.StartProbesShape | zutils/src/network.rs:34-39 | the inner loop for one start probes consecutive ports from the start, at most `portsRequired` of them, every one available but the last, and the last unavailable exactly when the run is not fully available |
| Network.StartProbesUntil | zutils/src/network.rs:35-38 | the inner loop stops right at the first unavailable port |
| Network.ProbesPassWindow | zutils/src/network.rs:33-35 | the probes may reach past `from + range`: one start with three required free ports probes `10`, `11` and `12` |
| Network.ScanProbesFound | zutils/src/network.rs:33-43 | when no earlier start of the window succeeded, the scan's probes end with the first start whose ports are all available |
| Network.ScanProbesExhausted | zutils/src/network.rs:33-45 | when every start fails, the scan probes every start of the window in turn |
| Network.ScanProbesFit | zutils/src/network.rs:33-37 | every probe of the scan lies in `[from, 65535]` and below `from + range + portsRequired - 1` |
| Network.ProbeRun | zutils/src/network.rs:34-39 | the inner loop reports success iff all `portsRequired` ports from the start are available, and probes exactly the ports of `StartProbes` |
| Network.FindAvailablePorts | zutils/src/network.rs:32-46 | returns the least start of the window whose `portsRequired` consecutive ports are all available, and fails iff there is none; `from` when `portsRequired` is 0; every probe stays within `u16` and below `from + range + portsRequired - 1`; the probes are exactly `ScanProbes`: each start in turn, from its first port up to the first unavailable one, stopping after the first start that succeeds |
| ZqNetwork.FindAvailablePort | zqutils/src/network.rs:11-18 | as in `zutils`: the least available port of the window, and failure iff there is none |
| ZqNetwork.FindAvailablePorts | zqutils/src/network.rs:21-35 | as in `zutils`: the least start of a fully available run of ports, failure iff there is none, probes within bounds, and the probes exactly `ScanProbes`, in order, with each start's probes stopping at its first unavailable port |
| Containers.IsContainerRunning | zutils/src/containers.rs:6-15 | running iff the inspect exits with status 0; a runner error propagates |
| Containers.IsContainerRunningIgnoresOutput | zutils/src/containers.rs:14 | what inspect prints does not matter |
| Containers.IsContainerStatusRunning | zutils/src/containers.rs:47-70 | true iff the inspect succeeded and its stdout is `running`; a failed inspect is false, not an error; only a runner error is an error |
| Containers.WaitForContainerRunning | zutils/src/containers.rs:17-30 | at most `waitMs / pollIntervalMs` checks; true right after the first check that says running; false only after that many checks all saying otherwise; zero checks and false when `waitMs < pollIntervalMs` |
| Containers.WaitForContainerStopped | zutils/src/containers.rs:32-45 | the same loop, ending at the first check that says not running |
| Containers.FromUrlFails | zutils/src/containers.rs:93-104 | fails iff the URL has no `/`, always with "Invalid URL format"; "Missing image name" cannot happen |
| Containers.FromUrlUntagged | zutils/src/containers.rs:99-108 | with no `:` in the last segment the base URL is the whole URL and the version is `latest` |
| Containers.FromUrl | zutils/src/containers.rs:93-115 | the one error returned is "Invalid URL format", for a URL without `/` |
| Containers.FromUrlTagged | zutils/src/containers.rs:99-114 | with a `:` in the last segment the version is the text after the first `:` up to the next one, and the base URL followed by `:` and the version is a prefix of the URL |
| Containers.FromUrlOneColon | zutils/src/containers.rs:99-114 | with exactly one `:` in the last segment, splitting it into name and version, the version is the text after the `:` and the base URL followed by `:` and the version is the whole URL |
| Filters.New | zutils/src/filters.rs:17-28 | succeeds iff every pattern compiles, keeping the patterns and one compiled regex per pattern in order; otherwise fails with the error of the first pattern that does not compile |
| Filters.IsMatch | zutils/src/filters.rs:30-47 | an empty filter list passes every candidate; a non-empty set passes a candidate iff some regex's first match is the whole candidate |
| Filters.CountMatchesPositive | zutils/src/filters.rs:34-45 | the count of whole-candidate matches is positive iff some regex matches the whole candidate |
| Filters.OrderIrrelevant | zutils/src/filters.rs:34-45 | for non-empty sets the answer depends only on which regexes there are, not on their order |
| Filters.AddingFilterKeepsMatch | zutils/src/filters.rs:34-45 | adding a filter never turns a match into a non-match |
| Security.Expand | zutils/src/security.rs:11-25 | the alphanumeric set has 62 characters and the symbol set 90 |
| Security.AlphanumericContents | zutils/src/security.rs:14-16 | the alphanumeric set is 62 characters, exactly `0-9`, `a-z` and `A-Z` |
| Security.AlnumSymbolsContents | zutils/src/security.rs:17-22 | the symbol set is 90 characters, exactly the letters, the digits and the 28 symbols |
| Security.Rng.constructor | zutils/src/security.rs:29 | a fresh generator has made no draws |
| Security.Rng.Index | zutils/src/security.rs:34 | `gen_range(0..n)` lies in `[0, n)` |
| Security.Rng.GenRange | zutils/src/security.rs:34 | one draw, reduced into `[0, n)` |
| Security.GeneratePassword | zutils/src/security.rs:28-40 | never fails; exactly `length` characters (empty for 0), the k-th being the charset byte picked by the k-th draw, so every one belongs to the charset |
| ZqSecurity.GeneratePassword | zqutils/src/security.rs:28-40 | the same: never fails, `length` characters, each picked from the charset by successive draws |
| ZqSecurity.GenerateId | zqutils/src/security.rs:45-57 | never fails; `max(len, 1)` characters, the first a lower-case letter and the rest lower-case letters or digits, each picked by successive draws |
| ZqSecurity.LowerAndDigits | zqutils/src/security.rs:46-47 | the identifier alphabets are exactly `a-z` (26) and `0-9a-z` (36) |
| Utils.RemoveSuffix | zutils/src/utils.rs:45-51 | with the suffix present, the result followed by the suffix is the input; otherwise the input is unchanged; the result is always a prefix at least `len(input) - len(suffix)` long |
| Utils.RemoveEmptySuffix | zutils/src/utils.rs:46 | an empty suffix leaves the input unchanged |
| Utils.RemoveSuffixOnce | zutils/src/utils.rs:46-47 | only one copy of the suffix is removed |
| Utils.StringOrEmptyFromU8 | zutils/src/utils.rs:18-25 | valid UTF-8 gives the text those bytes encode; anything else gives `<not_representable>` |
| Utils.DecodeEncode | zutils/src/utils.rs:19 | decoding the UTF-8 encoding of a text gives the text |
| Utils.EncodeDecode | zutils/src/utils.rs:19 | bytes that decode re-encode to themselves, so the decoded text of valid bytes is unique |
| Utils.ScalarRoundTrip | zutils/src/utils.rs:19 | a character's encoding, followed by anything, decodes to that character and its length |
| Utils.ScalarBytesRoundTrip | zutils/src/utils.rs:19 | a valid leading sequence re-encodes to its own bytes |
| Repo.Pop | zqutils/src/repo.rs:24 | `PathBuf::pop` drops the last component, and leaves `/` and the empty path unchanged |
| Repo.FindEnclosingGitRepoBase | zqutils/src/repo.rs:11-27 | a found directory is the path with some trailing components removed, holds a `.git` directory, and no deeper ancestor does, and the source loop returns it; `None` happens only for a relative path with no `.git` on the way up; for an absolute one the loop never returns |
| Repo.RootNeverReturns | zqutils/src/repo.rs:15-24 | at `/` without `.git` the loop stays at `/` for ever |
| Repo.RunClimbs | zqutils/src/repo.rs:15-24 | without `.git` on the way, each iteration moves one ancestor up |
| Repo.RunStays | zqutils/src/repo.rs:15-26 | once the loop has returned, its result is final |

## Left out

- All file and OS I/O goes in as parameters: reading `/etc/os-release` and `~/.bashrc`, writing `.bashrc`, `home::home_dir`, `env::var("PATH")` and `get_arch`. `string_from_path`, `get_env_variable` and the `relative_home_path*` functions are not part of this model.
- The `commands` module with `CommandBuilder` and `CommandOutput` is not part of this model. A command is reduced to its program, arguments, environment and two flags. `run_logged` is its outcome, a parameter. `describe_command` is its result, also a parameter, and the printing is dropped.
- The `apt_*` wrappers, `as_root` and `shell` are thin wrappers around external tools: each is a `Command` constructor, then `ModifyContext`, then `Execute`, all of which are modelled. `gcloud_copy` is `Command` construction and `Execute` only; it never calls `modify_context`, so its command does not get the context's variables or paths.
- `install_keyring` is not part of this model. It does not go through `Command` at all: it builds a `CommandBuilder` directly and calls `run_logged_with_input`, so it bypasses the dry-run switch. Even when nothing is to be really executed, it creates the keyring directory, downloads the key and runs `gpg`. The download, the file-system checks and the permission change are I/O.
- Script.Context.ModifyContext: the source applies `vars` in `HashMap` iteration order, which is unspecified. The model proves that every order gives the same environment, since the keys are distinct.
- The bind in `is_port_available` is the oracle `available`, fixed for one scan. Races between scans are not modelled.
- Network.FindAvailablePorts: the list of probed ports is a ghost result, because the source never returns it. It is stated in full by `ScanProbes`, and so is the same list in ZqNetwork.FindAvailablePorts.
- Docker invocations and `kill_container`'s two best-effort commands are replaced by abstract replies. The sleep between polls has no timing in the model. The status print is omitted.
- The regex engine is abstract: `Regex::new` is a function that compiles or fails, and `captures` is a first-match oracle.
- Security.GeneratePassword: the random generators `ChaCha20Rng` and `StdRng` are an oracle of raw draws, and `gen_range` is modelled as a remainder. Statistical properties and the distribution are not modelled.
- Strings are sequences of Unicode scalar values, while Rust's `&str` offsets are byte offsets. `find`, slicing and `replace_range` are modelled on characters. A byte-level panic on a non-character boundary therefore cannot arise in the model.
- Yaml: there is no in-place update through `&mut Value`. `insert_value` returns the new document, and a failed call returns the old one. Aliasing is not modelled.
- Yaml: serde_yaml's floating-point numbers and tagged values are not modelled. Numbers are integers. Keys are compared by structural equality.
- Repo.FindEnclosingGitRepoBase: when the source loop would never end, the model returns `Hangs`, and it proves that the loop never returns. The file system is the oracle `isDir`. `std::fs::canonicalize` in `find_enclosing_git_repo_base_from_string` is not part of this model.
- `bq.rs`, `queries.rs`, `process.rs`, `bin/zutil.rs` and `tests/commands.rs` are not part of this model. They cover a BigQuery client, process snapshots and signals, a command-line front end, and a test that runs `git status`.
- The `Charset` and `generate_password` of `zqutils/src/security.rs` repeat those of `zutils`. The character sets are shared, and `ZqSecurity.GeneratePassword` is a second copy of the loop.
- `insert_value` is written to create the missing part of the path: the comment at zutils/src/yaml.rs:16 announces it, and the rebuild loop at lines 21-30 of that file builds the missing mappings. But the lookup at line 14 goes through `get_mut_mapped_partial_value`, whose `?` at line 65 fails on the first missing key before the loop is reached. The model follows the code: see Yaml.InsertValue and the finding below.

## Findings

| source | as written | input that shows it | evidently intended | confidence | as-written member | corrected member |
|---|---|---|---|---|---|---|
| zutils/src/yaml.rs:14-30, 65 | `insert_value` looks the path up with `get_mut_mapped_partial_value`, which fails at the first missing key. The rebuild loop after it, meant to build "the bit that doesn't exist", therefore never runs. | document `{}`, keys `[a, b]`, insert `k: v`: the call fails with "Cannot find key a" | the missing mappings are created: the document becomes `{a: {b: {k: v}}}` | medium, not executed | Yaml.InsertValue, Yaml.InsertValueMissingKeyFails | Yaml.InsertValueCreating |
