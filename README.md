# rspec-watcher in Dafny

A model of the orchestration core of rspec-watcher. rspec-watcher watches source
directories, batches file-change events into run requests, and runs each batch
of RSpec targets in a forked worker process. The worker reports its failures
back over a pipe. Meanwhile a raw-mode key loop lets the user retry failures,
run everything, or run a configured set of specs.

The model covers:

- **Session** (`session.dfy`, module `RSpecWatcher`). The module-level state of
  `RSpecWatcher` is a class `Session`: the rules, the failed specs, the run
  queue, the runner pid, the quit flag and the key registry, plus whether the
  runner thread is still alive and the code of an `exit!`. The configuration
  DSL, the key presses, the listeners' enqueueing and the runner's drain-and-run
  pass are its members. The constant-matching watch block is modelled as
  written and as corrected.
- **Key registry** (`key_watcher.dfy`, module `Keys`). `KeyWatcher`'s class-level
  callback hash is a class with an insertion-ordered `seq` of callbacks. It has
  the default `r`/`a` keys, `on`, the dispatch lookup and the help screen.
- **Target resolution** (`targets.dfy`, module `Targets`). This is
  `specs_to_run`: the directory branch, and the merge of the failed specs with
  their `reject` of missing files and covered line targets. It uses Ruby's
  exact `split(':').first`.
- **The worker** (`runs.dfy`, module `Runs`). This covers the two-stage `USR1`
  cancellation of the forked child and what it writes to its two pipes. It
  also covers what the parent does with the status token.
- **The failures pipe** (`marshal.dfy`, module `Marshal`). This is
  `Marshal.dump` / `Marshal.load` of an array of UTF-8 strings, byte by byte,
  with `IO#puts` and `IO#gets` on the pipe.
- **The raw-terminal IO** (`raw_io.dfy`, module `RawIO`). This covers the
  newline translation of `RawNewlinePrintingRawIO`'s `write`, `puts` and `print`,
  and the `NoMethodError` its `puts` raises when handed an Array.
- **Constant search** (`search.dfy` and `rg.dfy`, modules `Search` and `Rg`).
  These are the snake/kebab case conversions, the alternation pattern, grep
  escaping, splitting of the tool's output, and the ripgrep JSON path list.
- **Support modules**. `Seqs` and `Text` hold Ruby's `uniq`, `uniq!`, `flatten`,
  `gsub` with a one-character pattern, `split`, `join`, `strip`, ASCII
  `downcase` and `Integer#to_s`. `Wrappers` holds `Option` and `Result`.

Some things are parameters rather than models:

- The filesystem is a map from path to kind or to contents.
- The regular-expression scan for `class`/`module` definitions is a function
  from file text to constant names.
- The ripgrep or grep run is a function from command to output.
- The test engine's outcome is the sequence of events the worker sees:
  signals, then the engine finishing with its failures.
- `which rg` is a boolean or a string.

Properties the code does not have, which the model states as written:

- **The resolver is not idempotent.** `specs_to_run` appends the failed specs
  again on every call (`Targets.NotIdempotent`).
- **The drained batch keeps first-occurrence order.** It is not an unordered
  set (`RSpecWatcher.DrainedBatch`).
- **A cooperatively cancelled worker exits with status 0.** Only the forced
  second signal exits with 1 (`Runs.WorkerOutcome`, `Runs.ForcedStop`).
- **No interrupt or cancel key exists.** The key loop handles no interrupt key
  and no cancel key, and `kill_runner` is bound to no key. The parent's
  `wants_to_quit` is only ever set through its accessor
  (`RSpecWatcher.Session.SetWantsToQuit`).
- **The constant-matching rules never match.** `puts paths` in `rg.rb` hands
  the raw-mode `puts` an Array, which has no `gsub`, so every search raises
  before reading a file (`RSpecWatcher.ConstantRuleRaises`).
- **Only one-byte keys fire.** The key loop reads one byte, so a key of more
  than one character, or one outside ASCII, is never found
  (`Keys.PolledLookup`).
- **The `r` key passes failures twice.** It enqueues the failed specs, and
  `specs_to_run` then merges the same list in again. So each failed line
  target is passed to the test engine twice
  (`RSpecWatcher.RetryPassesFailuresTwice`). Whether the engine then runs it
  twice is the engine's concern, which is not modelled.

## Model

The rows name the lemmas and methods whose contracts state the properties. The
functions they are about stand for the source's operations:

- `Targets.SpecsToRun`, with `Targets.Resolve` for its `reject`, is `specs_to_run`.
- `Runs.Step` and `Runs.Run` are the forked worker, and `Runs.AfterRun` is the
  parent's handling of the status line.
- `Marshal.Dump` and `Marshal.Load` (with `Marshal.LoadRest`) are
  `Marshal.dump` and `Marshal.load`. `Marshal.Gets` is `IO#gets`, and
  `Marshal.ReceiveByLine` is the parent's read as written.
- `Search.SnakeCase`, `Search.KebabCase` and `Search.Pattern` are the case
  conversions and the alternation.
- `Keys.Upsert` and `Keys.Lookup` are the callback hash's assignment and lookup.
- `RSpecWatcher.Inferred` is a rule's inferrer, and `RSpecWatcher.KeyEffect` is
  a key block's effect.
- `Rg.FindMatchingSpecs` is `find_matching_specs` as written, and
  `Rg.SearchConstants` is the same search with its log line fixed.

| member | source | states |
|---|---|---|
| RawIO.TranslateAll | lib/rspec-watcher.rb:38-40 | one result per argument, each the argument with every "\n" turned into "\r\n" |
| RawIO.TranslateLength | lib/rspec-watcher.rb:38-40 | translation grows the text by exactly one character per line feed |
| RawIO.NoBareNewline | lib/rspec-watcher.rb:38-40 | every line feed that reaches the terminal directly follows a carriage return |
| RawIO.TranslateInverse | lib/rspec-watcher.rb:38-40 | translation only inserts carriage returns: dropping each "\r" before a "\n" gives the input back |
| RawIO.Puts | lib/rspec-watcher.rb:26-39 | `puts` translates every argument before it writes: it raises `NoMethodError` iff some argument is an Array, writing nothing; otherwise the text is each argument's line, in order, one `write` per argument |
| RawIO.TranslateValues | lib/rspec-watcher.rb:38-40 | translation succeeds iff every argument is a String, and then gives each with its line feeds turned into "\r\n"; otherwise it fails with the `gsub` `NoMethodError` |
| RawIO.DoubleTranslation | lib/rspec-watcher.rb:20-30 | translating twice, as `puts` then `write` do, turns each line feed into "\r\r\n" and changes nothing else |
| RawIO.PutsArgShape | lib/rspec-watcher.rb:26-31 | a `puts` argument comes out with its line feeds as "\r\r\n", plus "\r\n" when it did not end a line |
| RawIO.PutsArgEndsLine | lib/rspec-watcher.rb:28-30 | whatever the argument, its output ends with "\r\n" |
| RawIO.PrintTranslatesOnce | lib/rspec-watcher.rb:34-36 | `print` translates each argument once, the same as translating their concatenation |
| Keys.PrintParses | lib/rspec_watcher/key_watcher.rb:7-9 | a printed entry "key: description" reads back as that key and description when the key has no ':' |
| Keys.LookupRegistered | lib/rspec_watcher/key_watcher.rb:59-61 | `callbacks[char]` finds a callback iff the input is a registered key, and then finds that key's callback |
| Keys.PolledLookup | lib/rspec_watcher/key_watcher.rb:56-61 | a byte read by `read_nonblock(1)` finds a callback iff it is the character of a registered one-character ASCII key, and then finds that key's callback |
| Keys.UpsertLookup | lib/rspec_watcher/key_watcher.rb:12-15 | after `on`, keys stay unique, the key finds the new callback and every other key finds what it found before |
| Keys.UpsertShape | lib/rspec_watcher/key_watcher.rb:12-15 | re-registering a key replaces it in place; a new key is appended; other entries keep their positions |
| Keys.HelpLineShape | lib/rspec_watcher/key_watcher.rb:26-32 | each help line is two spaces and the entry; the `r` line adds the failed count in decimal, which reads back as that count |
| Keys.KeyWatcher.constructor | lib/rspec_watcher/key_watcher.rb:35-42 | the registry starts as `r` (retry failed) then `a` (run all specs: reset, then run `spec`) |
| Keys.KeyWatcher.On | lib/rspec_watcher/key_watcher.rb:12-15 | `on` inserts or replaces the key's callback and keeps the keys unique |
| Keys.KeyWatcher.HelpLines | lib/rspec_watcher/key_watcher.rb:21-33 | the help screen is a blank line, two rules and the header, then one line per callback in registration order |
| Targets.BasePathIsFirstField | lib/rspec-watcher.rb:229 | the base of a target is the first field Ruby's `split(':')` returns, and nil when it returns none |
| Targets.PlainPathBase | lib/rspec-watcher.rb:229 | a path without ':' is its own base and is not a line target |
| Targets.LineTargetBase | lib/rspec-watcher.rb:229 | the base of `file:line` is `file`, and it is a line target |
| Targets.DirectoryRun | lib/rspec-watcher.rb:224-226 | with a directory among the paths, the result is the paths without line targets, whatever the failed specs are |
| Targets.WithoutLineTargetsCount | lib/rspec-watcher.rb:225 | the directory branch keeps every non-line target as often as it came and no line target |
| Targets.NoLineTargetsLeft | lib/rspec-watcher.rb:225 | no line target survives the directory branch |
| Targets.NoDirectoryResolves | lib/rspec-watcher.rb:224-233 | without a directory, the paths followed by the failed specs go through the `reject` |
| Targets.ResolveFails | lib/rspec-watcher.rb:228-233 | the `reject` raises exactly when some target has no base (`File.exist?(nil)`) |
| Targets.ResolveAppend | lib/rspec-watcher.rb:228-233 | the `reject` decides target by target, in order |
| Targets.ResolveSingle | lib/rspec-watcher.rb:229-232 | one target is kept iff its base exists and it is not a line target whose file is among the incoming paths |
| Targets.ResolveCount | lib/rspec-watcher.rb:228-233 | each kept target occurs as often as in `paths + @failed_specs`; a dropped one does not occur |
| Targets.ResolveKeepsAll | lib/rspec-watcher.rb:228-233 | when every target is kept, the `reject` returns its input |
| Targets.ResolvePair | lib/rspec-watcher.rb:228-233 | two targets with a base resolve one after the other |
| Targets.MergeRun | lib/rspec-watcher.rb:220-236 | without a directory, the result is the kept incoming paths followed by the kept failed specs, with the multiplicities of the kept targets |
| Targets.FailedLineTargetKept | lib/rspec-watcher.rb:228-233 | a failed line target whose file exists runs after the new batch |
| Targets.FailedTargetOfDeletedFileDropped | lib/rspec-watcher.rb:230 | a failed target whose file is gone is dropped |
| Targets.LineTargetCoveredByIncomingFile | lib/rspec-watcher.rb:232 | a line target is dropped when its whole file is among the incoming paths |
| Targets.LineTargetNotCoveredByFailedFile | lib/rspec-watcher.rb:232 | a line target is kept when its whole file comes only from the failed specs |
| Targets.DirectoryRunIgnoresFailed | lib/rspec-watcher.rb:224-226 | running the `spec` directory does not merge in a failed line target |
| Targets.NotIdempotent | lib/rspec-watcher.rb:228-235 | resolving the result again with the same failed specs appends them a second time |
| Targets.ColonTargetRaises | lib/rspec-watcher.rb:229-230 | a target made only of colons has no base, so `specs_to_run` raises |
| Runs.ExitedStays | lib/rspec-watcher.rb:164-172 | once the worker has exited, no further signal or event changes it |
| Runs.WorkerOutcome | lib/rspec-watcher.rb:157-190 | a worker run equals an independent closed form fixed by the signals that come before each of the worker's three steps (write the failures, write the token, end the block) |
| Runs.AtMostOneReport | lib/rspec-watcher.rb:164-189 | a worker writes at most one failure list, the engine's; at most two tokens, a second one only as the forced `cancelled` of an exit with 1 after the list; an exit with 0 wrote one token and the list; an exited worker wrote a token; `done` always follows the list; without the list there is at most the forced `cancelled` |
| Runs.CancelledIffSignalled | lib/rspec-watcher.rb:164-194 | the first token the parent reads is `done` or `cancelled`, and it is `done` iff the worker wrote the failures and the token before any signal arrived |
| Runs.FailedSpecsAfterRun | lib/rspec-watcher.rb:194-209 | with the failures read whole, the failed specs become the run's failures iff no signal came before the token; otherwise the process exits with 1 while quitting and the failed specs are kept when not |
| Runs.CancelledRunKeepsFailures | lib/rspec-watcher.rb:164-209 | one signal during a run: the worker exits 0 reporting `cancelled`, and the parent keeps the previous failures |
| Runs.LateSignalCancels | lib/rspec-watcher.rb:164-209 | a signal after the failures are written but before the token still makes the run `cancelled`, and the parent keeps the previous failures |
| Runs.SignalsAfterDone | lib/rspec-watcher.rb:164-209 | two signals after `done` force a second token and an exit with 1, but the parent reads only `done` and takes the failures even while quitting |
| Runs.ForcedStop | lib/rspec-watcher.rb:164-172 | two signals force the worker out with status 1 after writing `cancelled` and no failure list |
| Marshal.LittleEndianRoundTrip | lib/rspec-watcher.rb:182 | the little-endian bytes of a length read back as that length |
| Marshal.ReadLongOf | lib/rspec-watcher.rb:201 | `r_long` reads back what `w_long` wrote, leaving what follows untouched |
| Marshal.ReadStringOf | lib/rspec-watcher.rb:201 | reading a dumped string gives it back with what follows it |
| Marshal.ReadStringsOf | lib/rspec-watcher.rb:201 | reading the dumped elements gives the list back |
| Marshal.LoadDumpRest | lib/rspec-watcher.rb:182-201 | `Marshal.load` of a dump consumes exactly the dump: it gives the list back and leaves what follows |
| Marshal.LoadDump | lib/rspec-watcher.rb:182-201 | `Marshal.load` of `Marshal.dump(list)` is the list, whatever follows on the stream |
| Marshal.PrefixNeverLoads | lib/rspec-watcher.rb:201 | a dump cut short at any point fails to load |
| Marshal.Gets | lib/rspec-watcher.rb:201 | `gets` returns the whole stream when it holds no line feed, and otherwise the prefix up to and including its first line feed |
| Marshal.GetsStopsAt | lib/rspec-watcher.rb:201 | `gets` never reads past a line feed |
| Marshal.GetsLine | lib/rspec-watcher.rb:201 | `gets` returns the whole line when its line feed is its only one |
| Marshal.PipeIsDumpAndNewLine | lib/rspec-watcher.rb:182 | a dump never ends with a line feed, so the child writes the dump and exactly one line feed |
| Marshal.ReceiveByLineOutcome | lib/rspec-watcher.rb:182-201 | `Marshal.load(rd_failures.gets)` fails iff the dump holds a line-feed byte, and otherwise delivers the list |
| Marshal.FiveFailuresAreLost | lib/rspec-watcher.rb:182 | with five failures the count byte is a line feed: `gets` stops after four bytes and the load raises |
| Marshal.ReceiveDelivers | lib/rspec-watcher.rb:201 | loading straight from the stream delivers every list the child writes |
| Seqs.UniqInPlace | lib/rspec-watcher.rb:146 | `uniq!`'s loop computes `Uniq` of the batch |
| Seqs.UniqMembers | lib/rspec-watcher.rb:146 | `uniq` keeps exactly the elements of its input |
| Seqs.UniqNoDup | lib/rspec-watcher.rb:146 | `uniq` leaves no duplicate |
| Seqs.UniqOrder | lib/rspec-watcher.rb:146 | `uniq` lists the distinct elements in the order of their first occurrences |
| Seqs.UniqOfNoDup | lib/rspec-watcher.rb:146 | `uniq` of a duplicate-free list is that list |
| Seqs.FlattenMembers | lib/rspec-watcher.rb:145 | the concatenated requests hold exactly the targets of some request |
| Text.SplitAllJoin | lib/rspec_watcher/search.rb:28 | splitting lines joined by line feeds gives the lines back when none holds a line feed |
| Text.JoinSplitAll | lib/rspec-watcher.rb:229 | joining the fields of a split with the separator gives the string back |
| Text.StripShape | lib/rspec_watcher/search.rb:28 | `strip` returns the slice left after removing a run of whitespace from each end; the slice neither starts nor ends with whitespace |
| Text.DecimalRoundTrip | lib/rspec_watcher/key_watcher.rb:28 | the failed count printed in decimal reads back as the count |
| Text.Utf8StringAscii | lib/rspec-watcher.rb:182 | an ASCII byte occurs in a string's UTF-8 bytes iff its character occurs in the string |
| Search.LineStartUnderscore | lib/rspec_watcher/search.rb:40 | finds the first underscore at or after the start position that begins a line, which is where `/^_/` matches: no earlier underscore begins a line; or reports that none does |
| Search.SnakeCaseChars | lib/rspec_watcher/search.rb:39-41 | the snake case adds no character but `_` and lower-case letters |
| Search.SnakeCaseNoUpper | lib/rspec_watcher/search.rb:39-41 | the snake case holds no capital letter |
| Search.SnakeCaseLetters | lib/rspec_watcher/search.rb:39-41 | without underscores, the snake case is the constant downcased without its underscores |
| Search.SnakeCaseOneLine | lib/rspec_watcher/search.rb:40 | for a one-line constant, `sub(/^_/, '')` drops exactly a leading underscore |
| Search.SnakeCaseWord | lib/rspec_watcher/search.rb:39-41 | a single CamelCase word becomes the word downcased, without an underscore |
| Search.SnakeCaseNextWord | lib/rspec_watcher/search.rb:39-41 | each further CamelCase word adds an underscore and the word downcased |
| Search.SnakeCaseOfFooBar | lib/rspec_watcher/search.rb:39-41 | `FooBar` becomes `foo_bar` |
| Search.SnakeCaseOfHttpServer | lib/rspec_watcher/search.rb:39-41 | an acronym is split letter by letter: `HTTPServer` becomes `h_t_t_p_server` |
| Search.SnakeCaseOfHttp | lib/rspec_watcher/search.rb:39-41 | `HTTP` becomes `h_t_t_p` |
| Search.KebabCaseOfSnakeCase | lib/rspec_watcher/search.rb:43-45 | the kebab case has no underscore, and turning its dashes back into underscores gives the snake case when the constant has no dash |
| Search.PatternOfNothing | lib/rspec_watcher/search.rb:7-13 | no constants make the empty pattern |
| Search.PatternItemsMembers | lib/rspec_watcher/search.rb:7-13 | a spelling is in the pattern iff it is the constant, its snake case or its kebab case for some constant |
| Search.FormsWithoutBar | lib/rspec_watcher/search.rb:7-12 | a constant without `|` gives spellings without `|` |
| Search.PatternAlternatives | lib/rspec_watcher/search.rb:7-13 | the pattern's alternatives are distinct, cover every spelling of every constant, and split back at `|` |
| Search.EscapeForGrepRoundTrip | lib/rspec_watcher/search.rb:23 | grep escaping puts a backslash before every `|`, loses nothing, and adds one character per `|` |
| Search.SearchCommandPattern | lib/rspec_watcher/search.rb:22-27 | grep runs iff `which rg` printed nothing, and either tool receives the same alternation |
| Search.ResultLines | lib/rspec_watcher/search.rb:28 | no result line holds a line feed |
| Search.DropTrailingEmptyFields | lib/rspec_watcher/search.rb:28 | `split` keeps a prefix of the fields |
| Search.ResultLinesOfListing | lib/rspec_watcher/search.rb:28 | a listing of paths, one per line, gives back exactly those paths |
| Search.ScanAllFails | lib/rspec_watcher/search.rb:33-37 | reading fails iff a path is missing, and names the first missing path |
| Search.ScanAllMembers | lib/rspec_watcher/search.rb:34-35 | the names read are exactly those the scan finds in the paths' files |
| Search.ConstantDefinitionsShape | lib/rspec_watcher/search.rb:33-37 | the constants are duplicate-free and exactly those the files define, and extraction fails only on a missing file |
| Search.SpecsWithMatchingConstantsInRuns | lib/rspec_watcher/search.rb:5-29 | it succeeds iff every file exists, and then returns the lines of one search whose alternation is the files' constant pattern |
| Rg.PathsOfMembers | lib/rspec_watcher/rg.rb:20 | `filter_map` keeps exactly the records' paths |
| Rg.ArrayLogRaises | lib/rspec_watcher/rg.rb:26-27 | as written, `puts paths` raises `NoMethodError` for any paths, so `extract_constant_definitions` and `find_matching_specs` always fail before reading a file |
| Rg.SearchConstantsShape | lib/rspec_watcher/rg.rb:5-31 | with the log line fixed, the search fails iff some path cannot be read; otherwise it lists exactly the spec paths ripgrep reports for the pattern of the files' constants, each once, in order of first report |
| RSpecWatcher.MatchingRules | lib/rspec-watcher.rb:83-87 | one rule per path, each watching only `.rb` files with the constant-matching block |
| RSpecWatcher.Readable | lib/rspec-watcher.rb:84-86 | keeps exactly the changed paths that can still be read |
| RSpecWatcher.ConstantRuleRaises | lib/rspec-watcher.rb:84-86 | as written, the constant-matching block raises on every batch, so its rule's inferrer never yields specs |
| RSpecWatcher.RemovedFileStopsSearch | lib/rspec-watcher.rb:84-86 | once the log line is fixed, a batch with a removed file still makes the search raise |
| RSpecWatcher.MatchingSpecsReadable | lib/rspec-watcher.rb:84-86 | searching only the readable changed files lists each spec once, and equals the search over all changed files with the log line fixed whenever every one of them can be read |
| RSpecWatcher.ReceivedFailuresOutcome | lib/rspec-watcher.rb:182-201 | the parent's read of the failures succeeds iff their dump holds no line-feed byte, and always fails for five failures |
| RSpecWatcher.ReadableAll | lib/rspec-watcher.rb:84-86 | when every changed path is readable, nothing is filtered out |
| RSpecWatcher.Session.constructor | lib/rspec-watcher.rb:56-58 | the library loads with no rules, an empty queue, no runner and the default keys |
| RSpecWatcher.Session.Watch | lib/rspec-watcher.rb:70-73 | `watch` appends one rule, with the no-specs inferrer when no block is given, and changes nothing else |
| RSpecWatcher.Session.OnKey | lib/rspec-watcher.rb:75-77 | `on_key` registers the key's callback in the key registry |
| RSpecWatcher.Session.RunSpecsOnKey | lib/rspec-watcher.rb:93-100 | registers a key described as "run" and the paths, whose block resets the failures and runs the paths |
| RSpecWatcher.Session.RunSpecsWithMatchingConstantsIn | lib/rspec-watcher.rb:80-90 | with `rg`, one constant-matching rule per path; without it, no rule and the error line |
| RSpecWatcher.Session.Apply | lib/rspec-watcher.rb:67 | one call of the configure block adds its rules, its key and its log lines |
| RSpecWatcher.Session.Configure | lib/rspec-watcher.rb:64-68 | `configure` empties the rules and the failed specs, then the rules, keys and log are those of the block's calls |
| RSpecWatcher.Session.ResetFailures | lib/rspec-watcher.rb:114-116 | `reset_failures` empties the failed specs and changes nothing else |
| RSpecWatcher.Session.RunSpecs | lib/rspec-watcher.rb:118-120 | `run_specs` appends one request to the queue and changes nothing else |
| RSpecWatcher.Session.SetWantsToQuit | lib/rspec-watcher.rb:61 | the accessor sets the quit flag and nothing else |
| RSpecWatcher.Session.PressKey | lib/rspec_watcher/key_watcher.rb:56-61 | a polled byte that is a registered one-character ASCII key runs that key's block on the failed specs and the queue; any other byte, or none, changes nothing |
| RSpecWatcher.Session.FileChanged | lib/rspec-watcher.rb:132-138 | a listener enqueues what its rule's inferrer gives for the batch, even an empty list; an inferrer that raises enqueues nothing; nothing else changes |
| RSpecWatcher.Session.DrainBatch | lib/rspec-watcher.rb:142-146 | the runner takes every pending request and runs their targets deduplicated; the queue is left empty |
| RSpecWatcher.Session.RunOnce | lib/rspec-watcher.rb:140-209 | one runner pass resolves the drained batch's targets. A raise in `specs_to_run` ends the runner. `cancelled` while quitting exits with 1. On `done`, a failed load of the failures ends the runner with the pid still set. Otherwise the pid is cleared and the failed specs follow the token |
| RSpecWatcher.DrainedBatch | lib/rspec-watcher.rb:142-146 | the drained batch holds each requested target once, nothing else, in the order of first request |
| RSpecWatcher.RulesWithoutRg | lib/rspec-watcher.rb:80-90 | without `rg`, configuration adds no constant-matching rule |
| RSpecWatcher.ConfigureLog | lib/rspec-watcher.rb:88-89 | configuration prints one error per constant-matching call when `rg` is missing, and nothing otherwise |
| RSpecWatcher.BlockRulesFromWatch | lib/rspec-watcher.rb:70-73 | every rule with a block comes from a `watch` call with that path, options and block |
| RSpecWatcher.KeysAfterLookup | lib/rspec-watcher.rb:75-77 | after configuration, each key answers with the callback of its last registration |
| RSpecWatcher.KeysAfterUnique | lib/rspec-watcher.rb:75-77 | registering keys keeps them unique |
| RSpecWatcher.RunSpecsOnKeyEffect | lib/rspec-watcher.rb:93-100 | the registered key's description is "run " and the paths joined by spaces; its block empties the failures and enqueues the paths |
| RSpecWatcher.DefaultKeys | lib/rspec_watcher/key_watcher.rb:35-42 | `r` enqueues the failed specs and keeps them, `a` empties them and enqueues `spec`, any other input does nothing |
| RSpecWatcher.EmptyRequestRerunsFailures | lib/rspec-watcher.rb:47 | a rule without an inferrer enqueues an empty request, and running it reruns every failed spec whose file still exists |
| RSpecWatcher.RetryPassesFailuresTwice | lib/rspec_watcher/key_watcher.rb:35-37 | retrying distinct failed line targets with nothing else queued passes each of them to the test engine twice |

## Left out

- Listen, `fork`, the pipes' file descriptors, `Process.kill`, `trap`, `Process.wait`, threads and sleeps are not modelled. The worker is a function of the events it sees, and the queue is drained in one step.
- The debounce timing is left out. Whatever is queued when the runner drains makes up the batch.
- Terminal handling (`stty`, `clear_screen`) is left out. A poll of `read_nonblock(1)` is an input: the byte read, or none.
- The help screen is not re-printed after each run or at start.
- The text of log lines printed with `puts` is left out: "Finding specs for:", "Running specs:", the shutdown warning and "Run cancelled". These are single strings and cannot raise. The configuration error line is modelled, and so is the raise of `puts paths` in `rg.rb`.
- `Rg.SearchConstants`: the corrected search does not model what its log line prints.
- The test engine, `get_failed_specs` and `File.absolute_path` are left out. The worker's failures arrive as a given list.
- `PATH_INFERRER`, Rails and the railtie are left out. A rule's path is passed to the listener unchanged.
- Listen's `only:` filter is left out. The rule records the option; which files reach the block is Listen's decision.
- The effects of user `on_key` and `watch` blocks are left out. Each block is an opaque identifier, and its result is a parameter of `FileChanged`.
- The regular-expression scan for constant definitions is a parameter. So are the shell-outs to `which`, `rg` and `grep`, and `JSON.parse` of ripgrep's records.
- `search.rb` is not loaded by `rspec-watcher.rb`. It is modelled on its own in `Search`.
- `@failed_specs` is nil until `configure` runs. The model starts it as empty.
- `RSpecWatcher.Session.PressKey`: the `r` block enqueues the failed-specs array object itself. A later `uniq!` on a batch that is that same object would change the failed specs in place. The model works on values and does not capture this aliasing.
- `Text.Downcase`: handles ASCII letters only. Ruby's `downcase` also folds non-ASCII letters.
- `Marshal`: covers only arrays of UTF-8 strings shorter than 2^31 bytes. Other Ruby objects and the character encoding of paths are left out.
- `kill_runner` is not modelled as a method, because nothing calls it. A `Signal` worker event stands for the `USR1` it would send.
- `RSpecWatcher.Session.RunOnce`: the received failures are not decoded from UTF-8. A successful load gives back exactly the bytes dumped (`Marshal.ReceiveByLineOutcome`), and the model returns the list the worker had.
- `RSpecWatcher.Session.RunOnce`: requires the failures to be dumpable, every string shorter than 2^31 bytes. It also requires the worker to write a token. A worker that ends without one, for example on a raise in `get_failed_specs` or `Marshal.dump`, leaves the runner thread waiting forever in `rd_exit.gets`, because the parent keeps the write end open; this case is not modelled.
- A `USR1` that arrives in the child before its trap is installed kills it with the default action. The runner thread then waits forever in `rd_exit.gets`, because the parent keeps the write end open; this case is not modelled, and the model starts the worker with the trap in place.
- Pipe capacity is not modelled. A failure dump larger than the pipe's buffer blocks the child at `wr_failures.puts` before it writes its token, while the parent waits for the token. So `Marshal.ReceiveDelivers`, and the intended fix in the first Findings row, deliver every list only when the dump fits in the pipe.
- The pipes are never closed in the source. The model reads each pipe once per run and says nothing about descriptor leaks.

## Findings

| source | as written | input that shows it | evidently intended | confidence | as-written member | corrected member |
|---|---|---|---|---|---|---|
| lib/rspec-watcher.rb:182 | the child writes `Marshal.dump(failures)` with `puts`, and the parent reads it with `Marshal.load(rd_failures.gets)` (line 201), so the read stops at the first line-feed byte inside the binary dump | exactly five failed specs: the dump starts `04 08 5B 0A`, because 5 is written as the byte 10; `gets` returns those four bytes, the load raises "marshal data too short", and the runner thread ends | `Marshal.load(rd_failures)`, which reads exactly the dump from the stream and delivers every failure list whose dump fits in the pipe | high (not executed) | Marshal.FiveFailuresAreLost | Marshal.ReceiveDelivers |
| lib/rspec_watcher/rg.rb:27 | `extract_constant_definitions` logs with `puts paths`. `Kernel#puts` hands the Array to `$stdout.puts`, which is the raw-mode IO (`rspec-watcher.rb:43`). Its `translate_newlines` calls `gsub` on the Array, which has no such method | any batch under a constant-matching rule, for example one modified file `app/models/user.rb`: `puts` raises `NoMethodError`, the listener drops the exception, and nothing is enqueued | log the paths as strings, for example `puts(*paths)`, and search with the changed files' constants | high (not executed) | Rg.ArrayLogRaises | Rg.SearchConstantsShape |
| lib/rspec-watcher.rb:84-86 | once `rg.rb:27` is fixed, the constant-matching block passes `modified + added + removed` to `Rg.find_matching_specs`, and `File.read` (`rg.rb:29`) raises on a removed file | deleting any `.rb` file under a constant-matching path: the removed path cannot be read, so the whole batch, including the modified files, is dropped | search only the changed files that can still be read | medium (not executed) | RSpecWatcher.RemovedFileStopsSearch | RSpecWatcher.MatchingSpecsReadable |
