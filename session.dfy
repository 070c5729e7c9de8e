/**
 * The `RSpecWatcher` module's state and what changes it: the watch rules and
 * key commands `configure` registers, the queue of run requests that file
 * events and keys add to, and the runner's cycle of draining the queue,
 * resolving the targets, running them in a child and reading back the
 * failures.
 */
module RSpecWatcher {
  import opened Wrappers
  import opened Seqs
  import opened Text
  import Keys
  import Targets
  import Runs
  import Rg
  import RawIO
  import Marshal

  /** How a watch rule turns file changes into spec paths: `SPEC_INFERRER` (no specs), the
      ripgrep search of `run_specs_with_matching_constants_in`, or a user block. */
  datatype Inferrer = NoSpecs | MatchingConstants | Block(id: nat)

  /** One entry of `@rules`: `[path, options, inferrer]`. */
  datatype Rule = Rule(path: string, options: map<string, string>, inferrer: Inferrer)

  /** The `only: /\.rb\z/` option of the rules made for constant matching. */
  const OnlyRuby: map<string, string> := map["only" := "\\.rb\\z"]

  /** What `run_specs_with_matching_constants_in` prints when `which rg` fails. */
  const RgMissing: string := "Error running specs with matching constants: rg is required to run specs with matching constants"

  /** A call the `configure` block makes. */
  datatype ConfigCall =
    | Watch(path: string, options: map<string, string>, block: Option<nat>)
    | OnKey(key: string, description: string, id: nat)
    | RunSpecsOnKey(key: string, paths: seq<string>)
    | RunSpecsWithMatchingConstantsIn(paths: seq<string>)

  // ---------------------------------------------------------------------------
  // What configuration produces
  // ---------------------------------------------------------------------------

  /** `watch`'s rule: `inferrer ||= SPEC_INFERRER`. */
  function WatchRule(path: string, options: map<string, string>, block: Option<nat>): Rule {
    Rule(path, options, if block.Some? then Block(block.value) else NoSpecs)
  }

  /** One `.rb`-only constant-matching rule per path. */
  function MatchingRules(paths: seq<string>): (rules: seq<Rule>)
    ensures |rules| == |paths|
  {
    seq(|paths|, k requires 0 <= k < |paths| => Rule(paths[k], OnlyRuby, MatchingConstants))
  }

  /** The rules one call adds. */
  function CallRules(call: ConfigCall, rgInstalled: bool): seq<Rule> {
    match call
    case Watch(path, options, block) => [WatchRule(path, options, block)]
    case RunSpecsWithMatchingConstantsIn(paths) => if rgInstalled then MatchingRules(paths) else []
    case _ => []
  }

  /** The description `run_specs_on_key` registers. */
  function RunDescription(paths: seq<string>): string {
    "run " + Join(paths, " ")
  }

  /** The key one call registers. */
  function CallKey(call: ConfigCall): Option<Keys.Callback> {
    match call
    case OnKey(key, description, id) => Some(Keys.Callback(key, description, Keys.Custom(id)))
    case RunSpecsOnKey(key, paths) => Some(Keys.Callback(key, RunDescription(paths), Keys.ResetAndRun(paths)))
    case _ => None
  }

  /** The lines one call prints. */
  function CallLog(call: ConfigCall, rgInstalled: bool): seq<string> {
    if call.RunSpecsWithMatchingConstantsIn? && !rgInstalled then [RgMissing] else []
  }

  function RulesOf(calls: seq<ConfigCall>, rgInstalled: bool): seq<Rule>
    decreases |calls|
  {
    if calls == [] then [] else RulesOf(calls[..|calls| - 1], rgInstalled) + CallRules(calls[|calls| - 1], rgInstalled)
  }

  function LogOf(calls: seq<ConfigCall>, rgInstalled: bool): seq<string>
    decreases |calls|
  {
    if calls == [] then [] else LogOf(calls[..|calls| - 1], rgInstalled) + CallLog(calls[|calls| - 1], rgInstalled)
  }

  function Register(cbs: seq<Keys.Callback>, call: ConfigCall): seq<Keys.Callback> {
    if CallKey(call).Some? then Keys.Upsert(cbs, CallKey(call).value) else cbs
  }

  function KeysAfter(cbs: seq<Keys.Callback>, calls: seq<ConfigCall>): seq<Keys.Callback>
    decreases |calls|
  {
    if calls == [] then cbs else Register(KeysAfter(cbs, calls[..|calls| - 1]), calls[|calls| - 1])
  }

  /** The changes a key's block makes to the failed specs and the queue. */
  function KeyEffect(action: Keys.Action, failed: seq<string>, queue: seq<seq<string>>): (seq<string>, seq<seq<string>>) {
    match action
    case RetryFailed => (failed, queue + [failed])
    case ResetAndRun(paths) => ([], queue + [paths])
    case Custom(_) => (failed, queue)
  }

  // ---------------------------------------------------------------------------
  // Constant matching on file changes
  // ---------------------------------------------------------------------------

  /** The block `run_specs_with_matching_constants_in` gives `watch`, as written: it
      searches with every changed path, removed ones included. */
  function MatchingSpecsAsWritten(modified: seq<string>, added: seq<string>, removed: seq<string>,
                                  files: map<string, string>, scan: string -> seq<string>,
                                  rg: string -> seq<Option<string>>): Result<seq<string>, string>
  {
    Rg.FindMatchingSpecs(modified + added + removed, files, scan, rg)
  }

  /** The same block with the log line of `Rg` fixed, still given every changed path. */
  function MatchingSpecsLogFixed(modified: seq<string>, added: seq<string>, removed: seq<string>,
                                 files: map<string, string>, scan: string -> seq<string>,
                                 rg: string -> seq<Option<string>>): Result<seq<string>, string>
  {
    Rg.SearchConstants(modified + added + removed, files, scan, rg)
  }

  /** The paths that can still be read, in order. */
  function Readable(paths: seq<string>, files: map<string, string>): (r: seq<string>)
    ensures forall k :: 0 <= k < |r| ==> r[k] in files
    ensures forall p :: p in paths && p in files ==> p in r
    ensures forall p :: p in r ==> p in paths
    decreases |paths|
  {
    if paths == [] then []
    else (if paths[0] in files then [paths[0]] else []) + Readable(paths[1..], files)
  }

  /** The block with the log line fixed, searching only the changed files that still exist. */
  function MatchingSpecs(modified: seq<string>, added: seq<string>, removed: seq<string>,
                         files: map<string, string>, scan: string -> seq<string>,
                         rg: string -> seq<Option<string>>): seq<string>
  {
    var paths := Readable(modified + added + removed, files);
    Rg.SearchConstantsShape(paths, files, scan, rg, []);
    Rg.SearchConstants(paths, files, scan, rg).value
  }

  /** As written, every batch under a constant-matching rule raises in the log line of `Rg`,
      whatever changed. */
  lemma ConstantRuleRaises(modified: seq<string>, added: seq<string>, removed: seq<string>, blockResult: seq<string>,
                           files: map<string, string>, scan: string -> seq<string>,
                           rg: string -> seq<Option<string>>)
    ensures MatchingSpecsAsWritten(modified, added, removed, files, scan, rg) == Err(RawIO.NoGsub)
    ensures Inferred(MatchingConstants, modified, added, removed, blockResult, files, scan, rg) == Err(RawIO.NoGsub)
  {
    Rg.ArrayLogRaises(modified + added + removed, files, scan, rg);
  }

  /** With the log line fixed, a removed file still cannot be read, so any batch with a
      removed file raises and no spec is searched for, whatever else changed. */
  lemma RemovedFileStopsSearch(modified: seq<string>, added: seq<string>, removed: seq<string>,
                               files: map<string, string>, scan: string -> seq<string>,
                               rg: string -> seq<Option<string>>, k: nat)
    requires k < |removed| && removed[k] !in files
    ensures MatchingSpecsLogFixed(modified, added, removed, files, scan, rg).Err?
  {
    var all := modified + added + removed;
    assert all[|modified| + |added| + k] == removed[k];
    Rg.SearchConstantsShape(all, files, scan, rg, []);
  }

  /** Searching only readable files never fails, agrees with the search given every changed
      path whenever every changed file can be read, and lists each matching spec once. */
  lemma MatchingSpecsReadable(modified: seq<string>, added: seq<string>, removed: seq<string>,
                              files: map<string, string>, scan: string -> seq<string>,
                              rg: string -> seq<Option<string>>)
    ensures NoDup(MatchingSpecs(modified, added, removed, files, scan, rg))
    ensures (forall p :: p in modified + added + removed ==> p in files) ==>
      MatchingSpecsLogFixed(modified, added, removed, files, scan, rg) == Ok(MatchingSpecs(modified, added, removed, files, scan, rg))
  {
    var all := modified + added + removed;
    Rg.SearchConstantsShape(Readable(all, files), files, scan, rg, []);
    if forall p :: p in all ==> p in files {
      ReadableAll(all, files);
    }
  }

  lemma {:induction false} ReadableAll(paths: seq<string>, files: map<string, string>)
    requires forall p :: p in paths ==> p in files
    ensures Readable(paths, files) == paths
    decreases |paths|
  {
    if paths != [] {
      assert paths[0] in paths;
      ReadableAll(paths[1..], files);
      assert [paths[0]] + paths[1..] == paths;
    }
  }

  /** What a rule's inferrer returns for one batch of changes, or the error it raises. */
  function Inferred(inferrer: Inferrer, modified: seq<string>, added: seq<string>, removed: seq<string>,
                    blockResult: seq<string>, files: map<string, string>, scan: string -> seq<string>,
                    rg: string -> seq<Option<string>>): Result<seq<string>, string>
  {
    match inferrer
    case NoSpecs => Ok([])
    case Block(_) => Ok(blockResult)
    case MatchingConstants => MatchingSpecsAsWritten(modified, added, removed, files, scan, rg)
  }

  /** The parent's `Marshal.load(rd_failures.gets)` of the failures the worker dumped as UTF-8
      strings. When the load succeeds it gives back the dumped list (`Marshal.ReceiveByLineOutcome`);
      decoding the UTF-8 bytes back to strings is not modelled, so the list is returned as is. */
  function ReceivedFailures(failures: seq<string>): Result<seq<string>, string>
    requires Marshal.Dumpable(Utf8All(failures))
  {
    match Marshal.ReceiveByLine(Utf8All(failures))
    case Err(e) => Err(e)
    case Ok(_) => Ok(failures)
  }

  /** The read as written fails exactly when the dump holds a line-feed byte, and always for
      five failures. */
  lemma ReceivedFailuresOutcome(failures: seq<string>)
    requires Marshal.Dumpable(Utf8All(failures))
    ensures ReceivedFailures(failures).Ok? <==> Marshal.NewLine !in Marshal.Dump(Utf8All(failures))
    ensures |failures| == 5 ==> ReceivedFailures(failures) == Err(Marshal.TooShort)
  {
    Marshal.ReceiveByLineOutcome(Utf8All(failures));
    if |failures| == 5 {
      Marshal.FiveFailuresAreLost(Utf8All(failures));
    }
  }

  // ---------------------------------------------------------------------------
  // The session
  // ---------------------------------------------------------------------------

  class Session {
    var rules: seq<Rule>
    var failedSpecs: seq<string>
    var queue: seq<seq<string>>
    var runnerPid: Option<int>
    var wantsToQuit: bool
    /** The runner thread has not died on an exception. */
    var runnerAlive: bool
    /** Set once the parent calls `exit!`. */
    var exitCode: Option<int>
    const keys: Keys.KeyWatcher

    ghost predicate Valid()
      reads this, keys
    {
      keys.Valid()
    }

    /** The state once the library is loaded: no rules, an empty queue and the default keys. */
    constructor ()
      ensures Valid()
      ensures rules == [] && failedSpecs == [] && queue == []
      ensures runnerPid == None && !wantsToQuit && runnerAlive && exitCode == None
      ensures keys.callbacks == [Keys.Callback("r", "retry failed", Keys.RetryFailed),
                                 Keys.Callback("a", "run all specs", Keys.ResetAndRun(["spec"]))]
      ensures fresh(keys)
    {
      rules := [];
      failedSpecs := [];
      queue := [];
      runnerPid := None;
      wantsToQuit := false;
      runnerAlive := true;
      exitCode := None;
      keys := new Keys.KeyWatcher();
    }

    /** `watch(path, **options, &inferrer)`. */
    method Watch(path: string, options: map<string, string>, block: Option<nat>)
      modifies this
      ensures rules == old(rules) + [WatchRule(path, options, block)]
      ensures failedSpecs == old(failedSpecs) && queue == old(queue) && runnerPid == old(runnerPid)
      ensures wantsToQuit == old(wantsToQuit) && runnerAlive == old(runnerAlive) && exitCode == old(exitCode)
    {
      rules := rules + [WatchRule(path, options, block)];
    }

    /** `on_key(key, description, &block)`. */
    method OnKey(key: string, description: string, id: nat)
      requires Valid()
      modifies keys
      ensures Valid()
      ensures keys.callbacks == Keys.Upsert(old(keys.callbacks), Keys.Callback(key, description, Keys.Custom(id)))
    {
      keys.On(key, description, Keys.Custom(id));
    }

    /** `run_specs_on_key(key, *paths)`: a key whose block resets the failures and runs `paths`. */
    method RunSpecsOnKey(key: string, paths: seq<string>)
      requires Valid()
      modifies keys
      ensures Valid()
      ensures keys.callbacks == Keys.Upsert(old(keys.callbacks), Keys.Callback(key, RunDescription(paths), Keys.ResetAndRun(paths)))
    {
      keys.On(key, RunDescription(paths), Keys.ResetAndRun(paths));
    }

    /** `run_specs_with_matching_constants_in(*paths)`: without `rg` it prints the error and
        adds nothing; otherwise one rule per path. */
    method RunSpecsWithMatchingConstantsIn(paths: seq<string>, rgInstalled: bool) returns (log: seq<string>)
      modifies this
      ensures rules == old(rules) + (if rgInstalled then MatchingRules(paths) else [])
      ensures log == if rgInstalled then [] else [RgMissing]
      ensures failedSpecs == old(failedSpecs) && queue == old(queue) && runnerPid == old(runnerPid)
      ensures wantsToQuit == old(wantsToQuit) && runnerAlive == old(runnerAlive) && exitCode == old(exitCode)
    {
      if !rgInstalled {
        return [RgMissing];
      }
      log := [];
      var i := 0;
      while i < |paths|
        invariant 0 <= i <= |paths|
        invariant rules == old(rules) + MatchingRules(paths[..i])
        invariant failedSpecs == old(failedSpecs) && queue == old(queue) && runnerPid == old(runnerPid)
        invariant wantsToQuit == old(wantsToQuit) && runnerAlive == old(runnerAlive) && exitCode == old(exitCode)
      {
        assert MatchingRules(paths[..i + 1]) == MatchingRules(paths[..i]) + [Rule(paths[i], OnlyRuby, MatchingConstants)];
        rules := rules + [Rule(paths[i], OnlyRuby, MatchingConstants)];
        i := i + 1;
      }
      assert paths[..i] == paths;
    }

    /** One call of the configure block. */
    method Apply(call: ConfigCall, rgInstalled: bool) returns (log: seq<string>)
      requires Valid()
      modifies this, keys
      ensures Valid()
      ensures rules == old(rules) + CallRules(call, rgInstalled)
      ensures keys.callbacks == Register(old(keys.callbacks), call)
      ensures log == CallLog(call, rgInstalled)
      ensures failedSpecs == old(failedSpecs) && queue == old(queue) && runnerPid == old(runnerPid)
      ensures wantsToQuit == old(wantsToQuit) && runnerAlive == old(runnerAlive) && exitCode == old(exitCode)
    {
      log := [];
      match call
      case Watch(path, options, block) => Watch(path, options, block);
      case OnKey(key, description, id) => OnKey(key, description, id);
      case RunSpecsOnKey(key, paths) => RunSpecsOnKey(key, paths);
      case RunSpecsWithMatchingConstantsIn(paths) => log := RunSpecsWithMatchingConstantsIn(paths, rgInstalled);
    }

    /** `configure`: empty the rules and the failed specs, then run the block. Keys registered
        earlier stay registered, and the queue is untouched. */
    method Configure(calls: seq<ConfigCall>, rgInstalled: bool) returns (log: seq<string>)
      requires Valid()
      modifies this, keys
      ensures Valid()
      ensures rules == RulesOf(calls, rgInstalled)
      ensures keys.callbacks == KeysAfter(old(keys.callbacks), calls)
      ensures log == LogOf(calls, rgInstalled)
      ensures failedSpecs == [] && queue == old(queue) && runnerPid == old(runnerPid)
      ensures wantsToQuit == old(wantsToQuit) && runnerAlive == old(runnerAlive) && exitCode == old(exitCode)
    {
      rules := [];
      failedSpecs := [];
      log := [];
      var i := 0;
      while i < |calls|
        invariant 0 <= i <= |calls|
        invariant Valid()
        invariant rules == RulesOf(calls[..i], rgInstalled)
        invariant keys.callbacks == KeysAfter(old(keys.callbacks), calls[..i])
        invariant log == LogOf(calls[..i], rgInstalled)
        invariant failedSpecs == [] && queue == old(queue) && runnerPid == old(runnerPid)
        invariant wantsToQuit == old(wantsToQuit) && runnerAlive == old(runnerAlive) && exitCode == old(exitCode)
      {
        assert calls[..i + 1][..i] == calls[..i];
        var more := Apply(calls[i], rgInstalled);
        log := log + more;
        i := i + 1;
      }
      assert calls[..i] == calls;
    }

    /** `reset_failures`. */
    method ResetFailures()
      modifies this
      ensures failedSpecs == []
      ensures rules == old(rules) && queue == old(queue) && runnerPid == old(runnerPid)
      ensures wantsToQuit == old(wantsToQuit) && runnerAlive == old(runnerAlive) && exitCode == old(exitCode)
    {
      failedSpecs := [];
    }

    /** `run_specs(paths)`: one more request at the back of the queue. */
    method RunSpecs(paths: seq<string>)
      modifies this
      ensures queue == old(queue) + [paths]
      ensures rules == old(rules) && failedSpecs == old(failedSpecs) && runnerPid == old(runnerPid)
      ensures wantsToQuit == old(wantsToQuit) && runnerAlive == old(runnerAlive) && exitCode == old(exitCode)
    {
      queue := queue + [paths];
    }

    /** The `wants_to_quit` writer; no code in the library calls it. */
    method SetWantsToQuit(value: bool)
      modifies this
      ensures wantsToQuit == value
      ensures rules == old(rules) && failedSpecs == old(failedSpecs) && queue == old(queue)
      ensures runnerPid == old(runnerPid) && runnerAlive == old(runnerAlive) && exitCode == old(exitCode)
    {
      wantsToQuit := value;
    }

    /** One poll of the key loop, given the byte read (`None` when nothing was pending): a
        registered key runs its block; anything else does nothing. The effect of a user block
        (`Custom`) is not modelled. */
    method PressKey(input: Option<Byte>) returns (action: Option<Keys.Action>)
      requires Valid()
      modifies this
      ensures var cb := Keys.Lookup(keys.callbacks, Keys.PolledKey(input));
        action == if cb.Some? then Some(cb.value.action) else None
      ensures action.None? ==> failedSpecs == old(failedSpecs) && queue == old(queue)
      ensures action.Some? ==> (failedSpecs, queue) == KeyEffect(action.value, old(failedSpecs), old(queue))
      ensures rules == old(rules) && runnerPid == old(runnerPid)
      ensures wantsToQuit == old(wantsToQuit) && runnerAlive == old(runnerAlive) && exitCode == old(exitCode)
    {
      var cb := keys.Get(Keys.PolledKey(input));
      if cb.None? {
        return None;
      }
      action := Some(cb.value.action);
      match cb.value.action
      case RetryFailed => RunSpecs(failedSpecs);
      case ResetAndRun(paths) => ResetFailures(); RunSpecs(paths);
      case Custom(_) =>
    }

    /** A rule's listener reporting one batch of changes: what the rule's inferrer returns is
        enqueued, even when it is empty. An inferrer that raises enqueues nothing; the
        exception stays inside the listener's thread. */
    method FileChanged(i: nat, modified: seq<string>, added: seq<string>, removed: seq<string>,
                       blockResult: seq<string>, files: map<string, string>, scan: string -> seq<string>,
                       rg: string -> seq<Option<string>>)
      requires i < |rules|
      modifies this
      ensures rules == old(rules)
      ensures var inferred := Inferred(rules[i].inferrer, modified, added, removed, blockResult, files, scan, rg);
        queue == old(queue) + if inferred.Ok? then [inferred.value] else []
      ensures failedSpecs == old(failedSpecs) && runnerPid == old(runnerPid)
      ensures wantsToQuit == old(wantsToQuit) && runnerAlive == old(runnerAlive) && exitCode == old(exitCode)
    {
      var inferred := Inferred(rules[i].inferrer, modified, added, removed, blockResult, files, scan, rg);
      if inferred.Ok? {
        RunSpecs(inferred.value);
      }
    }

    /** The runner taking every pending request: the first, then the rest until the queue is
        empty, concatenated and then `uniq!`-ed. */
    method DrainBatch() returns (batch: seq<string>)
      requires queue != []
      modifies this
      ensures batch == Uniq(Flatten(old(queue)))
      ensures queue == []
      ensures rules == old(rules) && failedSpecs == old(failedSpecs) && runnerPid == old(runnerPid)
      ensures wantsToQuit == old(wantsToQuit) && runnerAlive == old(runnerAlive) && exitCode == old(exitCode)
    {
      var pending := queue;
      var paths := pending[0];
      assert pending[..1] == [pending[0]];
      assert Flatten([pending[0]]) == pending[0] + Flatten([]);
      var i := 1;
      while i < |pending|
        invariant 1 <= i <= |pending|
        invariant paths == Flatten(pending[..i])
        modifies {}
      {
        assert pending[..i + 1] == pending[..i] + [pending[i]];
        FlattenSnoc(pending[..i], pending[i]);
        paths := paths + pending[i];
        i := i + 1;
      }
      assert pending[..i] == pending;
      queue := [];
      batch := UniqInPlace(paths);
    }

    /**
     * One pass of the runner loop: drain the queue, resolve the targets, run them in a
     * child whose engine reports `failures` and whose signals and steps are `events`, and
     * handle the first status line it writes. A batch with a target that has no base makes
     * `specs_to_run` raise, and a failed `Marshal.load` of the failures raises too; either
     * ends the runner thread.
     */
    method RunOnce(disk: Targets.Disk, pid: int, failures: seq<string>, events: seq<Runs.WorkerEvent>)
      returns (targets: Result<seq<string>, string>)
      requires runnerAlive && exitCode.None? && queue != []
      requires Runs.Run(failures, events).status != []
      requires Marshal.Dumpable(Utf8All(failures))
      modifies this
      ensures targets == Targets.SpecsToRun(Uniq(Flatten(old(queue))), old(failedSpecs), disk)
      ensures queue == [] && rules == old(rules) && wantsToQuit == old(wantsToQuit)
      ensures targets.Err? ==> !runnerAlive && failedSpecs == old(failedSpecs) && runnerPid == old(runnerPid) && exitCode.None?
      ensures targets.Ok? && Runs.Run(failures, events).status[0] == Runs.Done && ReceivedFailures(failures).Err? ==>
        !runnerAlive && runnerPid == Some(pid) && failedSpecs == old(failedSpecs) && exitCode.None?
      ensures targets.Ok? && !(Runs.Run(failures, events).status[0] == Runs.Done && ReceivedFailures(failures).Err?) ==>
        var outcome := Runs.AfterRun(failures, events, wantsToQuit, old(failedSpecs));
        runnerAlive &&
        (outcome.ExitProcess? ==> exitCode == Some(outcome.code) && runnerPid == Some(pid) && failedSpecs == old(failedSpecs)) &&
        (outcome.Idle? ==> exitCode.None? && runnerPid.None? && failedSpecs == outcome.failedSpecs)
    {
      var batch := DrainBatch();
      targets := Targets.SpecsToRun(batch, failedSpecs, disk);
      if targets.Err? {
        runnerAlive := false;
        return;
      }
      runnerPid := Some(pid);
      Runs.AtMostOneReport(failures, events);
      var token := Runs.Run(failures, events).status[0];
      if token == Runs.Cancelled && wantsToQuit {
        exitCode := Some(1);
        return;
      }
      if token == Runs.Done {
        var received := ReceivedFailures(failures);
        if received.Err? {
          runnerAlive := false;
          return;
        }
        failedSpecs := received.value;
      }
      runnerPid := None;
    }
  }

  // ---------------------------------------------------------------------------
  // Properties
  // ---------------------------------------------------------------------------

  /** The drained batch holds each requested spec once, nothing else, in the order of first
      request. */
  lemma DrainedBatch(queue: seq<seq<string>>, x: string)
    ensures NoDup(Uniq(Flatten(queue)))
    ensures x in Uniq(Flatten(queue)) <==> exists k :: 0 <= k < |queue| && x in queue[k]
    ensures forall i, j :: 0 <= i < j < |Uniq(Flatten(queue))| ==>
      Uniq(Flatten(queue))[i] in Flatten(queue) && Uniq(Flatten(queue))[j] in Flatten(queue) &&
      FirstIndex(Flatten(queue), Uniq(Flatten(queue))[i]) < FirstIndex(Flatten(queue), Uniq(Flatten(queue))[j])
  {
    var b := Uniq(Flatten(queue));
    UniqNoDup(Flatten(queue));
    UniqMembers(Flatten(queue));
    FlattenMembers(queue, x);
    forall i, j | 0 <= i < j < |b|
      ensures b[i] in Flatten(queue) && b[j] in Flatten(queue) &&
        FirstIndex(Flatten(queue), b[i]) < FirstIndex(Flatten(queue), b[j])
    {
      UniqOrder(Flatten(queue), i, j);
    }
  }

  /** Without `rg`, configuration adds no constant-matching rule. */
  lemma {:induction false} RulesWithoutRg(calls: seq<ConfigCall>)
    ensures forall r :: r in RulesOf(calls, false) ==> r.inferrer != MatchingConstants
    decreases |calls|
  {
    if calls != [] {
      RulesWithoutRg(calls[..|calls| - 1]);
    }
  }

  /** Configuration prints one error per constant-matching call when `rg` is missing, and
      nothing otherwise. */
  lemma {:induction false} ConfigureLog(calls: seq<ConfigCall>, rgInstalled: bool)
    ensures |LogOf(calls, rgInstalled)| == if rgInstalled then 0 else Count(Kinds(calls), true)
    ensures forall k :: 0 <= k < |LogOf(calls, rgInstalled)| ==> LogOf(calls, rgInstalled)[k] == RgMissing
    decreases |calls|
  {
    if calls != [] {
      var init, last := calls[..|calls| - 1], calls[|calls| - 1];
      ConfigureLog(init, rgInstalled);
      assert Kinds(calls) == Kinds(init) + [last.RunSpecsWithMatchingConstantsIn?];
      CountAppend(Kinds(init), [last.RunSpecsWithMatchingConstantsIn?], true);
    }
  }

  /** Every rule with a block comes from a `watch` call with that path, options and block. */
  lemma {:induction false} BlockRulesFromWatch(calls: seq<ConfigCall>, rgInstalled: bool)
    ensures forall r :: r in RulesOf(calls, rgInstalled) && r.inferrer.Block? ==>
      exists k :: 0 <= k < |calls| && calls[k] == Watch(r.path, r.options, Some(r.inferrer.id))
    decreases |calls|
  {
    if calls != [] {
      var init, last := calls[..|calls| - 1], calls[|calls| - 1];
      BlockRulesFromWatch(init, rgInstalled);
      forall r | r in RulesOf(calls, rgInstalled) && r.inferrer.Block?
        ensures exists k :: 0 <= k < |calls| && calls[k] == Watch(r.path, r.options, Some(r.inferrer.id))
      {
        if r in RulesOf(init, rgInstalled) {
          var k :| 0 <= k < |init| && init[k] == Watch(r.path, r.options, Some(r.inferrer.id));
          assert calls[k] == init[k];
        } else {
          assert r in CallRules(last, rgInstalled);
          assert calls[|calls| - 1] == Watch(r.path, r.options, Some(r.inferrer.id));
        }
      }
    }
  }

  /** Which calls are constant-matching calls. */
  function Kinds(calls: seq<ConfigCall>): (r: seq<bool>)
    ensures |r| == |calls|
  {
    seq(|calls|, k requires 0 <= k < |calls| => calls[k].RunSpecsWithMatchingConstantsIn?)
  }

  /** Registering keys keeps them unique, and afterwards each key answers with the last
      callback registered for it. */
  lemma {:induction false} KeysAfterLookup(cbs: seq<Keys.Callback>, calls: seq<ConfigCall>, k: nat)
    requires Keys.UniqueKeys(cbs)
    requires k < |calls| && CallKey(calls[k]).Some?
    requires forall j :: k < j < |calls| && CallKey(calls[j]).Some? ==> CallKey(calls[j]).value.key != CallKey(calls[k]).value.key
    ensures Keys.UniqueKeys(KeysAfter(cbs, calls))
    ensures Keys.Lookup(KeysAfter(cbs, calls), Some(CallKey(calls[k]).value.key)) == CallKey(calls[k])
    decreases |calls|
  {
    var init, last := calls[..|calls| - 1], calls[|calls| - 1];
    var key := CallKey(calls[k]).value.key;
    KeysAfterUnique(cbs, init);
    var before := KeysAfter(cbs, init);
    if k == |calls| - 1 {
      Keys.UpsertLookup(before, CallKey(last).value, key);
    } else {
      assert init[k] == calls[k];
      KeysAfterLookup(cbs, init, k);
      if CallKey(last).Some? {
        Keys.UpsertLookup(before, CallKey(last).value, key);
      }
    }
  }

  lemma {:induction false} KeysAfterUnique(cbs: seq<Keys.Callback>, calls: seq<ConfigCall>)
    requires Keys.UniqueKeys(cbs)
    ensures Keys.UniqueKeys(KeysAfter(cbs, calls))
    decreases |calls|
  {
    if calls != [] {
      var init, last := calls[..|calls| - 1], calls[|calls| - 1];
      KeysAfterUnique(cbs, init);
      if CallKey(last).Some? {
        Keys.UpsertLookup(KeysAfter(cbs, init), CallKey(last).value, "");
      }
    }
  }

  /** `run_specs_on_key(k, *paths)` registers "run " and the paths joined by spaces, and its
      block empties the failed specs and then enqueues `paths` as one request. */
  lemma RunSpecsOnKeyEffect(cbs: seq<Keys.Callback>, key: string, paths: seq<string>, failed: seq<string>, queue: seq<seq<string>>)
    requires Keys.UniqueKeys(cbs)
    ensures var cb := Keys.Lookup(Register(cbs, RunSpecsOnKey(key, paths)), Some(key));
      cb.Some? && cb.value.description == "run " + Join(paths, " ") &&
      KeyEffect(cb.value.action, failed, queue) == ([], queue + [paths])
  {
    Keys.UpsertLookup(cbs, Keys.Callback(key, RunDescription(paths), Keys.ResetAndRun(paths)), key);
  }

  /** With the default keys, `r` enqueues the failed specs and keeps them, `a` empties them
      and enqueues `spec`, and an unregistered or missing key changes nothing. */
  lemma DefaultKeys(failed: seq<string>, queue: seq<seq<string>>, input: Option<string>)
    ensures var cbs := [Keys.Callback("r", "retry failed", Keys.RetryFailed), Keys.Callback("a", "run all specs", Keys.ResetAndRun(["spec"]))];
      (Keys.Lookup(cbs, Some("r")).Some? && KeyEffect(Keys.Lookup(cbs, Some("r")).value.action, failed, queue) == (failed, queue + [failed])) &&
      (Keys.Lookup(cbs, Some("a")).Some? && KeyEffect(Keys.Lookup(cbs, Some("a")).value.action, failed, queue) == ([], queue + [["spec"]])) &&
      (input != Some("r") && input != Some("a") ==> Keys.Lookup(cbs, input).None?)
  {
    var cbs := [Keys.Callback("r", "retry failed", Keys.RetryFailed), Keys.Callback("a", "run all specs", Keys.ResetAndRun(["spec"]))];
    assert Keys.UniqueKeys(cbs);
    Keys.LookupRegistered(cbs, Some("r"));
    Keys.LookupRegistered(cbs, Some("a"));
    Keys.LookupRegistered(cbs, input);
  }

  /** A change under a rule without an inferrer enqueues an empty request, and a run of an
      empty batch reruns the failed specs whose files still exist. */
  lemma EmptyRequestRerunsFailures(failed: seq<string>, disk: Targets.Disk)
    requires Targets.AllHaveBase(failed)
    ensures Targets.Resolve(failed, [], disk).Ok?
    ensures Targets.SpecsToRun(Uniq(Flatten([[]])), failed, disk) == Targets.Resolve(failed, [], disk)
    ensures forall x :: x in failed && Targets.Keep(x, [], disk) ==> x in Targets.SpecsToRun(Uniq(Flatten([[]])), failed, disk).value
  {
    assert Flatten<string>([[]]) == [];
    assert Uniq<string>([]) == [];
    Targets.MergeRun([], failed, disk);
    assert Targets.Resolve([], [], disk) == Ok([]);
    assert [] + Targets.Resolve(failed, [], disk).value == Targets.Resolve(failed, [], disk).value;
    forall x | x in failed && Targets.Keep(x, [], disk)
      ensures x in Targets.SpecsToRun([], failed, disk).value
    {
      Targets.ResolveCount(failed, [], disk, x);
      CountPositive(failed, x);
      CountPositive(Targets.SpecsToRun([], failed, disk).value, x);
    }
  }

  lemma {:induction false} CountPositive<T>(s: seq<T>, x: T)
    ensures x in s <==> Count(s, x) > 0
    decreases |s|
  {
    if s != [] {
      CountPositive(s[1..], x);
      assert s == [s[0]] + s[1..];
    }
  }

  /**
   * Retrying with `r` when nothing else is queued enqueues the failed specs,
   * and `specs_to_run` then merges the same list in again: every failed line
   * target whose file exists is passed to the test engine twice.
   */
  lemma RetryPassesFailuresTwice(failed: seq<string>, disk: Targets.Disk)
    requires NoDup(failed)
    requires forall k :: 0 <= k < |failed| ==> Targets.HasLine(failed[k]) && !Targets.IsDirectory(disk, failed[k])
    requires forall k :: 0 <= k < |failed| ==>
      Targets.BasePath(failed[k]).Some? && Targets.Exists(disk, Targets.BasePath(failed[k]).value)
    ensures Targets.SpecsToRun(Uniq(Flatten([failed])), failed, disk) == Ok(failed + failed)
  {
    assert Flatten([failed]) == failed + Flatten<string>([]);
    assert failed + [] == failed;
    UniqOfNoDup(failed);
    forall k | 0 <= k < |failed|
      ensures Targets.Keep(failed[k], failed, disk)
    {
      var base := failed[k][..IndexOf(failed[k], ':')];
      assert ':' !in base;
    }
    Targets.MergeRun(failed, failed, disk);
    Targets.ResolveKeepsAll(failed, failed, disk);
  }
}
