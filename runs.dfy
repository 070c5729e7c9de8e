/**
 * One run of the specs, reduced to its bookkeeping: the forked worker's quit flag and what it
 * writes on the two pipes, driven by abstract events, and the parent's handling of the status
 * token it reads.
 *
 * After the test engine starts, the worker's own code takes three steps in order: it writes
 * the engine's failures on the result pipe, writes a status token on the status pipe, and
 * ends the forked block (status 0). A USR1 can arrive between any two of them. `Proceed` is
 * the worker taking its next step and `Signal` is a USR1 arriving; the engine's failures are
 * a parameter of the run.
 */
module Runs {
  import opened Wrappers

  const Done: string := "done"
  const Cancelled: string := "cancelled"

  /** Where the worker is: the engine running (failures not yet written), failures written,
      token written, or gone with an exit code. */
  datatype Phase = Running | Reported | Tokened | Exited(code: int)

  /** The forked worker: its quit flag (`RSpec.world.wants_to_quit`), its phase, the lines
      written to the status pipe and the failure lists written to the result pipe. */
  datatype Worker = Worker(wantsToQuit: bool, phase: Phase, status: seq<string>, results: seq<seq<string>>)

  datatype WorkerEvent = Signal | Proceed

  /** The worker right after the fork: the quit flag cleared, nothing written. */
  function Spawn(): Worker {
    Worker(false, Running, [], [])
  }

  /** The USR1 trap with the flag already set: write `cancelled` and `exit!(1)`. */
  function Forced(w: Worker): Worker {
    w.(wantsToQuit := true, status := w.status + [Cancelled], phase := Exited(1))
  }

  /** The worker's next step: write the failures; write `cancelled` if the flag is set and
      `done` otherwise; end the block. */
  function Advance(w: Worker, failures: seq<string>): Worker {
    match w.phase
    case Running => w.(results := w.results + [failures], phase := Reported)
    case Reported => w.(status := w.status + [if w.wantsToQuit then Cancelled else Done], phase := Tokened)
    case Tokened => w.(phase := Exited(0))
    case Exited(_) => w
  }

  /** One event. A first USR1 sets the flag; one with the flag set forces the exit. An exited
      process receives nothing more. */
  function Step(w: Worker, failures: seq<string>, e: WorkerEvent): Worker {
    if w.phase.Exited? then w
    else match e
      case Signal => if w.wantsToQuit then Forced(w) else w.(wantsToQuit := true)
      case Proceed => Advance(w, failures)
  }

  function RunFrom(w: Worker, failures: seq<string>, events: seq<WorkerEvent>): Worker
    decreases |events|
  {
    if events == [] then w else RunFrom(Step(w, failures, events[0]), failures, events[1..])
  }

  /** The worker after the events of one run whose engine reports `failures`. */
  function Run(failures: seq<string>, events: seq<WorkerEvent>): Worker {
    RunFrom(Spawn(), failures, events)
  }

  /** The number of signals before the worker's next step. */
  function LeadingSignals(events: seq<WorkerEvent>): (k: nat)
    ensures k <= |events|
    ensures forall i :: 0 <= i < k ==> events[i] == Signal
    ensures k < |events| ==> events[k] == Proceed
    decreases |events|
  {
    if events == [] || events[0] == Proceed then 0
    else
      var k := LeadingSignals(events[1..]);
      assert events[0] == Signal;
      assert forall i :: 0 < i <= k + 1 && i < |events| ==> events[i] == events[1..][i - 1];
      1 + k
  }

  /**
   * What a run leaves, written independently of `Step`: the events fall into the signals
   * before each of the worker's three steps. The second signal overall forces the exit,
   * after whatever the worker had written; otherwise the token is `cancelled` when one
   * signal came before it and `done` when none did.
   */
  function Expected(failures: seq<string>, events: seq<WorkerEvent>): Worker {
    var k := LeadingSignals(events);
    if k >= 2 then Worker(true, Exited(1), [Cancelled], [])
    else if k == |events| then Worker(k == 1, Running, [], [])
    else ExpectedReported(failures, k, events[k + 1..])
  }

  /** The rest of `Expected` once the failures are written, `signals` signals having come. */
  function ExpectedReported(failures: seq<string>, signals: nat, events: seq<WorkerEvent>): Worker {
    var k := LeadingSignals(events);
    var s := signals + k;
    if s >= 2 then Worker(true, Exited(1), [Cancelled], [failures])
    else if k == |events| then Worker(s == 1, Reported, [], [failures])
    else ExpectedTokened(failures, s, events[k + 1..])
  }

  /** The rest of `Expected` once the token is written, `signals` signals having come. */
  function ExpectedTokened(failures: seq<string>, signals: nat, events: seq<WorkerEvent>): Worker
    requires signals <= 1
  {
    var token := if signals == 1 then Cancelled else Done;
    var k := LeadingSignals(events);
    var s := signals + k;
    if s >= 2 then Worker(true, Exited(1), [token, Cancelled], [failures])
    else if k == |events| then Worker(s == 1, Tokened, [token], [failures])
    else Worker(s == 1, Exited(0), [token], [failures])
  }

  /** An exited worker ignores everything that follows. */
  lemma {:induction false} ExitedStays(w: Worker, failures: seq<string>, events: seq<WorkerEvent>)
    requires w.phase.Exited?
    ensures RunFrom(w, failures, events) == w
    decreases |events|
  {
    if events != [] {
      ExitedStays(w, failures, events[1..]);
    }
  }

  /** The signals before the worker's next step: a second one (counting a flag already set)
      forces the exit; otherwise the flag records whether one came, and the step is taken. */
  lemma {:induction false} Segment(w: Worker, failures: seq<string>, events: seq<WorkerEvent>)
    requires !w.phase.Exited?
    ensures var k := LeadingSignals(events);
      var s := (if w.wantsToQuit then 1 else 0) + k;
      RunFrom(w, failures, events) ==
        if s >= 2 then Forced(w)
        else if k == |events| then w.(wantsToQuit := s == 1)
        else RunFrom(Advance(w.(wantsToQuit := s == 1), failures), failures, events[k + 1..])
    decreases |events|
  {
    if events != [] && events[0] == Signal {
      if w.wantsToQuit {
        ExitedStays(Forced(w), failures, events[1..]);
      } else {
        var w1 := w.(wantsToQuit := true);
        Segment(w1, failures, events[1..]);
        var k := LeadingSignals(events[1..]);
        if k < |events[1..]| {
          assert events[1..][k + 1..] == events[k + 2..];
        }
      }
    }
  }

  lemma TokenedOutcome(failures: seq<string>, signals: nat, events: seq<WorkerEvent>)
    requires signals <= 1
    ensures var token := if signals == 1 then Cancelled else Done;
      RunFrom(Worker(signals == 1, Tokened, [token], [failures]), failures, events) ==
        ExpectedTokened(failures, signals, events)
  {
    var token := if signals == 1 then Cancelled else Done;
    var w := Worker(signals == 1, Tokened, [token], [failures]);
    var k := LeadingSignals(events);
    Segment(w, failures, events);
    if signals + k < 2 && k < |events| {
      ExitedStays(Advance(w.(wantsToQuit := signals + k == 1), failures), failures, events[k + 1..]);
    }
  }

  lemma ReportedOutcome(failures: seq<string>, signals: nat, events: seq<WorkerEvent>)
    requires signals <= 1
    ensures RunFrom(Worker(signals == 1, Reported, [], [failures]), failures, events) ==
      ExpectedReported(failures, signals, events)
  {
    var k := LeadingSignals(events);
    Segment(Worker(signals == 1, Reported, [], [failures]), failures, events);
    if signals + k < 2 && k < |events| {
      var w := Worker(signals + k == 1, Reported, [], [failures]);
      var token := if signals + k == 1 then Cancelled else Done;
      assert Advance(w, failures) == Worker(signals + k == 1, Tokened, [token], [failures]);
      TokenedOutcome(failures, signals + k, events[k + 1..]);
    }
  }

  /** The run is exactly `Expected`. */
  lemma WorkerOutcome(failures: seq<string>, events: seq<WorkerEvent>)
    ensures Run(failures, events) == Expected(failures, events)
  {
    var k := LeadingSignals(events);
    Segment(Spawn(), failures, events);
    if k < 2 && k < |events| {
      assert Advance(Spawn().(wantsToQuit := k == 1), failures) == Worker(k == 1, Reported, [], [failures]);
      ReportedOutcome(failures, k, events[k + 1..]);
    }
  }

  /**
   * What any run has written: at most one failure list, and it is the engine's; at most two
   * tokens, a second only from a forced exit; a completed block wrote one token and the
   * list; `done` always follows the list; without the list there is at most the forced
   * `cancelled`.
   */
  lemma AtMostOneReport(failures: seq<string>, events: seq<WorkerEvent>)
    ensures var w := Run(failures, events);
      (w.results == [] || w.results == [failures]) && |w.status| <= 2
    ensures var w := Run(failures, events);
      |w.status| == 2 ==> w.phase == Exited(1) && w.status[1] == Cancelled && w.results == [failures]
    ensures var w := Run(failures, events);
      w.phase.Exited? ==> w.status != []
    ensures var w := Run(failures, events);
      w.phase == Exited(0) ==> |w.status| == 1 && w.results == [failures]
    ensures var w := Run(failures, events);
      w.status != [] && w.status[0] == Done ==> w.results == [failures]
    ensures var w := Run(failures, events);
      w.results == [] ==> w.status == [] || w.status == [Cancelled]
  {
    WorkerOutcome(failures, events);
  }

  /** The first token the parent reads is `done` or `cancelled`, and it is `done` exactly
      when no signal arrived before the worker wrote it, that is when the worker's first two
      steps are the run's first two events. */
  lemma CancelledIffSignalled(failures: seq<string>, events: seq<WorkerEvent>)
    requires Run(failures, events).status != []
    ensures Run(failures, events).status[0] == Done || Run(failures, events).status[0] == Cancelled
    ensures Run(failures, events).status[0] == Done <==> |events| >= 2 && events[0] == Proceed && events[1] == Proceed
  {
    WorkerOutcome(failures, events);
    if LeadingSignals(events) == 0 && |events| > 0 {
      assert events[1..][0] == events[1] by {
        assert |events[1..]| > 0 ==> events[1..][0] == events[1];
      }
    }
  }

  /** What the parent does with the first status line: `exit!(1)` on `cancelled` while its own
      quit flag is set; otherwise it goes idle (the runner pid cleared), with the failed specs
      replaced by the received list on `done` and kept on anything else. */
  datatype StatusOutcome = ExitProcess(code: int) | Idle(failedSpecs: seq<string>)

  function HandleStatus(token: string, wantsToQuit: bool, failed: seq<string>, received: seq<string>): StatusOutcome {
    if token == Cancelled && wantsToQuit then ExitProcess(1)
    else Idle(if token == Done then received else failed)
  }

  /** The parent once the worker of `events` has written a token, the failures read whole. */
  function AfterRun(failures: seq<string>, events: seq<WorkerEvent>, wantsToQuit: bool, failed: seq<string>): StatusOutcome
    requires Run(failures, events).status != []
  {
    var w := Run(failures, events);
    HandleStatus(w.status[0], wantsToQuit, failed, if w.results == [] then [] else w.results[0])
  }

  /** The failed specs after a run are the run's own failures when the worker reached its
      token without a signal, and are left alone otherwise; the process exits only on a
      cancelled run while the parent's quit flag is set. */
  lemma FailedSpecsAfterRun(failures: seq<string>, events: seq<WorkerEvent>, wantsToQuit: bool, failed: seq<string>)
    requires Run(failures, events).status != []
    ensures AfterRun(failures, events, wantsToQuit, failed) ==
      if |events| >= 2 && events[0] == Proceed && events[1] == Proceed then Idle(failures)
      else if wantsToQuit then ExitProcess(1)
      else Idle(failed)
  {
    CancelledIffSignalled(failures, events);
    AtMostOneReport(failures, events);
  }

  /** A signal while the engine runs: the flag flips once, `cancelled` is reported after the
      failures, and the parent keeps its failed specs. */
  lemma CancelledRunKeepsFailures(failures: seq<string>, failed: seq<string>)
    ensures Run(failures, [Signal, Proceed, Proceed, Proceed]) == Worker(true, Exited(0), [Cancelled], [failures])
    ensures AfterRun(failures, [Signal, Proceed, Proceed, Proceed], false, failed) == Idle(failed)
  {
    var events := [Signal, Proceed, Proceed, Proceed];
    assert LeadingSignals(events) == 1;
    assert events[2..] == [Proceed, Proceed];
    assert events[2..][1..] == [Proceed];
    WorkerOutcome(failures, events);
  }

  /** A signal after the failures are written but before the token: the run still reports
      `cancelled`, and the failures already on the pipe are never read. */
  lemma LateSignalCancels(failures: seq<string>, failed: seq<string>)
    ensures Run(failures, [Proceed, Signal, Proceed, Proceed]) == Worker(true, Exited(0), [Cancelled], [failures])
    ensures AfterRun(failures, [Proceed, Signal, Proceed, Proceed], false, failed) == Idle(failed)
  {
    var events := [Proceed, Signal, Proceed, Proceed];
    assert LeadingSignals(events) == 0;
    assert events[1..] == [Signal, Proceed, Proceed];
    assert LeadingSignals(events[1..]) == 1;
    assert events[1..][2..] == [Proceed];
    WorkerOutcome(failures, events);
  }

  /** Two signals after `done` is written force the exit with a second token; the parent reads
      only the first line, so it takes the failures even though it wants to quit. */
  lemma SignalsAfterDone(failures: seq<string>, failed: seq<string>)
    ensures Run(failures, [Proceed, Proceed, Signal, Signal]) == Worker(true, Exited(1), [Done, Cancelled], [failures])
    ensures AfterRun(failures, [Proceed, Proceed, Signal, Signal], true, failed) == Idle(failures)
  {
    var events := [Proceed, Proceed, Signal, Signal];
    assert LeadingSignals(events) == 0;
    assert events[1..] == [Proceed, Signal, Signal];
    assert LeadingSignals(events[1..]) == 0;
    assert events[1..][1..] == [Signal, Signal];
    assert LeadingSignals(events[1..][1..]) == 2;
    WorkerOutcome(failures, events);
  }

  /** Two signals while the engine runs force the worker out with status 1 after writing
      `cancelled`; no failure list is written. */
  lemma ForcedStop(failures: seq<string>, rest: seq<WorkerEvent>)
    ensures Run(failures, [Signal, Signal] + rest) == Worker(true, Exited(1), [Cancelled], [])
  {
    WorkerOutcome(failures, [Signal, Signal] + rest);
    assert LeadingSignals([Signal, Signal] + rest) >= 2 by {
      assert ([Signal, Signal] + rest)[0] == Signal && ([Signal, Signal] + rest)[1] == Signal;
    }
  }
}
