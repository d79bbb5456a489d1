/**
 * The worker's command queue as a state machine over its steps: producers enqueue under the mutex and then
 * signal an eventfd; the worker waits, clears the signal, drains the queue one lock at a time and executes.
 */
module WorkerQueue {
  import opened Commands

  datatype Cmd = Cmd(id: nat, kind: Kind)

  /** A command that ran, with what its calls reported. */
  datatype Ran = Ran(cmd: Cmd, env: Outcomes)

  /** A call of set_error. */
  datatype Resolution = Resolution(cmd: Cmd, code: Code)

  /** Where the worker's loop is. Returned(true): epoll reported the eventfd and it is being read. */
  datatype Phase =
    | Waiting
    | Returned(signalled: bool)
    | Draining(taken: seq<Cmd>)
    | Executing(taken: seq<Cmd>)
    | Stopped

  /** pushed records the order in which the mutex admitted the commands, resolved the calls of set_error so far. */
  datatype State = State(
    queue: seq<Cmd>,
    counter: nat,
    pending: set<nat>,
    phase: Phase,
    executed: seq<Ran>,
    resolved: seq<Resolution>,
    pushed: seq<Cmd>)

  const INITIAL := State([], 0, {}, Waiting, [], [], [])

  /** An eventfd refuses to count past this value, and then stays readable. */
  const COUNTER_MAX: nat := 0xffff_ffff_ffff_fffe

  datatype Action =
    | Enqueue(producer: nat, cmds: seq<Cmd>)
    | Signal(producer: nat)
    | WaitReturns(signalled: bool)
    | ReadSignal
    | StopReading
    | BeginDrain
    | Extract
    | FindEmpty
    | Execute(env: Outcomes)
    | EndTurn
    | Stop

  /** The calls of set_error in one run of execute_internal. */
  function Calls(ran: Ran): (r: seq<Resolution>) {
    match Verdict(ran.cmd.kind, ran.env)
    case Unset => []
    case Set(code) => [Resolution(ran.cmd, code)]
  }

  predicate Enabled(s: State, a: Action) {
    match a
    case Enqueue(p, cmds) => p !in s.pending && cmds != []
    case Signal(p) => p in s.pending
    case WaitReturns(signalled) => s.phase.Waiting? && (signalled ==> s.counter > 0)
    case ReadSignal => s.phase == Returned(true) && s.counter > 0
    case StopReading => s.phase == Returned(true)
    case BeginDrain => s.phase == Returned(false)
    case Extract => s.phase.Draining? && s.queue != []
    case FindEmpty => s.phase.Draining? && s.queue == []
    case Execute(_) => s.phase.Executing? && s.phase.taken != []
    case EndTurn => s.phase == Executing([])
    case Stop => s.phase == Returned(false) || s.phase == Executing([])
  }

  function Do(s: State, a: Action): (s': State)
    requires Enabled(s, a)
  {
    match a
    case Enqueue(p, cmds) => s.(queue := s.queue + cmds, pushed := s.pushed + cmds, pending := s.pending + {p})
    case Signal(p) =>
      s.(counter := if s.counter < COUNTER_MAX then s.counter + 1 else s.counter, pending := s.pending - {p})
    case WaitReturns(signalled) => s.(phase := Returned(signalled))
    case ReadSignal => s.(counter := 0)
    case StopReading => s.(phase := Returned(false))
    case BeginDrain => s.(phase := Draining([]))
    case Extract => s.(phase := Draining(s.phase.taken + [s.queue[0]]), queue := s.queue[1..])
    case FindEmpty => s.(phase := Executing(s.phase.taken))
    case Execute(env) =>
      var ran := Ran(s.phase.taken[0], env);
      s.(phase := Executing(s.phase.taken[1..]), executed := s.executed + [ran], resolved := s.resolved + Calls(ran))
    case EndTurn => s.(phase := Waiting)
    case Stop => s.(phase := Stopped)
  }

  /** Any interleaving of the producers with the worker. */
  predicate IsRun(states: seq<State>, actions: seq<Action>) {
    |states| == |actions| + 1 && states[0] == INITIAL &&
    forall i :: 0 <= i < |actions| ==> Enabled(states[i], actions[i]) && states[i + 1] == Do(states[i], actions[i])
  }

  function Taken(s: State): seq<Cmd> {
    if s.phase.Draining? || s.phase.Executing? then s.phase.taken else []
  }

  function Commanded(rs: seq<Ran>): (cs: seq<Cmd>)
    ensures |cs| == |rs| && forall i :: 0 <= i < |rs| ==> cs[i] == rs[i].cmd
  {
    seq(|rs|, i requires 0 <= i < |rs| => rs[i].cmd)
  }

  /** Nothing is lost, duplicated or reordered. */
  predicate Conserved(s: State) {
    Commanded(s.executed) + Taken(s) + s.queue == s.pushed
  }

  /** Queued commands always have a wake-up on its way, or a worker already past it. */
  predicate NoLostWakeup(s: State) {
    s.queue != [] ==>
      s.counter > 0 || s.pending != {} || s.phase.Returned? || s.phase.Draining? || s.phase.Stopped?
  }

  /** The commands whose promise a list of runs sets, in order. */
  function Settled(rs: seq<Ran>): (r: seq<Resolution>) {
    if rs == [] then [] else Settled(rs[..|rs| - 1]) + Calls(rs[|rs| - 1])
  }

  predicate Inv(s: State) {
    Conserved(s) && NoLostWakeup(s) && s.resolved == Settled(s.executed)
  }

  lemma ConservedEnqueue(a: seq<Cmd>, b: seq<Cmd>, q: seq<Cmd>, cmds: seq<Cmd>)
    ensures a + b + (q + cmds) == a + b + q + cmds
  {}

  lemma ConservedExtract(a: seq<Cmd>, b: seq<Cmd>, q: seq<Cmd>)
    requires q != []
    ensures a + (b + [q[0]]) + q[1..] == a + b + q
  {}

  lemma ConservedExecute(rs: seq<Ran>, ran: Ran, b: seq<Cmd>, q: seq<Cmd>)
    requires b != [] && ran.cmd == b[0]
    ensures Commanded(rs + [ran]) + b[1..] + q == Commanded(rs) + b + q
  {
    assert Commanded(rs + [ran]) == Commanded(rs) + [b[0]];
    assert b == [b[0]] + b[1..];
    assert Commanded(rs) + [b[0]] + b[1..] == Commanded(rs) + b;
  }

  lemma ConservedStep(s: State, a: Action)
    requires Conserved(s) && Enabled(s, a)
    ensures Conserved(Do(s, a))
  {
    hide Commanded;
    match a
    case Enqueue(p, cmds) => ConservedEnqueue(Commanded(s.executed), Taken(s), s.queue, cmds);
    case Extract => ConservedExtract(Commanded(s.executed), s.phase.taken, s.queue);
    case Execute(env) => ConservedExecute(s.executed, Ran(s.phase.taken[0], env), s.phase.taken, s.queue);
    case _ => assert Taken(Do(s, a)) == Taken(s);
  }

  lemma WakeupStep(s: State, a: Action)
    requires NoLostWakeup(s) && Enabled(s, a)
    ensures NoLostWakeup(Do(s, a))
  {}

  lemma SettledStep(s: State, a: Action)
    requires s.resolved == Settled(s.executed) && Enabled(s, a)
    ensures Do(s, a).resolved == Settled(Do(s, a).executed)
  {
    if a.Execute? {
      var ran := Ran(s.phase.taken[0], a.env);
      assert (s.executed + [ran])[..|s.executed|] == s.executed;
    }
  }

  lemma InvStep(s: State, a: Action)
    requires Inv(s) && Enabled(s, a)
    ensures Inv(Do(s, a))
  {
    hide Do, Enabled, Conserved, NoLostWakeup, Settled;
    ConservedStep(s, a);
    WakeupStep(s, a);
    SettledStep(s, a);
  }

  /** In every interleaving, every state keeps the invariant. */
  lemma {:induction false} RunsKeepInv(states: seq<State>, actions: seq<Action>, i: nat)
    requires IsRun(states, actions) && i < |states|
    ensures Inv(states[i])
  {
    if i > 0 {
      RunsKeepInv(states, actions, i - 1);
      assert Enabled(states[i - 1], actions[i - 1]) && states[i - 1 + 1] == Do(states[i - 1], actions[i - 1]);
      InvStep(states[i - 1], actions[i - 1]);
    }
  }

  predicate Distinct(xs: seq<Cmd>) {
    forall i, j :: 0 <= i < j < |xs| ==> xs[i] != xs[j]
  }

  /** No promise is set twice. */
  predicate SetOnce(rs: seq<Resolution>) {
    forall i, j :: 0 <= i < j < |rs| ==> rs[i].cmd != rs[j].cmd
  }

  predicate Lost(ran: Ran) {
    LosesConnection(ran.cmd.kind, ran.env)
  }

  function Reported(ran: Ran): Resolution {
    Resolution(ran.cmd, FirstError(Stages(ran.cmd.kind, ran.env)))
  }

  lemma CallsAreReports(ran: Ran)
    ensures Calls(ran) == if Lost(ran) then [] else [Reported(ran)]
  {}

  lemma ReportNamesCommand(ran: Ran)
    ensures Reported(ran).cmd == ran.cmd
  {}

  lemma ShorterIsDistinct(rs: seq<Ran>)
    requires rs != [] && Distinct(Commanded(rs))
    ensures Distinct(Commanded(rs[..|rs| - 1]))
    ensures rs[|rs| - 1].cmd !in Commanded(rs[..|rs| - 1])
  {
    var cs := Commanded(rs);
    assert Commanded(rs[..|rs| - 1]) == cs[..|rs| - 1];
    assert forall i :: 0 <= i < |rs| - 1 ==> cs[i] != cs[|rs| - 1];
  }

  /** Every promise set in `settled` was set by one of the runs. */
  ghost predicate FromRuns(rs: seq<Ran>, settled: seq<Resolution>) {
    forall r :: r in settled ==> exists i :: 0 <= i < |rs| && r in Calls(rs[i])
  }

  lemma {:induction false} LastIsNew(before: seq<Ran>, last: Ran, settled: seq<Resolution>)
    requires SetOnce(settled) && FromRuns(before, settled) && last.cmd !in Commanded(before)
    ensures SetOnce(settled + Calls(last))
  {
    hide Calls, Commanded;
    CallsAreReports(last);
    forall r | r in settled ensures r.cmd != last.cmd {
      var i :| 0 <= i < |before| && r in Calls(before[i]);
      CallsAreReports(before[i]);
      assert Commanded(before)[i] == r.cmd;
    }
  }

  /** Runs of distinct commands set distinct promises, each to the verdict of its run. */
  lemma {:induction false} ResolvedOnce(rs: seq<Ran>)
    requires Distinct(Commanded(rs))
    ensures SetOnce(Settled(rs))
    ensures FromRuns(rs, Settled(rs))
    ensures forall i, r :: 0 <= i < |rs| && r in Calls(rs[i]) ==> r in Settled(rs)
    decreases |rs|
  {
    hide Commanded, Calls;
    if rs != [] {
      var (n, last) := (|rs| - 1, rs[|rs| - 1]);
      var before := rs[..n];
      ShorterIsDistinct(rs);
      ResolvedOnce(before);
      assert Settled(rs) == Settled(before) + Calls(last);
      forall r | r in Settled(before) ensures exists i :: 0 <= i < |rs| && r in Calls(rs[i]) {
        var i :| 0 <= i < n && r in Calls(before[i]);
        assert before[i] == rs[i];
      }
      forall r | r in Calls(last) ensures exists i :: 0 <= i < |rs| && r in Calls(rs[i]) {
        assert r in Calls(rs[n]);
      }
      forall i, r | 0 <= i < |rs| && r in Calls(rs[i]) ensures r in Settled(rs) {
        if i < n {
          assert r in Calls(before[i]);
        }
      }
      LastIsNew(before, last, Settled(before));
    }
  }

  lemma ExecutedPrefix(s: State)
    requires Conserved(s) && Distinct(s.pushed)
    ensures |s.executed| <= |s.pushed| && Commanded(s.executed) == s.pushed[..|s.executed|]
    ensures Distinct(Commanded(s.executed))
  {
    hide Commanded;
    var cs := Commanded(s.executed);
    assert (cs + Taken(s) + s.queue)[..|cs|] == cs;
    forall p, q | 0 <= p < q < |cs| ensures cs[p] != cs[q] {
      assert cs[p] == s.pushed[p] && cs[q] == s.pushed[q];
    }
  }

  lemma SameCommand(rs: seq<Ran>, j: nat, k: nat)
    requires j < |rs| && k < |rs| && Distinct(Commanded(rs)) && j != k
    ensures rs[j].cmd != rs[k].cmd
  {
    var cs := Commanded(rs);
    assert if j < k then cs[j] != cs[k] else cs[k] != cs[j];
  }

  lemma LostStaysUnset(s: State, k: nat, r: Resolution)
    requires k < |s.executed| && Lost(s.executed[k]) && Distinct(Commanded(s.executed))
    requires exists j :: 0 <= j < |s.executed| && s.executed[j].cmd == r.cmd && !Lost(s.executed[j])
    ensures r.cmd != s.executed[k].cmd
  {
    hide Commanded, Lost;
    var j :| 0 <= j < |s.executed| && s.executed[j].cmd == r.cmd && !Lost(s.executed[j]);
    SameCommand(s.executed, j, k);
  }

  lemma PromisesOfRuns(s: State)
    requires Inv(s) && Distinct(s.pushed)
    ensures |s.executed| <= |s.pushed| && Commanded(s.executed) == s.pushed[..|s.executed|] && SetOnce(s.resolved)
    ensures forall r :: r in s.resolved ==>
              exists k :: 0 <= k < |s.executed| && s.executed[k].cmd == r.cmd && !Lost(s.executed[k])
    ensures forall k :: 0 <= k < |s.executed| && !Lost(s.executed[k]) ==> Reported(s.executed[k]) in s.resolved
    ensures forall k, r :: 0 <= k < |s.executed| && Lost(s.executed[k]) && r in s.resolved ==> r.cmd != s.executed[k].cmd
  {
    hide Commanded, Calls, Lost, Reported, Conserved, NoLostWakeup;
    ExecutedPrefix(s);
    var rs := s.executed;
    ResolvedOnce(rs);
    forall r | r in s.resolved ensures exists k :: 0 <= k < |rs| && rs[k].cmd == r.cmd && !Lost(rs[k]) {
      var k :| 0 <= k < |rs| && r in Calls(rs[k]);
      CallsAreReports(rs[k]);
      assert rs[k].cmd == r.cmd && !Lost(rs[k]) by { ReportNamesCommand(rs[k]); }
    }
    forall k | 0 <= k < |rs| && !Lost(rs[k]) ensures Reported(rs[k]) in s.resolved {
      CallsAreReports(rs[k]);
      assert Reported(rs[k]) in Calls(rs[k]);
    }
    forall k, r | 0 <= k < |rs| && Lost(rs[k]) && r in s.resolved ensures r.cmd != rs[k].cmd {
      LostStaysUnset(s, k, r);
    }
  }

  /**
   * FIFO and exactly once: what ran is a prefix of what was pushed, no promise is set twice, and a command that ran has
   * set its promise, to the first error it met, unless it lost a connection.
   */
  lemma CommandsRunOnceInOrder(states: seq<State>, actions: seq<Action>, i: nat)
    requires IsRun(states, actions) && i < |states| && Distinct(states[i].pushed)
    ensures var s := states[i];
            |s.executed| <= |s.pushed| && Commanded(s.executed) == s.pushed[..|s.executed|] && SetOnce(s.resolved)
    ensures var s := states[i];
            forall r :: r in s.resolved ==>
              exists k :: 0 <= k < |s.executed| && s.executed[k].cmd == r.cmd && !Lost(s.executed[k])
    ensures var s := states[i];
            forall k :: 0 <= k < |s.executed| && !Lost(s.executed[k]) ==> Reported(s.executed[k]) in s.resolved
    ensures var s := states[i];
            forall k, r :: 0 <= k < |s.executed| && Lost(s.executed[k]) && r in s.resolved ==> r.cmd != s.executed[k].cmd
  {
    RunsKeepInv(states, actions, i);
    PromisesOfRuns(states[i]);
  }

  /** The commands of the enqueuing steps among some actions. */
  function Submitted(actions: seq<Action>): (cmds: seq<Cmd>) {
    if actions == [] then []
    else
      var (n, last) := (|actions| - 1, actions[|actions| - 1]);
      Submitted(actions[..n]) + if last.Enqueue? then last.cmds else []
  }

  /** The push order is what the producers submitted, whole and in the order in which they got the mutex. */
  lemma {:induction false} PushedIsSubmitted(states: seq<State>, actions: seq<Action>, i: nat)
    requires IsRun(states, actions) && i < |states|
    ensures states[i].pushed == Submitted(actions[..i])
  {
    if i > 0 {
      PushedIsSubmitted(states, actions, i - 1);
      assert Enabled(states[i - 1], actions[i - 1]) && states[i - 1 + 1] == Do(states[i - 1], actions[i - 1]);
      assert actions[..i][..i - 1] == actions[..i - 1] && actions[..i][i - 1] == actions[i - 1];
    }
  }

  /** No state of the worker keeps a producer from submitting commands and from signalling them afterwards. */
  lemma ProducersAreNeverBlocked(s: State, p: nat, cmds: seq<Cmd>)
    requires p !in s.pending && cmds != []
    ensures Enabled(s, Enqueue(p, cmds)) && Enabled(Do(s, Enqueue(p, cmds)), Signal(p))
    ensures Do(Do(s, Enqueue(p, cmds)), Signal(p)).counter > 0
  {}

  /** With every push completed, a waiting worker with commands queued is not blocked. */
  lemma WaitingWorkerIsAwakened(states: seq<State>, actions: seq<Action>, i: nat)
    requires IsRun(states, actions) && i < |states|
    requires states[i].phase.Waiting? && states[i].pending == {} && states[i].queue != []
    ensures Enabled(states[i], WaitReturns(true))
  {
    RunsKeepInv(states, actions, i);
  }

  /** The worker's own next step, without time-outs and without errors; none when it is blocked or stopped. */
  predicate HasNext(s: State) {
    !s.phase.Stopped? && !(s.phase.Waiting? && s.counter == 0)
  }

  /** `world` says what the calls of each command will report. */
  function NextAction(s: State, world: Cmd -> Outcomes): (a: Action)
    requires HasNext(s)
    ensures Enabled(s, a)
  {
    match s.phase
    case Waiting => WaitReturns(true)
    case Returned(signalled) => if !signalled then BeginDrain else if s.counter > 0 then ReadSignal else StopReading
    case Draining(_) => if s.queue != [] then Extract else FindEmpty
    case Executing(taken) => if taken != [] then Execute(world(taken[0])) else EndTurn
  }

  /** How many steps the worker has left before it blocks. */
  function Remaining(s: State): (n: nat) {
    var (q, again) := (2 * |s.queue|, if s.counter > 0 then 8 else 0);
    match s.phase
    case Waiting => if s.counter > 0 then 6 + q else 0
    case Returned(signalled) => if signalled then (if s.counter > 0 then 5 + q else 4 + q) else 3 + q + again
    case Draining(taken) => 2 + |taken| + q + again
    case Executing(taken) => 1 + |taken| + if s.counter > 0 then 7 + q else 0
    case Stopped => 0
  }

  lemma NextShrinks(s: State, world: Cmd -> Outcomes)
    requires HasNext(s)
    ensures Remaining(Do(s, NextAction(s, world))) < Remaining(s)
  {}

  /** The actions the worker takes by itself until it blocks. */
  function Alone(s: State, world: Cmd -> Outcomes): (actions: seq<Action>)
    decreases Remaining(s)
  {
    if !HasNext(s) then []
    else
      NextShrinks(s, world);
      [NextAction(s, world)] + Alone(Do(s, NextAction(s, world)), world)
  }

  predicate CanDo(s: State, actions: seq<Action>)
    decreases |actions|
  {
    actions == [] || (Enabled(s, actions[0]) && CanDo(Do(s, actions[0]), actions[1..]))
  }

  function DoAll(s: State, actions: seq<Action>): State
    requires CanDo(s, actions)
    decreases |actions|
  {
    if actions == [] then s else DoAll(Do(s, actions[0]), actions[1..])
  }

  lemma NextIsQuiet(s: State, world: Cmd -> Outcomes)
    requires HasNext(s)
    ensures var s1 := Do(s, NextAction(s, world));
            s1.pending == s.pending && s1.pushed == s.pushed && !s1.phase.Stopped?
  {}

  lemma AllDone(s: State)
    requires Inv(s) && s.pending == {} && s.phase.Waiting? && s.counter == 0
    ensures s.queue == [] && Commanded(s.executed) == s.pushed
  {
    assert Commanded(s.executed) + [] + [] == Commanded(s.executed);
  }

  /**
   * From any reachable state with all pushes completed, the worker alone runs every command and goes to sleep, whatever
   * the commands' calls report.
   */
  lemma {:induction false} WorkerCatchesUp(s: State, world: Cmd -> Outcomes)
    requires Inv(s) && s.pending == {} && !s.phase.Stopped?
    ensures CanDo(s, Alone(s, world))
    ensures var s' := DoAll(s, Alone(s, world));
            s'.phase.Waiting? && s'.counter == 0 && s'.queue == [] && s'.pushed == s.pushed &&
            Commanded(s'.executed) == s.pushed
    decreases Remaining(s)
  {
    hide Inv, Do, Enabled, Remaining;
    if HasNext(s) {
      var a := NextAction(s, world);
      var s1 := Do(s, a);
      NextShrinks(s, world);
      InvStep(s, a);
      NextIsQuiet(s, world);
      WorkerCatchesUp(s1, world);
      assert ([a] + Alone(s1, world))[1..] == Alone(s1, world);
    } else {
      AllDone(s);
    }
  }

  /** EventHandle as far as the filter looks: the eventfd carries a reserved tag. */
  datatype Event = Control | Ready(data: nat)

  function Others(es: seq<Event>): (r: seq<Event>)
    ensures |r| <= |es|
  {
    if es == [] then []
    else
      var (n, last) := (|es| - 1, es[|es| - 1]);
      Others(es[..n]) + if last.Control? then [] else [last]
  }

  /** How many of the first i events are the eventfd's. */
  function Controls(es: seq<Event>, i: nat): nat
    requires i <= |es|
  {
    multiset(es[..i])[Control]
  }

  /** Nothing but the eventfd's entries is gone, and every other event is as many places further up as went before it. */
  predicate Filtered(es: seq<Event>, kept: seq<Event>) {
    multiset(kept) == multiset(es)[Control := 0] &&
    forall i :: 0 <= i < |es| && es[i] != Control ==>
      0 <= i - Controls(es, i) < |kept| && kept[i - Controls(es, i)] == es[i]
  }

  lemma FilteredBag(es: seq<Event>, kept: seq<Event>, e: Event)
    requires multiset(kept) == multiset(es)[Control := 0]
    ensures multiset(kept + if e.Control? then [] else [e]) == multiset(es + [e])[Control := 0]
  {
    assert e.Control? ==> kept + [] == kept;
  }

  lemma ControlsStep(es: seq<Event>, e: Event)
    ensures forall i :: 0 <= i <= |es| ==> Controls(es + [e], i) == Controls(es, i)
    ensures Controls(es + [e], |es| + 1) == Controls(es, |es|) + if e.Control? then 1 else 0
  {
    var all := es + [e];
    forall i | 0 <= i <= |es| ensures Controls(all, i) == Controls(es, i) {
      assert all[..i] == es[..i];
    }
    assert es[..|es|] == es && all[..|es| + 1] == all;
  }

  lemma FilteredStep(es: seq<Event>, kept: seq<Event>, e: Event)
    requires Filtered(es, kept) && |kept| == |es| - Controls(es, |es|)
    ensures var (es', kept') := (es + [e], kept + if e.Control? then [] else [e]);
            Filtered(es', kept') && |kept'| == |es'| - Controls(es', |es'|)
  {
    hide Controls;
    FilteredBag(es, kept, e);
    ControlsStep(es, e);
    var (n, es', kept') := (|es|, es + [e], kept + if e.Control? then [] else [e]);
    forall i | 0 <= i <= n && es'[i] != Control
      ensures 0 <= i - Controls(es', i) < |kept'| && kept'[i - Controls(es', i)] == es'[i]
    {
      if i < n {
        assert es'[i] == es[i] && 0 <= i - Controls(es, i) < |kept|;
      }
    }
  }

  lemma NothingFiltered()
    ensures Filtered([], []) && Controls([], 0) == 0
  {
    assert multiset([])[Control := 0] == multiset([]) == multiset{};
  }

  /** The filter's specification is that and nothing else. */
  lemma {:induction false} OthersAreFiltered(es: seq<Event>)
    ensures Filtered(es, Others(es)) && |Others(es)| == |es| - Controls(es, |es|)
  {
    hide Filtered, Controls;
    NothingFiltered();
    if es != [] {
      var n := |es| - 1;
      OthersAreFiltered(es[..n]);
      FilteredStep(es[..n], Others(es[..n]), es[n]);
      assert es[..n] + [es[n]] == es;
    }
  }

  /** The end of wait: drops the eventfd's entries in place and keeps the others in order. */
  method FilterEvents(events: array<Event>, eventSz: nat) returns (valid: nat, signalled: bool)
    requires eventSz <= events.Length
    modifies events
    ensures valid <= eventSz && events[..valid] == Others(old(events[..eventSz]))
    ensures Filtered(old(events[..eventSz]), events[..valid])
    ensures events[eventSz..] == old(events[eventSz..])
    ensures signalled <==> Control in old(events[..eventSz])
  {
    valid, signalled := 0, false;
    ghost var given := events[..];
    for i := 0 to eventSz
      invariant valid <= i <= eventSz
      invariant events[..valid] == Others(given[..i])
      invariant events[i..] == given[i..]
      invariant signalled <==> Control in given[..i]
    {
      assert given[..i + 1] == given[..i] + [given[i]] && given[..i + 1][..i] == given[..i];
      assert events[i] == events[i..][0] == given[i];
      if events[i].Control? {
        signalled := true;
      } else {
        ghost var kept := events[..valid];
        events[valid] := events[i];
        valid := valid + 1;
        assert events[..valid] == kept + [given[i]];
      }
      assert events[i + 1..] == given[i..][1..];
    }
    assert given[..eventSz] == old(events[..eventSz]) && events[eventSz..] == given[eventSz..];
    OthersAreFiltered(given[..eventSz]);
  }
}
