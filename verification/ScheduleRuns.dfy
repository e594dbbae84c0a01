/** Properties of every run of the scheduler loop. */
module ScheduleRuns {
  import opened Scheduler

  // ---------- What holds between two messages ----------

  predicate NoneRunnable(s: State)
    requires Shape(s)
  {
    forall i :: 0 <= i < s.num ==> !IsRunnable(s, i)
  }

  /** The loop went idle only because nothing could run. */
  predicate IdleSafe(s: State)
    requires Shape(s)
  {
    s.running == NIL ==> NoneRunnable(s)
  }

  predicate Named(x: Context) {
    x.monitor != NIL && x.lastTid != NIL
  }

  predicate Threads(s: State)
    requires Shape(s)
  {
    forall i :: 0 <= i < s.num ==> Named(s.ctx[i])
  }

  ghost predicate Inv(s: State) {
    && Shape(s) && s.current == s.idx
    && (s.running != NIL <==> IsRunnable(s, s.idx))
    && IdleSafe(s)
    && Threads(s)
  }

  /** The monitor starts with the root task running and sigma0 blocked. */
  predicate Initial(s: State) {
    && Shape(s) && s.idx == s.current == s.scheduled == 0 && s.num == 2
    && s.ctx[0].state == Runnable && s.ctx[1].state == Blocked
    && Named(s.ctx[0]) && Named(s.ctx[1])
    && s.running == s.ctx[0].monitor
  }

  lemma {:induction false} InitialGood(s: State)
    requires Initial(s)
    ensures Inv(s)
  {
    assert IsRunnable(s, 0);
  }

  // ---------- Round robin ----------

  /** The place `d` steps after `at`, going round. */
  function Turn(at: nat, d: nat, n: nat): (r: nat)
    requires at < n && d <= n
    ensures r < n
  {
    if at + d < n then at + d else at + d - n
  }

  predicate Skipped(s: State, at: nat, d: nat)
    requires Shape(s) && at < s.num && d <= s.num
  {
    s.ctx[Turn(at, d, s.num)].state != Runnable
  }

  /** The scan stops `d` places on, at the first runnable context, or after all `n` places. */
  predicate StopsAfter(s: State, at: nat, n: nat, d: nat)
    requires Shape(s) && at < s.num && n <= s.num
  {
    && d <= n && Scan(s, at, n) == Turn(at, d, s.num)
    && (forall e :: 0 < e < d ==> Skipped(s, at, e))
    && ((0 < d && !Skipped(s, at, d)) || (d == n && (0 < d ==> Skipped(s, at, d))))
  }

  lemma NextPlace(at: nat, n: nat)
    requires at < n
    ensures (at + 1) % n == Turn(at, 1, n)
  {
  }

  lemma {:induction false} ScanStops(s: State, at: nat, n: nat) returns (d: nat)
    requires Shape(s) && at < s.num && n <= s.num
    ensures StopsAfter(s, at, n, d)
    decreases n
  {
    if n == 0 { return 0; }
    NextPlace(at, s.num);
    var next := Turn(at, 1, s.num);
    if s.ctx[next].state == Runnable { return 1; }
    var d' := ScanStops(s, next, n - 1);
    d := d' + 1;
    forall e | 0 < e < d ensures Skipped(s, at, e) {
      if e > 1 { assert Skipped(s, next, e - 1); }
    }
  }

  /** Round robin leaves a non-runnable context selected only if no context is runnable. */
  lemma {:induction false} ScanFindsRunnable(s: State, i: nat)
    requires Shape(s) && i < s.num && IsRunnable(s, i)
    ensures IsRunnable(s, Scan(s, s.scheduled, s.num))
  {
    var d := ScanStops(s, s.scheduled, s.num);
    AheadReaches(s, i);
    assert !Skipped(s, s.scheduled, Ahead(s, i));
  }

  /** How many places after the scheduled context `i` comes, counting a full turn for itself. */
  function Ahead(s: State, i: nat): (e: nat)
    requires Shape(s) && i < s.num
    ensures 0 < e <= s.num
  {
    if i > s.scheduled then i - s.scheduled else i + s.num - s.scheduled
  }

  lemma AheadReaches(s: State, i: nat)
    requires Shape(s) && i < s.num
    ensures Turn(s.scheduled, Ahead(s, i), s.num) == i
  {
  }

  // ---------- One step ----------

  predicate OthersIdle(s: State)
    requires Shape(s)
  {
    forall i :: 0 <= i < s.num && i != s.idx ==> !IsRunnable(s, i)
  }

  /** Exactly the messages after which the loop is not idle beside a runnable context. */
  predicate Sound(s: State, m: Message)
    requires Shape(s)
  {
    match m
    case YieldIpc(from, dest) =>
      || dest == NIL || dest == s.ctx[s.current].monitor || OthersIdle(s)
      || (IndexOf(s, dest) < MAX_VMS && IsRunnable(s, IndexOf(s, dest)))
    case Activation(from, _, _, _, preempter, preempterVm) =>
      IndexOf(s, from) != s.idx || (OthersIdle(s) && (preempter == NIL || IndexOf(s, preempterVm) == s.idx))
    case _ => true
  }

  /** What dispatching makes of a state with threads everywhere. */
  lemma {:induction false} DispatchGood(s: State)
    requires Shape(s) && Threads(s)
    ensures var r := Dispatch(s);
      && r.current == r.idx == s.idx && Threads(r)
      && (r.running != NIL <==> IsRunnable(r, r.idx))
      && (IdleSafe(r) <==> IsRunnable(s, s.idx) || NoneRunnable(s))
  {
    var r := Dispatch(s);
    assert Named(s.ctx[s.idx]);
    assert forall i :: 0 <= i < s.num ==> IsRunnable(r, i) == IsRunnable(s, i);
  }

  lemma {:induction false} RoundRobinGood(s: State)
    requires Shape(s)
    ensures var r := RoundRobin(s); IsRunnable(r, r.idx) || NoneRunnable(r)
  {
    var r := RoundRobin(s);
    if !NoneRunnable(r) {
      var i: nat :| i < s.num && IsRunnable(r, i);
      ScanFindsRunnable(s, i);
    }
  }

  lemma {:induction false} TickGood(s: State)
    requires Shape(s) && Threads(s)
    ensures Threads(Tick(s))
  {
    forall i | 0 <= i < s.num ensures Named(Tick(s).ctx[i]) {
      assert Named(s.ctx[i]);
    }
  }

  /** The context the loop is about to run can run, or none can. */
  predicate Ready(s: State)
    requires Shape(s)
  {
    IsRunnable(s, s.idx) || NoneRunnable(s)
  }

  lemma {:induction false} BlockedReady(c: Config, s: State, m: Message)
    requires Inv(s) && m.BlockedIpc? && Enabled(c, s, m)
    ensures var (s1, a) := Receive(c, s, m); Threads(s1) && Ready(Act(c, s1, a))
  {
    var (s1, a) := Receive(c, s, m);
    if a == Reschedule { RoundRobinGood(s1); }
  }

  lemma {:induction false} PreemptionKeeps(c: Config, s: State, m: Message)
    requires Inv(s) && m.Preemption? && Enabled(c, s, m)
    ensures var (s1, a) := Receive(c, s, m);
      && Threads(s1) && s1.idx == s.idx && a != Reschedule
      && (IsRunnable(s, s.idx) ==> IsRunnable(s1, s.idx))
      && (NoneRunnable(s) ==> NoneRunnable(s1))
  {
    var s1 := Receive(c, s, m).0;
    assert Named(s.ctx[s.idx]);
    if s.running == NIL {
      assert forall i :: 0 <= i < s.num ==> IsRunnable(s1, i) == IsRunnable(s, i);
    }
  }

  lemma {:induction false} InterruptReady(s: State, h: Handler)
    requires Shape(s) && Threads(s) && Ready(s) && h.idx < (if h.here then s.num else MAX_VMS)
    ensures Threads(Interrupt(s, h)) && Ready(Interrupt(s, h))
  {
    var r := Interrupt(s, h);
    if h.here && s.ctx[h.idx].state != Blocked {
      assert IsRunnable(r, r.idx);
    } else {
      assert forall i :: 0 <= i < s.num ==> IsRunnable(r, i) == IsRunnable(s, i);
    }
    forall i | 0 <= i < s.num ensures Named(r.ctx[i]) { assert Named(s.ctx[i]); }
  }

  lemma {:induction false} PreemptionReady(c: Config, s: State, m: Message)
    requires Inv(s) && m.Preemption? && Enabled(c, s, m)
    ensures var (s1, a) := Receive(c, s, m); Threads(Act(c, s1, a)) && Ready(Act(c, s1, a))
  {
    var (s1, a) := Receive(c, s, m);
    PreemptionKeeps(c, s, m);
    match a
    case Timer => RoundRobinGood(Tick(s1)); TickGood(s1);
    case Hwirq(no) => InterruptReady(s1, c.handlers[no]);
    case Continue =>
  }

  /** Which contexts an activation leaves runnable. */
  lemma {:induction false} ActivationStates(c: Config, s: State, m: Message, i: nat)
    requires Inv(s) && m.Activation? && Enabled(c, s, m) && i < s.num
    ensures var (s1, a) := Receive(c, s, m); var f := IndexOf(s, m.from);
      && a == Continue && s1.idx == f && Named(s1.ctx[i])
      && (IsRunnable(s1, i) <==>
            if m.preempter != NIL && i == IndexOf(s, m.preempterVm) != f then true
            else if i == s.idx then false else i == f || IsRunnable(s, i))
  {
    assert Named(s.ctx[i]);
  }

  lemma {:induction false} ActivationReady(c: Config, s: State, m: Message)
    requires Inv(s) && m.Activation? && Enabled(c, s, m)
    ensures var (s1, a) := Receive(c, s, m); a == Continue && Threads(s1) && (Ready(s1) <==> Sound(s, m))
  {
    var (s1, a) := Receive(c, s, m);
    forall i | 0 <= i < s.num ensures Named(s1.ctx[i]) { ActivationStates(c, s, m, i); }
    ActivationStates(c, s, m, s1.idx);
    if IndexOf(s, m.from) == s.idx {
      forall i | 0 <= i < s.num
        ensures IsRunnable(s1, i) <==> i != s.idx && (IsRunnable(s, i) || (m.preempter != NIL && i == IndexOf(s, m.preempterVm)))
      {
        ActivationStates(c, s, m, i);
      }
      if m.preempter != NIL && IndexOf(s, m.preempterVm) != s.idx {
        assert IsRunnable(s1, IndexOf(s, m.preempterVm));
      }
    }
  }

  lemma {:induction false} YieldStates(c: Config, s: State, m: Message, i: nat)
    requires Inv(s) && m.YieldIpc? && Enabled(c, s, m) && i < s.num
    ensures var s1 := Receive(c, s, m).0; Named(s1.ctx[i]) && (IsRunnable(s1, i) <==> i != s.idx && IsRunnable(s, i))
  {
    assert Named(s.ctx[i]);
  }

  lemma {:induction false} YieldReady(c: Config, s: State, m: Message)
    requires Inv(s) && m.YieldIpc? && Enabled(c, s, m)
    ensures var (s1, a) := Receive(c, s, m); Threads(s1) && !a.Hwirq? && !a.Timer? && (Ready(Act(c, s1, a)) <==> Sound(s, m))
  {
    var (s1, a) := Receive(c, s, m);
    forall i | 0 <= i < s.num ensures Named(s1.ctx[i]) && (IsRunnable(s1, i) <==> i != s.idx && IsRunnable(s, i)) {
      YieldStates(c, s, m, i);
    }
    if a == Reschedule { RoundRobinGood(s1); }
  }

  lemma {:induction false} ActReady(c: Config, s: State, m: Message)
    requires Inv(s) && Enabled(c, s, m)
    ensures var (s1, a) := Receive(c, s, m); Threads(Act(c, s1, a)) && (Ready(Act(c, s1, a)) <==> Sound(s, m))
  {
    match m
    case BlockedIpc(_, _, _) => BlockedReady(c, s, m);
    case Preemption(_, _, _, _) => PreemptionReady(c, s, m);
    case Activation(_, _, _, _, _, _) => ActivationReady(c, s, m);
    case YieldIpc(_, _) => YieldReady(c, s, m);
    case IrqAck(_, _) =>
  }

  /** The loop is idle beside a runnable context exactly after an unsound message. */
  lemma {:induction false} StepSafeIff(c: Config, s: State, m: Message)
    requires Inv(s) && Enabled(c, s, m)
    ensures IdleSafe(Step(c, s, m)) <==> Sound(s, m)
    ensures Sound(s, m) <==> Inv(Step(c, s, m))
  {
    ActReady(c, s, m);
    var (s1, a) := Receive(c, s, m);
    DispatchGood(Act(c, s1, a));
  }

  /** A yield to an unknown destination idles the processor although another context can run. */
  lemma YieldCanIdle() returns (c: Config, s: State, m: Message)
    ensures Inv(s) && Enabled(c, s, m) && m.YieldIpc? && !IdleSafe(Step(c, s, m))
  {
    var x := Context(Runnable, Invalid, 0, 0, false, true, Tid(90, 1), Tid(90, 1));
    var y := x.(monitor := Tid(91, 1), lastTid := Tid(91, 1));
    c := Config(64, 16, 0, Tid(80, 1), Tid(81, 1), []);
    s := State(seq(MAX_VMS, i => if i == 0 then x else y), 2, 0, 0, 0, 0, Tid(90, 1));
    m := YieldIpc(Tid(90, 1), Tid(99, 1));
    assert IsRunnable(s, 0) && IsRunnable(s, 1);
    StepSafeIff(c, s, m);
  }

  // ---------- Runs ----------

  ghost predicate StepsTo(c: Config, s: State, m: Message, t: State) {
    Shape(s) && Enabled(c, s, m) && t == Step(c, s, m)
  }

  ghost predicate IsRun(c: Config, ss: seq<State>, ms: seq<Message>) {
    |ss| == |ms| + 1 && forall k :: 0 <= k < |ms| ==> StepAt(c, ss, ms, k)
  }

  ghost predicate StepAt(c: Config, ss: seq<State>, ms: seq<Message>, k: nat)
    requires |ss| == |ms| + 1 && k < |ms|
  {
    StepsTo(c, ss[k], ms[k], ss[k + 1])
  }

  ghost predicate SoundRun(c: Config, ss: seq<State>, ms: seq<Message>) {
    IsRun(c, ss, ms) && forall k :: 0 <= k < |ms| ==> Shape(ss[k]) && Sound(ss[k], ms[k])
  }

  /** In every run the current context is the one at current_idx, below num_vms, it can run unless
      the loop is idle, and the loop is idle only when no registered context can run. */
  lemma {:induction false} RunsKeepInv(c: Config, ss: seq<State>, ms: seq<Message>, k: nat)
    requires SoundRun(c, ss, ms) && Inv(ss[0]) && k <= |ms|
    ensures Inv(ss[k])
  {
    if k > 0 {
      RunsKeepInv(c, ss, ms, k - 1);
      assert StepAt(c, ss, ms, k - 1);
      StepSafeIff(c, ss[k - 1], ms[k - 1]);
    }
  }

  /** What the loop asserts about its own state when a message arrives: a preempted or sending
      context is runnable, and it is the context at current_idx. */
  lemma {:induction false} AssertionsHold(c: Config, ss: seq<State>, ms: seq<Message>, k: nat)
    requires SoundRun(c, ss, ms) && Inv(ss[0]) && k < |ms|
    ensures Shape(ss[k]) && ss[k].current == ss[k].idx
    ensures (ms[k].Preemption? && c.IsIrq(ms[k].from) ==> ms[k].preempter == ss[k].running) ==> IsRunnable(ss[k], ss[k].current)
  {
    RunsKeepInv(c, ss, ms, k);
    assert StepAt(c, ss, ms, k);
  }

  lemma RunRest(c: Config, ss: seq<State>, ms: seq<Message>)
    requires IsRun(c, ss, ms) && ms != []
    ensures IsRun(c, ss[1..], ms[1..]) && StepsTo(c, ss[0], ms[0], ss[1])
  {
    assert StepAt(c, ss, ms, 0);
    forall k | 0 <= k < |ms[1..]| ensures StepAt(c, ss[1..], ms[1..], k) {
      assert StepAt(c, ss, ms, k + 1);
    }
  }

  // ---------- What receiving a message leaves alone ----------

  predicate ActionOk(c: Config, s: State, a: Action) {
    a.Hwirq? ==> a.no < |c.handlers| && c.handlers[a.no].idx < if c.handlers[a.no].here then s.num else MAX_VMS
  }

  predicate SameTimer(x: Context, y: Context) {
    y.lastTick == x.lastTick && y.periodLen == x.periodLen && y.systemTask == x.systemTask
  }

  /** The clock and the virtual timers are left alone, and a yielding context that does not send
      is at most made runnable. */
  predicate Framed(s: State, s1: State, i: nat)
    requires Shape(s) && Shape(s1) && i < s.num
  {
    && s1.num == s.num && s1.scheduled == s.scheduled && s1.ticks == s.ticks
    && SameTimer(s.ctx[i], s1.ctx[i])
    && (s.ctx[i].state == Yielding && s.current == s.idx && (i == s.idx ==> s.running == NIL) ==>
          s1.ctx[i].state in {Yielding, Runnable})
  }

  lemma MarkFrame(s: State, j: nat, st: VmState, k: nat, tid: Tid, i: nat)
    requires Shape(s) && i < s.num && j < s.num && k < s.num
    ensures var r := SetLast(SetState(s, j, st), k, tid);
      SameTimer(s.ctx[i], r.ctx[i]) && r.ctx[i].state == if i == j then st else s.ctx[i].state
  {
  }

  lemma {:induction false} BlockedFrame(c: Config, s: State, m: Message, i: nat)
    requires Shape(s) && m.BlockedIpc? && Enabled(c, s, m) && i < s.num
    ensures Framed(s, Receive(c, s, m).0, i)
  {
  }

  lemma {:induction false} PreemptionFrame(c: Config, s: State, m: Message, i: nat)
    requires Shape(s) && m.Preemption? && Enabled(c, s, m) && i < s.num
    ensures Framed(s, Receive(c, s, m).0, i)
  {
    if c.IsIrq(m.from) {
      RecordFrame(s, m.preempter, i);
    } else {
      RecordFrame(s, m.afrom, i);
      var s2 := SetState(SetLast(s, s.current, m.afrom), s.idx, s.ctx[s.current].state);
      if Cause(c, m.preempter) == Continue && m.preempter != c.myself {
        NotifiedFrame(s2, IndexOf(s, m.preempterVm), m.preempter, i);
      }
    }
  }

  lemma RecordFrame(s: State, tid: Tid, i: nat)
    requires Shape(s) && i < s.num
    ensures Framed(s, SetState(SetLast(s, s.current, tid), s.idx, s.ctx[s.current].state), i)
    ensures Framed(s, SetState(s, s.idx, s.ctx[s.current].state), i)
  {
  }

  lemma NotifiedFrame(s: State, f: nat, preempter: Tid, i: nat)
    requires Shape(s) && i < s.num && f < s.num
    ensures var r := Notified(s, f, preempter);
      SameTimer(s.ctx[i], r.ctx[i]) && r.ctx[i].state == if i == f then Runnable else s.ctx[i].state
  {
  }

  lemma {:induction false} ActivationFrame(c: Config, s: State, m: Message, i: nat)
    requires Shape(s) && m.Activation? && Enabled(c, s, m) && i < s.num
    ensures Framed(s, Receive(c, s, m).0, i)
  {
    var f, p := IndexOf(s, m.from), IndexOf(s, m.preempterVm);
    var s1 := SetLast(SetState(s, f, Runnable), f, m.afrom);
    var s2 := SetLast(SetState(s1, s.idx, Blocked), s.current, m.activator);
    MarkFrame(s, f, Runnable, f, m.afrom, i);
    MarkFrame(s1, s.idx, Blocked, s.current, m.activator, i);
    if m.preempter != NIL && p != f { MarkFrame(s2, p, Runnable, p, m.preempter, i); }
  }

  lemma {:induction false} YieldFrame(c: Config, s: State, m: Message, i: nat)
    requires Shape(s) && m.YieldIpc? && Enabled(c, s, m) && i < s.num
    ensures Framed(s, Receive(c, s, m).0, i)
  {
  }

  lemma {:induction false} ReceiveFrame(c: Config, s: State, m: Message, i: nat)
    requires Shape(s) && Enabled(c, s, m) && i < s.num
    ensures Framed(s, Receive(c, s, m).0, i) && ActionOk(c, s, Receive(c, s, m).1)
  {
    match m
    case BlockedIpc(_, _, _) => BlockedFrame(c, s, m, i);
    case Preemption(_, _, _, _) => PreemptionFrame(c, s, m, i);
    case Activation(_, _, _, _, _, _) => ActivationFrame(c, s, m, i);
    case YieldIpc(_, _) => YieldFrame(c, s, m, i);
    case IrqAck(_, _) =>
  }

  // ---------- Bounded waiting ----------

  predicate Rescheduling(c: Config, s: State, m: Message)
    requires Shape(s) && Enabled(c, s, m)
  {
    Receive(c, s, m).1 in {Timer, Reschedule}
  }

  ghost function Reschedules(c: Config, ss: seq<State>, ms: seq<Message>): nat
    requires IsRun(c, ss, ms)
  {
    if ms == [] then 0
    else
      RunRest(c, ss, ms);
      (if Rescheduling(c, ss[0], ms[0]) then 1 else 0) + Reschedules(c, ss[1..], ms[1..])
  }

  lemma RoundRobinAdvances(s: State, i: nat)
    requires Shape(s) && i < s.num && IsRunnable(s, i)
    ensures var r := RoundRobin(s); r.scheduled == r.idx == i || (r.scheduled == r.idx && Ahead(r, i) < Ahead(s, i))
  {
    var d := ScanStops(s, s.scheduled, s.num);
    var e := Ahead(s, i);
    AheadReaches(s, i);
    assert e < d ==> Skipped(s, s.scheduled, e);
  }

  lemma {:induction false} ActSchedules(c: Config, s: State, a: Action, i: nat)
    requires Shape(s) && ActionOk(c, s, a) && i < s.num && IsRunnable(Dispatch(Act(c, s, a)), i)
    ensures var t := Dispatch(Act(c, s, a));
      if a !in {Timer, Reschedule} then t.scheduled == s.scheduled
      else t.scheduled == t.idx && (t.idx == i || Ahead(t, i) < Ahead(s, i))
  {
    match a
    case Timer => RoundRobinAdvances(Tick(s), i);
    case Reschedule => RoundRobinAdvances(s, i);
    case _ =>
  }

  lemma {:induction false} StepSchedules(c: Config, s: State, m: Message, i: nat)
    requires Shape(s) && Enabled(c, s, m) && i < s.num
    requires Step(c, s, m).num == s.num ==> IsRunnable(Step(c, s, m), i)
    ensures var t := Step(c, s, m);
      && t.num == s.num
      && if !Rescheduling(c, s, m) then t.scheduled == s.scheduled
         else t.scheduled == t.idx && (t.idx == i || Ahead(t, i) < Ahead(s, i))
  {
    ReceiveFrame(c, s, m, i);
    var (s1, a) := Receive(c, s, m);
    ActSchedules(c, s1, a, i);
  }

  ghost predicate Selects(c: Config, ss: seq<State>, ms: seq<Message>, k: nat, i: nat)
    requires IsRun(c, ss, ms)
  {
    && k < |ms| && StepsTo(c, ss[k], ms[k], ss[k + 1]) && Rescheduling(c, ss[k], ms[k])
    && ss[k + 1].scheduled == ss[k + 1].idx == i
  }

  /** A context that stays runnable is selected within `Ahead` reschedules, so within num_vms. */
  lemma {:induction false} BoundedWaiting(c: Config, ss: seq<State>, ms: seq<Message>, i: nat) returns (k: nat)
    requires IsRun(c, ss, ms) && Shape(ss[0]) && i < ss[0].num
    requires forall j :: 0 <= j < |ss| ==> Shape(ss[j]) && (i < ss[j].num ==> IsRunnable(ss[j], i))
    requires Reschedules(c, ss, ms) >= Ahead(ss[0], i)
    ensures Selects(c, ss, ms, k, i)
    decreases |ms|
  {
    RunRest(c, ss, ms);
    ReceiveFrame(c, ss[0], ms[0], i);
    StepSchedules(c, ss[0], ms[0], i);
    if Rescheduling(c, ss[0], ms[0]) && ss[1].idx == i { return 0; }
    k := BoundedWaiting(c, ss[1..], ms[1..], i);
    k := k + 1;
  }

  // ---------- Virtual timer cadence ----------

  predicate Ticking(c: Config, s: State, m: Message)
    requires Shape(s) && Enabled(c, s, m)
  {
    Receive(c, s, m).1 == Timer
  }

  ghost function TimerMessages(c: Config, ss: seq<State>, ms: seq<Message>): nat
    requires IsRun(c, ss, ms)
  {
    if ms == [] then 0
    else
      RunRest(c, ss, ms);
      (if Ticking(c, ss[0], ms[0]) then 1 else 0) + TimerMessages(c, ss[1..], ms[1..])
  }

  /** Between the two states a virtual timer interrupt was delivered to context `i`. */
  predicate Delivers(s: State, t: State, i: nat) {
    i < |t.ctx| && s.ticks < t.ticks && t.ctx[i].lastTick == t.ticks
  }

  function Deliveries(ss: seq<State>, i: nat): nat {
    if |ss| <= 1 then 0 else (if Delivers(ss[0], ss[1], i) then 1 else 0) + Deliveries(ss[1..], i)
  }

  /** A period of zero delivers on every tick, like a period of one. */
  function Period(x: Context): (p: nat)
    ensures p > 0
  {
    if x.periodLen == 0 then 1 else x.periodLen
  }

  predicate Guest(s: State, i: nat) {
    Shape(s) && i < s.num && !s.ctx[i].systemTask && s.ctx[i].lastTick <= s.ticks
  }

  /** Ticks since the last delivery. */
  function Phase(s: State, i: nat): nat
    requires Guest(s, i)
  {
    s.ticks - s.ctx[i].lastTick
  }

  lemma {:induction false} ActTimes(c: Config, s: State, a: Action, i: nat)
    requires Guest(s, i) && ActionOk(c, s, a)
    ensures var t := Dispatch(Act(c, s, a));
      && t.num == s.num && Guest(t, i) && Period(t.ctx[i]) == Period(s.ctx[i])
      && Phase(t, i) == (if a != Timer then Phase(s, i) else if Phase(s, i) + 1 >= Period(s.ctx[i]) then 0 else Phase(s, i) + 1)
      && t.ticks == s.ticks + if a == Timer then 1 else 0
  {
    if a == Timer { TickTimes(s, i); }
  }

  lemma TickTimes(s: State, i: nat)
    requires Guest(s, i)
    ensures var t := Tick(s);
      && t.num == s.num && t.ticks == s.ticks + 1 && Guest(t, i) && Period(t.ctx[i]) == Period(s.ctx[i])
      && Phase(t, i) == if Phase(s, i) + 1 >= Period(s.ctx[i]) then 0 else Phase(s, i) + 1
  {
  }

  /** Only a timer message moves the clock; it delivers exactly when the period is over. */
  lemma {:induction false} StepTimes(c: Config, s: State, m: Message, i: nat)
    requires Guest(s, i) && Enabled(c, s, m)
    ensures var t := Step(c, s, m);
      && t.num == s.num && Guest(t, i) && Period(t.ctx[i]) == Period(s.ctx[i])
      && (Delivers(s, t, i) <==> Ticking(c, s, m) && Phase(s, i) + 1 >= Period(s.ctx[i]))
      && Phase(t, i) == if Delivers(s, t, i) then 0 else if Ticking(c, s, m) then Phase(s, i) + 1 else Phase(s, i)
  {
    ReceiveFrame(c, s, m, i);
    var (s1, a) := Receive(c, s, m);
    ActTimes(c, s1, a, i);
  }

  lemma QuotientIs(n: nat, p: nat, q: nat, r: nat)
    requires p > 0 && n == q * p + r && r < p
    ensures n / p == q && n % p == r
  {
    var d := n / p - q;
    assert d * p == r - n % p;
    assert d > 0 ==> d * p >= p;
    assert d < 0 ==> d * p <= 0 - p;
  }

  /** In `n` ticks there was one delivery every `p`, and the rest has passed since the last one. */
  predicate Paced(ss: seq<State>, i: nat, n: nat, p: nat)
    requires |ss| > 0
  {
    && Guest(ss[|ss| - 1], i) && Phase(ss[|ss| - 1], i) < p
    && n == Deliveries(ss, i) * p + Phase(ss[|ss| - 1], i)
  }

  /** The phase after one more message. */
  function NextPhase(p: nat, phase: nat, ticked: bool): nat {
    if !ticked then phase else if phase + 1 >= p then 0 else phase + 1
  }

  lemma {:induction false} PacedCons(ss: seq<State>, i: nat, p: nat, phase: nat, ticked: bool, rest: nat)
    requires |ss| > 1 && phase < p && Paced(ss[1..], i, NextPhase(p, phase, ticked) + rest, p)
    requires Delivers(ss[0], ss[1], i) <==> ticked && phase + 1 >= p
    ensures Paced(ss, i, phase + (if ticked then 1 else 0) + rest, p)
  {
    assert (1 + Deliveries(ss[1..], i)) * p == p + Deliveries(ss[1..], i) * p;
  }

  /** One message as the timer of a guest sees it. */
  predicate Beat(s: State, t: State, ticked: bool, i: nat, p: nat) {
    && Guest(s, i) && Guest(t, i) && Phase(t, i) == NextPhase(p, Phase(s, i), ticked)
    && (Delivers(s, t, i) <==> ticked && Phase(s, i) + 1 >= p)
  }

  predicate Beats(ss: seq<State>, ticked: seq<bool>, i: nat, p: nat) {
    |ss| == |ticked| + 1 && forall k :: 0 <= k < |ticked| ==> Beat(ss[k], ss[k + 1], ticked[k], i, p)
  }

  function Count(bs: seq<bool>): nat {
    if bs == [] then 0 else (if bs[0] then 1 else 0) + Count(bs[1..])
  }

  lemma {:induction false} BeatsPaced(ss: seq<State>, ticked: seq<bool>, i: nat, p: nat)
    requires Beats(ss, ticked, i, p) && Guest(ss[0], i) && Phase(ss[0], i) < p
    ensures Paced(ss, i, Phase(ss[0], i) + Count(ticked), p)
    decreases |ticked|
  {
    if ticked != [] {
      assert Beat(ss[0], ss[1], ticked[0], i, p);
      forall k | 0 <= k < |ticked[1..]| ensures Beat(ss[1..][k], ss[1..][k + 1], ticked[1..][k], i, p) {
        assert Beat(ss[k + 1], ss[k + 2], ticked[k + 1], i, p);
      }
      BeatsPaced(ss[1..], ticked[1..], i, p);
      PacedCons(ss, i, p, Phase(ss[0], i), ticked[0], Count(ticked[1..]));
    }
  }

  lemma BeatsCons(ss: seq<State>, ticked: seq<bool>, b: bool, i: nat, p: nat)
    requires |ss| > 1 && Beats(ss[1..], ticked, i, p) && Beat(ss[0], ss[1], b, i, p)
    ensures Beats(ss, [b] + ticked, i, p)
  {
    forall k | 0 <= k < |[b] + ticked| ensures Beat(ss[k], ss[k + 1], ([b] + ticked)[k], i, p) {
      if k > 0 { assert Beat(ss[1..][k - 1], ss[1..][k], ticked[k - 1], i, p); }
    }
  }

  lemma CountCons(b: bool, bs: seq<bool>)
    ensures Count([b] + bs) == (if b then 1 else 0) + Count(bs)
  {
    assert ([b] + bs)[1..] == bs;
  }

  lemma {:induction false} RunBeats(c: Config, ss: seq<State>, ms: seq<Message>, i: nat) returns (ticked: seq<bool>)
    requires IsRun(c, ss, ms) && Guest(ss[0], i)
    ensures Beats(ss, ticked, i, Period(ss[0].ctx[i])) && Count(ticked) == TimerMessages(c, ss, ms)
    decreases |ms|
  {
    if ms == [] { return []; }
    RunRest(c, ss, ms);
    StepTimes(c, ss[0], ms[0], i);
    var rest := RunBeats(c, ss[1..], ms[1..], i);
    var b := Ticking(c, ss[0], ms[0]);
    BeatsCons(ss, rest, b, i, Period(ss[0].ctx[i]));
    CountCons(b, rest);
    ticked := [b] + rest;
  }

  /** After any run, successive deliveries are exactly one period of timer messages apart. */
  lemma {:induction false} TimerCadence(c: Config, ss: seq<State>, ms: seq<Message>, i: nat)
    requires IsRun(c, ss, ms) && Guest(ss[0], i) && Phase(ss[0], i) < Period(ss[0].ctx[i])
    ensures Paced(ss, i, Phase(ss[0], i) + TimerMessages(c, ss, ms), Period(ss[0].ctx[i]))
  {
    var ticked := RunBeats(c, ss, ms, i);
    BeatsPaced(ss, ticked, i, Period(ss[0].ctx[i]));
  }

  /** Right after a delivery, `k` timer messages bring `k / period` more. */
  lemma {:induction false} DeliveriesAfterDelivery(c: Config, ss: seq<State>, ms: seq<Message>, i: nat)
    requires IsRun(c, ss, ms) && Guest(ss[0], i) && Phase(ss[0], i) == 0
    ensures Deliveries(ss, i) == TimerMessages(c, ss, ms) / Period(ss[0].ctx[i])
  {
    TimerCadence(c, ss, ms, i);
    QuotientIs(TimerMessages(c, ss, ms), Period(ss[0].ctx[i]), Deliveries(ss, i), Phase(ss[|ms|], i));
  }

  lemma {:induction false} ActYields(c: Config, s: State, a: Action, i: nat)
    requires Guest(s, i) && ActionOk(c, s, a) && s.ctx[i].state in {Yielding, Runnable}
    ensures var t := Dispatch(Act(c, s, a));
      && t.num == s.num && t.ctx[i].state in {Yielding, Runnable}
      && (a == Timer && Phase(s, i) + 1 >= Period(s.ctx[i]) ==> t.ctx[i].state == Runnable)
  {
  }

  lemma {:induction false} YieldStays(c: Config, s: State, m: Message, i: nat)
    requires Inv(s) && Guest(s, i) && Enabled(c, s, m) && s.ctx[i].state == Yielding
    ensures var t := Step(c, s, m);
      && t.num == s.num && t.ctx[i].state in {Yielding, Runnable}
      && (Ticking(c, s, m) && Phase(s, i) + 1 >= Period(s.ctx[i]) ==> t.ctx[i].state == Runnable)
  {
    ReceiveFrame(c, s, m, i);
    var (s1, a) := Receive(c, s, m);
    ActYields(c, s1, a, i);
  }

  /** Timer messages until the next delivery to context `i`. */
  function Due(s: State, i: nat): nat
    requires Guest(s, i)
  {
    if Phase(s, i) < Period(s.ctx[i]) then Period(s.ctx[i]) - Phase(s, i) else 1
  }

  /** A guest that yielded can run again after at most one period of timer messages. */
  lemma {:induction false} YieldEnds(c: Config, ss: seq<State>, ms: seq<Message>, i: nat) returns (k: nat)
    requires SoundRun(c, ss, ms) && Inv(ss[0]) && Guest(ss[0], i) && ss[0].ctx[i].state == Yielding
    requires TimerMessages(c, ss, ms) >= Due(ss[0], i)
    ensures k < |ss| && Inv(ss[k]) && i < ss[k].num && IsRunnable(ss[k], i)
    decreases |ms|
  {
    RunRest(c, ss, ms);
    StepSafeIff(c, ss[0], ms[0]);
    YieldStays(c, ss[0], ms[0], i);
    StepTimes(c, ss[0], ms[0], i);
    if ss[1].ctx[i].state == Runnable { return 1; }
    k := YieldEnds(c, ss[1..], ms[1..], i);
    k := k + 1;
  }
}
