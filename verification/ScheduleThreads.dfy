/** Which thread of a context the scheduler loop dispatches, and what becomes of pending events. */
module ScheduleThreads {
  import opened Scheduler
  import opened ScheduleRuns

  /** The message says something about the threads of context `i`: it was sent or preempted, is
      activated, reports its preemption, or gets a notification. */
  predicate Concerns(c: Config, s: State, m: Message, i: nat)
    requires Shape(s)
  {
    match m
    case Preemption(from, _, preempter, preempterVm) =>
      if c.IsIrq(from) then i == s.current && preempter == s.running
      else i == s.current || i == IndexOf(s, preempterVm)
    case Activation(from, _, _, _, preempter, preempterVm) =>
      i == s.current || i == IndexOf(s, from) || (preempter != NIL && i == IndexOf(s, preempterVm))
    case _ => i == s.current
  }

  /** The monitor stays, a pending event stays pending, and the recorded thread stays unless `moved`. */
  predicate Keeps(x: Context, y: Context, moved: bool) {
    y.monitor == x.monitor && (x.evtPending ==> y.evtPending) && (moved || y.lastTid == x.lastTid)
  }

  lemma {:induction false} ActivationKeeps(c: Config, s: State, m: Message, i: nat)
    requires Shape(s) && m.Activation? && Enabled(c, s, m) && i < s.num
    ensures Keeps(s.ctx[i], Receive(c, s, m).0.ctx[i], Concerns(c, s, m, i))
  {
    var f, p := IndexOf(s, m.from), IndexOf(s, m.preempterVm);
    var s1 := SetLast(SetState(s, f, Runnable), f, m.afrom);
    var s2 := SetLast(SetState(s1, s.idx, Blocked), s.current, m.activator);
    MarkKeeps(s, f, Runnable, f, m.afrom, i);
    MarkKeeps(s1, s.idx, Blocked, s.current, m.activator, i);
    if m.preempter != NIL && p != f { MarkKeeps(s2, p, Runnable, p, m.preempter, i); }
  }

  lemma MarkKeeps(s: State, j: nat, st: VmState, k: nat, tid: Tid, i: nat)
    requires Shape(s) && i < s.num && j < s.num && k < s.num
    ensures Keeps(s.ctx[i], SetLast(SetState(s, j, st), k, tid).ctx[i], i == k)
  {
  }

  lemma {:induction false} PreemptionKeepsThreads(c: Config, s: State, m: Message, i: nat)
    requires Shape(s) && m.Preemption? && Enabled(c, s, m) && i < s.num
    ensures Keeps(s.ctx[i], Receive(c, s, m).0.ctx[i], Concerns(c, s, m, i))
  {
  }

  lemma {:induction false} ReceiveKeeps(c: Config, s: State, m: Message, i: nat)
    requires Shape(s) && Enabled(c, s, m) && i < s.num
    ensures Keeps(s.ctx[i], Receive(c, s, m).0.ctx[i], Concerns(c, s, m, i))
  {
    match m
    case Preemption(_, _, _, _) => PreemptionKeepsThreads(c, s, m, i);
    case Activation(_, _, _, _, _, _) => ActivationKeeps(c, s, m, i);
    case _ =>
  }

  lemma {:induction false} ActKeeps(c: Config, s: State, a: Action, i: nat)
    requires Shape(s) && ActionOk(c, s, a) && i < s.num
    ensures Act(c, s, a).num == s.num && Keeps(s.ctx[i], Act(c, s, a).ctx[i], false)
  {
  }

  /** Context `i` is current and its monitor was dispatched. */
  predicate MonitorRuns(s: State, i: nat) {
    i < |s.ctx| && s.idx == i && s.running == s.ctx[i].monitor
  }

  /** Dispatching consumes an event only by running the monitor. */
  lemma DispatchKeeps(s: State, i: nat)
    requires Shape(s) && i < s.num
    ensures var r := Dispatch(s);
      && r.num == s.num && r.ctx[i].monitor == s.ctx[i].monitor && r.ctx[i].lastTid == s.ctx[i].lastTid
      && (s.ctx[i].evtPending ==> r.ctx[i].evtPending || MonitorRuns(r, i))
      && (r.idx == i && r.running != NIL ==> r.running == r.ctx[i].lastTid || MonitorRuns(r, i))
  {
  }

  /** What one message does to the threads of a context. */
  predicate Threaded(s: State, t: State, moved: bool, i: nat) {
    && Shape(s) && Shape(t) && i < s.num == t.num
    && t.ctx[i].monitor == s.ctx[i].monitor
    && (moved || t.ctx[i].lastTid == s.ctx[i].lastTid)
    && (s.ctx[i].evtPending ==> t.ctx[i].evtPending || MonitorRuns(t, i))
    && (t.idx == i && t.running != NIL ==> t.running == t.ctx[i].lastTid || MonitorRuns(t, i))
  }

  lemma {:induction false} StepThreads(c: Config, s: State, m: Message, i: nat)
    requires Shape(s) && Enabled(c, s, m) && i < s.num
    ensures Threaded(s, Step(c, s, m), Concerns(c, s, m, i), i)
  {
    ReceiveFrame(c, s, m, i);
    ReceiveKeeps(c, s, m, i);
    var (s1, a) := Receive(c, s, m);
    ActKeeps(c, s1, a, i);
    DispatchKeeps(Act(c, s1, a), i);
  }

  /** The thread an interrupt preempts is recorded with its context. */
  lemma {:induction false} InterruptRecords(c: Config, s: State, m: Message)
    requires Shape(s) && m.Preemption? && Enabled(c, s, m) && c.IsIrq(m.from) && m.preempter == s.running
    ensures Step(c, s, m).ctx[s.current].lastTid == s.running
  {
    var (s1, a) := Receive(c, s, m);
    assert s1.ctx[s.current].lastTid == s.running;
    ReceiveFrame(c, s, m, s.current);
    ActKeeps(c, s1, a, s.current);
    DispatchKeeps(Act(c, s1, a), s.current);
  }

  // ---------- Over runs ----------

  lemma RunThreads(c: Config, ss: seq<State>, ms: seq<Message>, k: nat, i: nat)
    requires IsRun(c, ss, ms) && k < |ms| && Shape(ss[k]) && i < ss[k].num
    ensures Enabled(c, ss[k], ms[k]) && Threaded(ss[k], ss[k + 1], Concerns(c, ss[k], ms[k], i), i)
  {
    assert StepAt(c, ss, ms, k);
    StepThreads(c, ss[k], ms[k], i);
  }

  /** A pending event is lost in no run: once it is no longer pending, the monitor has run. */
  lemma {:induction false} EventsReachMonitor(c: Config, ss: seq<State>, ms: seq<Message>, i: nat, j: nat, k: nat) returns (l: nat)
    requires IsRun(c, ss, ms) && j < k <= |ms| && Shape(ss[j]) && i < ss[j].num && ss[j].ctx[i].evtPending
    requires |ss[k].ctx| == MAX_VMS && !ss[k].ctx[i].evtPending
    ensures j < l <= k && MonitorRuns(ss[l], i)
    decreases k - j
  {
    RunThreads(c, ss, ms, j, i);
    if MonitorRuns(ss[j + 1], i) { return j + 1; }
    l := EventsReachMonitor(c, ss, ms, i, j + 1, k);
  }

  /** No message between the two states concerns context `i`. */
  ghost predicate Quiet(c: Config, ss: seq<State>, ms: seq<Message>, i: nat, j: nat, k: nat)
    requires IsRun(c, ss, ms) && k <= |ms|
  {
    forall l :: j <= l < k ==> QuietAt(c, ss, ms, i, l)
  }

  ghost predicate QuietAt(c: Config, ss: seq<State>, ms: seq<Message>, i: nat, l: nat)
    requires IsRun(c, ss, ms) && l < |ms|
  {
    Shape(ss[l]) && !Concerns(c, ss[l], ms[l], i)
  }

  lemma {:induction false} ThreadKept(c: Config, ss: seq<State>, ms: seq<Message>, i: nat, j: nat, k: nat)
    requires IsRun(c, ss, ms) && j <= k <= |ms| && Shape(ss[j]) && i < ss[j].num && Quiet(c, ss, ms, i, j, k)
    ensures Shape(ss[k]) && ss[k].num == ss[j].num && ss[k].ctx[i].lastTid == ss[j].ctx[i].lastTid
    decreases k - j
  {
    if j < k {
      assert QuietAt(c, ss, ms, i, j);
      RunThreads(c, ss, ms, j, i);
      ThreadKept(c, ss, ms, i, j + 1, k);
    }
  }

  lemma {:induction false} RunRecords(c: Config, ss: seq<State>, ms: seq<Message>, j: nat)
    requires IsRun(c, ss, ms) && j < |ms| && Shape(ss[j])
    requires ms[j].Preemption? && c.IsIrq(ms[j].from) && ms[j].preempter == ss[j].running
    ensures Shape(ss[j + 1]) && ss[j + 1].num == ss[j].num && ss[j + 1].ctx[ss[j].current].lastTid == ss[j].running
  {
    RunThreads(c, ss, ms, j, ss[j].current);
    assert StepAt(c, ss, ms, j);
    InterruptRecords(c, ss[j], ms[j]);
  }

  lemma {:induction false} RunDispatches(c: Config, ss: seq<State>, ms: seq<Message>, k: nat, i: nat)
    requires IsRun(c, ss, ms) && k < |ms| && Shape(ss[k]) && i < ss[k].num
    ensures Shape(ss[k + 1])
    ensures ss[k + 1].idx == i && ss[k + 1].running != NIL ==>
      ss[k + 1].running == ss[k + 1].ctx[i].lastTid || MonitorRuns(ss[k + 1], i)
  {
    RunThreads(c, ss, ms, k, i);
  }

  /** A thread preempted by an interrupt is the one that runs when its context is next dispatched,
      however many other contexts ran in between, unless an event calls for its monitor first. */
  lemma {:induction false} PreemptedThreadResumes(c: Config, ss: seq<State>, ms: seq<Message>, j: nat, k: nat)
    requires IsRun(c, ss, ms) && j < k <= |ms| && Shape(ss[j])
    requires ms[j].Preemption? && c.IsIrq(ms[j].from) && ms[j].preempter == ss[j].running
    requires Quiet(c, ss, ms, ss[j].current, j + 1, k) && ss[k].idx == ss[j].current && ss[k].running != NIL
    ensures ss[k].running == ss[j].running || MonitorRuns(ss[k], ss[j].current)
  {
    var i := ss[j].current;
    RunRecords(c, ss, ms, j);
    ThreadKept(c, ss, ms, i, j + 1, k);
    if k > j + 1 { ThreadKept(c, ss, ms, i, j + 1, k - 1); }
    RunDispatches(c, ss, ms, k - 1, i);
  }
}
