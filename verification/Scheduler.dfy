/** The virtual CPU scheduler of the resource monitor: one step per message it receives. */
module Scheduler {

  const MAX_VMS := 16

  datatype Tid = Tid(no: nat, version: nat)

  const NIL := Tid(0, 0)

  datatype VmState = Runnable | Yielding | Blocked | Invalid

  datatype Context = Context(
    state: VmState, lastState: VmState, periodLen: nat, lastTick: nat, evtPending: bool,
    systemTask: bool, monitor: Tid, lastTid: Tid)

  /** The context that handles a hardware interrupt, and whether it lives on this processor. */
  datatype Handler = Handler(here: bool, idx: nat)

  datatype Config = Config(userBase: nat, timerBase: nat, cpu: nat, myself: Tid, idle: Tid, handlers: seq<Handler>) {
    predicate IsIrq(t: Tid) {
      t.no < userBase
    }

    function Timer(): Tid {
      Tid(timerBase + cpu, 1)
    }
  }

  datatype Message =
    | BlockedIpc(from: Tid, afrom: Tid, partnerVm: Tid)
    | Preemption(from: Tid, afrom: Tid, preempter: Tid, preempterVm: Tid)
    | Activation(from: Tid, afrom: Tid, activator: Tid, activatorVm: Tid, preempter: Tid, preempterVm: Tid)
    | YieldIpc(from: Tid, dest: Tid)
    | IrqAck(from: Tid, afrom: Tid)

  /** What is left to do once a message has been decoded. */
  datatype Action = Continue | Timer | Hwirq(no: nat) | Reschedule

  /** `running` is the thread the loop last replied to, NIL when it went idle. */
  datatype State = State(
    ctx: seq<Context>, num: nat, idx: nat, current: nat, scheduled: nat, ticks: nat, running: Tid)

  predicate Shape(s: State) {
    |s.ctx| == MAX_VMS && 0 < s.num <= MAX_VMS && s.idx < s.num && s.current < s.num && s.scheduled < s.num
  }

  predicate IsRunnable(s: State, i: nat)
    requires Shape(s) && i < s.num
  {
    s.ctx[i].state == Runnable
  }

  // ---------- Thread to context ----------

  function IndexFrom(s: State, tid: Tid, i: nat): (r: nat)
    requires Shape(s) && i <= s.num
    ensures r < s.num || r == MAX_VMS
    ensures r < MAX_VMS ==> i <= r < s.num && s.ctx[r].monitor == tid
    ensures forall j :: i <= j < s.num && j < r ==> s.ctx[j].monitor != tid
    decreases s.num - i
  {
    if i == s.num then MAX_VMS else if s.ctx[i].monitor == tid then i else IndexFrom(s, tid, i + 1)
  }

  function IndexOf(s: State, tid: Tid): (r: nat)
    requires Shape(s)
    ensures r < s.num || r == MAX_VMS
    ensures r < MAX_VMS ==> r < s.num && s.ctx[r].monitor == tid
    ensures forall j :: 0 <= j < s.num && j < r ==> s.ctx[j].monitor != tid
  {
    IndexFrom(s, tid, 0)
  }

  // ---------- The environment ----------

  /** The dispatched context is the one that sends. */
  predicate Speaks(s: State, vm: Tid)
    requires Shape(s)
  {
    s.running != NIL && vm == s.ctx[s.current].monitor
  }

  /** An interrupt the monitor has associated: the timer of this processor, or one with a handler. */
  predicate Arrives(c: Config, s: State, irq: Tid) {
    || irq == c.Timer()
    || (&& irq.no < c.timerBase && irq.no < |c.handlers|
        && c.handlers[irq.no].idx < (if c.handlers[irq.no].here then s.num else MAX_VMS))
  }

  /** What the ASSERTs of the loop ask of the kernel that delivers the messages. */
  predicate Enabled(c: Config, s: State, m: Message)
    requires Shape(s)
  {
    match m
    case BlockedIpc(from, afrom, partnerVm) =>
      Speaks(s, from) && afrom != NIL && IndexOf(s, partnerVm) < MAX_VMS
    case Preemption(from, afrom, preempter, preempterVm) =>
      if c.IsIrq(from) then
        && preempter != NIL && (preempter == s.running || preempter == c.myself || preempter == c.idle)
        && Arrives(c, s, from)
      else
        && Speaks(s, from) && afrom != NIL
        && if preempter == c.Timer() || c.IsIrq(preempter) then Arrives(c, s, preempter)
           else preempter == c.myself || IndexOf(s, preempterVm) < MAX_VMS
    case Activation(from, afrom, activator, activatorVm, preempter, preempterVm) =>
      && Speaks(s, activatorVm) && afrom != NIL && activator != NIL && IndexOf(s, from) < MAX_VMS
      && (preempter != NIL ==>
            var f, p := IndexOf(s, from), IndexOf(s, preempterVm);
            && p < MAX_VMS
            && if p == f then (if f == s.current then activator else afrom) == s.ctx[f].monitor
               else p == s.current || s.ctx[p].state == Blocked)
    case YieldIpc(from, _) => Speaks(s, from)
    case IrqAck(from, afrom) => Speaks(s, from) && afrom != NIL
  }

  // ---------- One message ----------

  function SetState(s: State, i: nat, st: VmState): (r: State)
    requires Shape(s) && i < s.num
    ensures Shape(r)
  {
    s.(ctx := s.ctx[i := s.ctx[i].(lastState := s.ctx[i].state, state := st)])
  }

  function SetLast(s: State, i: nat, tid: Tid): (r: State)
    requires Shape(s) && i < s.num
    ensures Shape(r)
  {
    s.(ctx := s.ctx[i := s.ctx[i].(lastTid := tid)])
  }

  function SwitchTo(s: State, i: nat): (r: State)
    requires Shape(s) && i < s.num
    ensures Shape(r)
  {
    s.(idx := i, current := i)
  }

  function OnBlocked(s: State, afrom: Tid, partnerVm: Tid): (r: (State, Action))
    requires Shape(s) && IndexOf(s, partnerVm) < MAX_VMS
    ensures Shape(r.0)
  {
    var s1 := SetLast(SetState(s, s.idx, Blocked), s.current, afrom);
    var p := IndexOf(s, partnerVm);
    if s1.ctx[p].state == Runnable then (SwitchTo(s1, p), Continue) else (s1, Reschedule)
  }

  /** Which interrupt, if any, a preemption stands for. */
  function Cause(c: Config, preempter: Tid): Action {
    if preempter == c.Timer() then Timer else if c.IsIrq(preempter) then Hwirq(preempter.no) else Continue
  }

  /** A send-only message made the context runnable while another one was current. */
  function Notified(s: State, f: nat, preempter: Tid): (r: State)
    requires Shape(s) && f < s.num
    ensures Shape(r)
  {
    var x := s.ctx[f];
    var y := if preempter == x.lastTid || x.systemTask then x
             else if preempter == x.monitor then x.(lastTid := x.monitor)
             else x.(evtPending := true);
    s.(ctx := s.ctx[f := y.(lastState := y.state, state := Runnable)])
  }

  function OnPreemption(c: Config, s: State, from: Tid, afrom: Tid, preempter: Tid, preempterVm: Tid): (r: (State, Action))
    requires Shape(s) && (c.IsIrq(from) || c.IsIrq(preempter) || preempter == c.Timer() || preempter == c.myself || IndexOf(s, preempterVm) < MAX_VMS)
    ensures Shape(r.0)
  {
    var s1 := if !c.IsIrq(from) then SetLast(s, s.current, afrom)
              else if preempter == s.running then SetLast(s, s.current, preempter) else s;
    var s2 := SetState(s1, s.idx, s1.ctx[s1.current].state);
    if c.IsIrq(from) then (s2, Cause(c, from))
    else if Cause(c, preempter) == Continue && preempter != c.myself then
      (Notified(s2, IndexOf(s, preempterVm), preempter), Continue)
    else (s2, Cause(c, preempter))
  }

  function OnActivation(s: State, m: Message): (r: (State, Action))
    requires Shape(s) && m.Activation? && IndexOf(s, m.from) < MAX_VMS
    requires m.preempter != NIL ==> IndexOf(s, m.preempterVm) < MAX_VMS
    ensures Shape(r.0)
  {
    var f, p := IndexOf(s, m.from), IndexOf(s, m.preempterVm);
    var s1 := SetLast(SetState(s, f, Runnable), f, m.afrom);
    var s2 := SetLast(SetState(s1, s.idx, Blocked), s.current, m.activator);
    var s3 := if m.preempter != NIL && p != f then SetLast(SetState(s2, p, Runnable), p, m.preempter) else s2;
    (SwitchTo(s3, f), Continue)
  }

  function OnYield(s: State, from: Tid, dest: Tid): (r: (State, Action))
    requires Shape(s)
    ensures Shape(r.0)
  {
    var s1 := SetLast(SetState(s, s.idx, Yielding), s.current, from);
    if dest == NIL || dest == s.ctx[s.current].monitor then (s1, Reschedule)
    else if IndexOf(s, dest) < MAX_VMS then (SwitchTo(s1, IndexOf(s, dest)), Continue)
    else (s1, Continue)
  }

  function Receive(c: Config, s: State, m: Message): (r: (State, Action))
    requires Shape(s) && Enabled(c, s, m)
    ensures Shape(r.0)
  {
    match m
    case BlockedIpc(from, afrom, partnerVm) => OnBlocked(s, afrom, partnerVm)
    case Preemption(from, afrom, preempter, preempterVm) => OnPreemption(c, s, from, afrom, preempter, preempterVm)
    case Activation(_, _, _, _, _, _) => OnActivation(s, m)
    case YieldIpc(from, dest) => OnYield(s, from, dest)
    case IrqAck(_, afrom) => (SetLast(s, s.current, afrom), Continue)
  }

  /** The virtual timer of one context, at the given tick. */
  function Deliver(x: Context, now: nat): Context {
    if x.systemTask || now - x.lastTick < x.periodLen then x
    else
      var y := x.(lastTick := now, evtPending := true);
      if x.state == Yielding then y.(lastState := Yielding, state := Runnable) else y
  }

  function Tick(s: State): (r: State)
    requires Shape(s)
    ensures Shape(r)
  {
    s.(ticks := s.ticks + 1,
       ctx := seq(MAX_VMS, i requires 0 <= i < MAX_VMS => if i < s.num then Deliver(s.ctx[i], s.ticks + 1) else s.ctx[i]))
  }

  function Interrupt(s: State, h: Handler): (r: State)
    requires Shape(s) && h.idx < (if h.here then s.num else MAX_VMS)
    ensures Shape(r)
  {
    var s1 := s.(ctx := s.ctx[h.idx := s.ctx[h.idx].(evtPending := true)]);
    if h.here && s1.ctx[h.idx].state != Blocked then SetState(s1, h.idx, Runnable).(idx := h.idx) else s1
  }

  // ---------- Round robin ----------

  /** Advance at most `n` places, stopping at a runnable context. */
  function Scan(s: State, at: nat, n: nat): (r: nat)
    requires Shape(s) && at < s.num
    ensures r < s.num
    decreases n
  {
    if n == 0 then at
    else
      var next := (at + 1) % s.num;
      if s.ctx[next].state == Runnable then next else Scan(s, next, n - 1)
  }

  function RoundRobin(s: State): (r: State)
    requires Shape(s)
    ensures Shape(r)
  {
    var r := Scan(s, s.scheduled, s.num);
    s.(scheduled := r, idx := r)
  }

  function Act(c: Config, s: State, a: Action): (r: State)
    requires Shape(s) && (a.Hwirq? ==> a.no < |c.handlers| && c.handlers[a.no].idx < if c.handlers[a.no].here then s.num else MAX_VMS)
    ensures Shape(r)
  {
    match a
    case Continue => s
    case Timer => RoundRobin(Tick(s))
    case Hwirq(no) => Interrupt(s, c.handlers[no])
    case Reschedule => RoundRobin(s)
  }

  function Dispatch(s: State): (r: State)
    requires Shape(s)
    ensures Shape(r)
  {
    var s1 := s.(current := s.idx);
    var x := s.ctx[s.idx];
    if x.state != Runnable then s1.(running := NIL)
    else if x.lastTid != x.monitor && x.evtPending && x.lastState != Blocked then
      s1.(running := x.monitor, ctx := s.ctx[s.idx := x.(evtPending := false)])
    else s1.(running := x.lastTid)
  }

  function Step(c: Config, s: State, m: Message): (r: State)
    requires Shape(s) && Enabled(c, s, m)
    ensures Shape(r)
  {
    var (s1, a) := Receive(c, s, m);
    Dispatch(Act(c, s1, a))
  }
}
