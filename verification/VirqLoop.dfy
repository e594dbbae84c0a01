/** The scheduler loop as it updates its virq structure in place. */
module VirqLoop {
  import opened Scheduler
  import ScheduleRuns

  /** A context slot nobody has registered. */
  const UNUSED := Context(Invalid, Invalid, 0, 0, false, false, NIL, NIL)

  /** A context as register_system_task sets it up. */
  function SystemTask(tid: Tid, st: VmState): Context {
    Context(st, Invalid, 0, 0, false, true, tid, tid)
  }

  class Virq {
    const config: Config
    const vctx: array<Context>
    var num: nat
    var currentIdx: nat
    // The context the `current` pointer refers to.
    var current: nat
    var scheduled: nat
    var ticks: nat
    // The thread replied to last.
    var running: Tid

    ghost predicate Valid()
      reads this, vctx
    {
      vctx.Length == MAX_VMS && Shape(Abs())
    }

    ghost function Abs(): State
      reads this, vctx
    {
      State(vctx[..], num, currentIdx, current, scheduled, ticks, running)
    }

    /** Boot: the root task is registered as running, sigma0 as blocked, and the root task is current. */
    constructor (c: Config, root: Tid, sigma0: Tid)
      requires root != NIL && sigma0 != NIL
      ensures Valid() && fresh(vctx) && config == c && ScheduleRuns.Initial(Abs())
      ensures vctx[0] == SystemTask(root, Runnable) && vctx[1] == SystemTask(sigma0, Blocked) && running == root
      ensures forall i :: 2 <= i < MAX_VMS ==> vctx[i] == UNUSED
    {
      config, num := c, 0;
      vctx := new Context[MAX_VMS](_ => UNUSED);
      currentIdx, current, scheduled, ticks, running := 0, 0, 0, 0, NIL;
      new;
      var first := RegisterSystemTask(root, Runnable);
      var second := RegisterSystemTask(sigma0, Blocked);
      running := vctx[current].monitor;
    }

    /** A new context behind the registered ones, while there is room. */
    method RegisterSystemTask(tid: Tid, st: VmState) returns (ok: bool)
      requires vctx.Length == MAX_VMS && num <= MAX_VMS
      modifies this`num, vctx
      ensures ok <==> old(num) < MAX_VMS
      ensures num == old(num) + if ok then 1 else 0
      ensures vctx[..] == if ok then old(vctx[..])[old(num) := SystemTask(tid, st)] else old(vctx[..])
    {
      if num == MAX_VMS {
        return false;
      }
      vctx[num] := SystemTask(tid, st);
      num := num + 1;
      ok := true;
    }

    method TidToVmIdx(tid: Tid) returns (r: nat)
      requires Valid()
      ensures r == IndexOf(Abs(), tid)
    {
      var idx := 0;
      while idx < num
        invariant idx <= num && IndexFrom(Abs(), tid, idx) == IndexOf(Abs(), tid)
      {
        if vctx[idx].monitor == tid {
          return idx;
        }
        idx := idx + 1;
      }
      return MAX_VMS;
    }

    method SetVmState(i: nat, st: VmState)
      requires Valid() && i < num
      modifies vctx
      ensures Valid() && Abs() == SetState(old(Abs()), i, st)
    {
      vctx[i] := vctx[i].(lastState := vctx[i].state, state := st);
      assert Abs().ctx == SetState(old(Abs()), i, st).ctx;
    }

    method SetLastTid(i: nat, tid: Tid)
      requires Valid() && i < num
      modifies vctx
      ensures Valid() && Abs() == SetLast(old(Abs()), i, tid)
    {
      vctx[i] := vctx[i].(lastTid := tid);
      assert Abs().ctx == SetLast(old(Abs()), i, tid).ctx;
    }

    method Handoff(i: nat)
      requires Valid() && i < num
      modifies this`currentIdx, this`current
      ensures Valid() && Abs() == SwitchTo(old(Abs()), i)
    {
      currentIdx := i;
      current := i;
    }

    method HandleBlocked(afrom: Tid, partnerVm: Tid) returns (a: Action)
      requires Valid() && IndexOf(Abs(), partnerVm) < MAX_VMS
      modifies this, vctx
      ensures Valid() && (Abs(), a) == OnBlocked(old(Abs()), afrom, partnerVm)
    {
      var p := TidToVmIdx(partnerVm);
      SetVmState(currentIdx, Blocked);
      SetLastTid(current, afrom);
      if vctx[p].state == Runnable {
        Handoff(p);
        return Continue;
      }
      return Reschedule;
    }

    method Notify(f: nat, preempter: Tid)
      requires Valid() && f < num
      modifies vctx
      ensures Valid() && Abs() == Notified(old(Abs()), f, preempter)
    {
      if preempter != vctx[f].lastTid && !vctx[f].systemTask {
        if preempter == vctx[f].monitor {
          vctx[f] := vctx[f].(lastTid := vctx[f].monitor);
        } else {
          vctx[f] := vctx[f].(evtPending := true);
        }
      }
      vctx[f] := vctx[f].(lastState := vctx[f].state, state := Runnable);
      assert Abs().ctx == Notified(old(Abs()), f, preempter).ctx;
    }

    method HandlePreemption(from: Tid, afrom: Tid, preempter: Tid, preempterVm: Tid) returns (a: Action)
      requires Valid()
      requires || config.IsIrq(from) || config.IsIrq(preempter) || preempter == config.Timer()
               || preempter == config.myself || IndexOf(Abs(), preempterVm) < MAX_VMS
      modifies this, vctx
      ensures Valid() && (Abs(), a) == OnPreemption(config, old(Abs()), from, afrom, preempter, preempterVm)
    {
      var f := TidToVmIdx(preempterVm);
      var cause := preempter;
      if config.IsIrq(from) {
        if preempter == running {
          SetLastTid(current, preempter);
        }
        cause := from;
      } else {
        SetLastTid(current, afrom);
      }
      SetVmState(currentIdx, vctx[current].state);
      if cause == config.Timer() {
        return Timer;
      } else if config.IsIrq(cause) {
        return Hwirq(cause.no);
      } else if cause != config.myself {
        Notify(f, cause);
      }
      return Continue;
    }

    method HandleActivation(m: Message) returns (a: Action)
      requires Valid() && m.Activation? && IndexOf(Abs(), m.from) < MAX_VMS
      requires m.preempter != NIL ==> IndexOf(Abs(), m.preempterVm) < MAX_VMS
      modifies this, vctx
      ensures Valid() && (Abs(), a) == OnActivation(old(Abs()), m)
    {
      var f := TidToVmIdx(m.from);
      var p := TidToVmIdx(m.preempterVm);
      SetVmState(f, Runnable);
      SetLastTid(f, m.afrom);
      SetVmState(currentIdx, Blocked);
      SetLastTid(current, m.activator);
      if m.preempter != NIL && p != f {
        SetVmState(p, Runnable);
        SetLastTid(p, m.preempter);
      }
      Handoff(f);
      return Continue;
    }

    method HandleYield(from: Tid, dest: Tid) returns (a: Action)
      requires Valid()
      modifies this, vctx
      ensures Valid() && (Abs(), a) == OnYield(old(Abs()), from, dest)
    {
      var idx := TidToVmIdx(dest);
      SetVmState(currentIdx, Yielding);
      SetLastTid(current, from);
      if dest == NIL || dest == vctx[current].monitor {
        return Reschedule;
      }
      if idx < MAX_VMS {
        Handoff(idx);
      }
      return Continue;
    }

    method HandleTimer()
      requires Valid()
      modifies this, vctx
      ensures Valid() && Abs() == Tick(old(Abs()))
    {
      ticks := ticks + 1;
      for i := 0 to num
        invariant ticks == old(ticks) + 1 && currentIdx == old(currentIdx) && current == old(current)
        invariant scheduled == old(scheduled) && running == old(running) && num == old(num)
        invariant forall j :: 0 <= j < MAX_VMS ==> vctx[j] == if j < i then Deliver(old(vctx[j]), ticks) else old(vctx[j])
      {
        if vctx[i].systemTask {
          continue;
        }
        if ticks - vctx[i].lastTick >= vctx[i].periodLen {
          vctx[i] := vctx[i].(lastTick := ticks, evtPending := true);
          if vctx[i].state == Yielding {
            vctx[i] := vctx[i].(lastState := vctx[i].state, state := Runnable);
          }
        }
      }
      assert Abs().ctx == Tick(old(Abs())).ctx;
    }

    method HandleHwirq(h: Handler)
      requires Valid() && h.idx < (if h.here then num else MAX_VMS)
      modifies this, vctx
      ensures Valid() && Abs() == Interrupt(old(Abs()), h)
    {
      vctx[h.idx] := vctx[h.idx].(evtPending := true);
      assert Abs().ctx == old(Abs()).ctx[h.idx := old(vctx[h.idx]).(evtPending := true)];
      if h.here && vctx[h.idx].state != Blocked {
        SetVmState(h.idx, Runnable);
        currentIdx := h.idx;
      }
    }

    method SelectNext()
      requires Valid()
      modifies this
      ensures Valid() && Abs() == RoundRobin(old(Abs()))
    {
      ghost var s := Abs();
      var i := 0;
      while i < num
        invariant i <= num && Valid() && Abs() == s.(scheduled := scheduled)
        invariant Scan(s, scheduled, num - i) == Scan(s, s.scheduled, num)
      {
        scheduled := (scheduled + 1) % num;
        if vctx[scheduled].state == Runnable {
          break;
        }
        i := i + 1;
      }
      currentIdx := scheduled;
    }

    method Resume()
      requires Valid()
      modifies this, vctx
      ensures Valid() && Abs() == Dispatch(old(Abs()))
    {
      current := currentIdx;
      var x := vctx[current];
      if x.state == Runnable {
        running := x.lastTid;
        if running != x.monitor && x.evtPending && x.lastState != Blocked {
          running := x.monitor;
          vctx[current] := x.(evtPending := false);
          assert Abs().ctx == Dispatch(old(Abs())).ctx;
        }
      } else {
        running := NIL;
      }
    }

    /** One turn of the loop. */
    method Handle(m: Message)
      requires Valid() && Enabled(config, Abs(), m)
      modifies this, vctx
      ensures Valid() && Abs() == Step(config, old(Abs()), m)
    {
      var a := Decode(m);
      match a {
        case Continue =>
        case Timer => HandleTimer(); SelectNext();
        case Hwirq(no) => HandleHwirq(config.handlers[no]);
        case Reschedule => SelectNext();
      }
      Resume();
    }

    method Decode(m: Message) returns (a: Action)
      requires Valid() && Enabled(config, Abs(), m)
      modifies this, vctx
      ensures Valid() && (Abs(), a) == Receive(config, old(Abs()), m)
    {
      match m {
        case BlockedIpc(_, afrom, partnerVm) => a := HandleBlocked(afrom, partnerVm);
        case Preemption(from, afrom, preempter, preempterVm) =>
          a := HandlePreemption(from, afrom, preempter, preempterVm);
        case Activation(_, _, _, _, _, _) => a := HandleActivation(m);
        case YieldIpc(from, dest) => a := HandleYield(from, dest);
        case IrqAck(_, afrom) => SetLastTid(current, afrom); a := Continue;
      }
    }
  }
}
