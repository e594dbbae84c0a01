/** The cross-processor lock of the resource monitor: its packed word and its protocol. */
module CpuLock {

  datatype Tid = Tid(no: nat, version: nat)

  const NIL := Tid(0, 0)
  const INVALID_PCPU := 0xFFFF_FFFF

  // ---------- The lock word: version in 7 bits, processor in 7, thread number in 18 ----------

  function Pack(t: Tid, pcpu: nat): (w: nat)
    ensures w < 0x1_0000_0000
  {
    t.version % 128 + 128 * (pcpu % 128) + 16384 * (t.no % 0x4_0000)
  }

  function OwnerOf(w: nat): Tid {
    Tid(w / 16384, w % 128)
  }

  function PcpuOf(w: nat): (p: nat)
    ensures p < 128
  {
    w / 128 % 128
  }

  const FREE := Pack(NIL, INVALID_PCPU)

  /** The thread and the processor fit their fields. */
  predicate Fits(t: Tid, pcpu: nat) {
    t.version < 128 && t.no < 0x4_0000 && pcpu < 128
  }

  lemma FieldsOf(v: nat, p: nat, n: nat)
    requires v < 128 && p < 128
    ensures var w := v + 128 * p + 16384 * n; w % 128 == v && w / 128 % 128 == p && w / 16384 == n
  {
    var w := v + 128 * p + 16384 * n;
    assert w / 128 == p + 128 * n;
  }

  /** The word gives back the thread and the processor exactly when both fit. */
  lemma RoundTripIff(t: Tid, pcpu: nat)
    ensures OwnerOf(Pack(t, pcpu)) == t && PcpuOf(Pack(t, pcpu)) == pcpu <==> Fits(t, pcpu)
  {
    FieldsOf(t.version % 128, pcpu % 128, t.no % 0x4_0000);
  }

  /** The one combination whose word reads as a free lock. */
  predicate LooksFree(t: Tid, pcpu: nat) {
    t.no % 0x4_0000 == 0 && t.version % 128 == 0 && pcpu % 128 == 127
  }

  lemma FreeIff(t: Tid, pcpu: nat)
    ensures Pack(t, pcpu) == FREE <==> LooksFree(t, pcpu)
  {
    FieldsOf(t.version % 128, pcpu % 128, t.no % 0x4_0000);
    FieldsOf(0, 127, 0);
  }

  /** A free word is owned by the nil thread, on processor 127. */
  lemma FreeFields()
    ensures OwnerOf(FREE) == NIL && PcpuOf(FREE) == 127
  {
    FieldsOf(0, 127, 0);
  }

  /** The word after a compare-and-exchange of the free word for the thread's own. */
  function Exchanged(w: nat, t: Tid, pcpu: nat): nat {
    if w == FREE then Pack(t, pcpu) else w
  }

  // ---------- Any number of threads, any interleaving ----------

  /** Where a thread is: outside, about to exchange, waiting for a processor to let go, inside. */
  datatype Pc = Out | Trying | Spinning(pcpu: nat) | Inside(pcpu: nat)

  datatype State = State(word: nat, pc: map<Tid, Pc>)

  datatype Event = Enter(t: Tid) | Try(t: Tid, pcpu: nat) | Spin(t: Tid) | Leave(t: Tid)

  predicate Enabled(s: State, e: Event) {
    && e.t in s.pc
    && match e
       case Enter(t) => s.pc[t].Out?
       case Try(t, _) => s.pc[t].Trying?
       case Spin(t) => s.pc[t].Spinning?
       case Leave(t) => s.pc[t].Inside?
  }

  function Step(s: State, e: Event): State
    requires Enabled(s, e)
  {
    match e
    case Enter(t) => s.(pc := s.pc[t := Trying])
    case Try(t, pcpu) =>
      State(Exchanged(s.word, t, pcpu),
        if s.word == FREE then s.pc[t := Inside(pcpu)]
        else if PcpuOf(s.word) == pcpu then s.pc
        else s.pc[t := Spinning(PcpuOf(s.word))])
    case Spin(t) => if PcpuOf(s.word) == s.pc[t].pcpu then s else s.(pc := s.pc[t := Trying])
    case Leave(t) => State(FREE, s.pc[t := Out])
  }

  // ---------- The lock as it is updated ----------

  class Lock {
    var raw: nat

    constructor ()
      ensures raw == FREE
    {
      raw := FREE;
    }

    /** Compare and exchange against the free word; reports the previous owner either way. */
    method Trylock(t: Tid, pcpu: nat) returns (ok: bool, oldTid: Tid, oldPcpu: nat)
      modifies this
      ensures ok <==> old(raw) == FREE
      ensures raw == Exchanged(old(raw), t, pcpu)
      ensures oldTid == OwnerOf(old(raw)) && oldPcpu == PcpuOf(old(raw))
    {
      var was := raw;
      ok := was == FREE;
      if ok {
        raw := Pack(t, pcpu);
      }
      oldPcpu := PcpuOf(was);
      oldTid := OwnerOf(was);
    }

    method Release()
      modifies this
      ensures raw == FREE
    {
      raw := FREE;
    }

    /** One turn of the loop in `lock`: this is the step of the thread that attempts to enter. */
    method LockTurn(t: Tid, pcpu: nat, ghost s: State) returns (pc: Pc)
      requires s.word == raw && Enabled(s, Try(t, pcpu))
      modifies this
      ensures raw == Step(s, Try(t, pcpu)).word && pc == Step(s, Try(t, pcpu)).pc[t]
    {
      var ok, oldTid, oldPcpu := Trylock(t, pcpu);
      pc := if ok then Inside(pcpu) else if oldPcpu == pcpu then Trying else Spinning(oldPcpu);
    }

    /** One look of a waiting thread at the lock word. */
    method SpinTurn(t: Tid, ghost s: State, pcpu: nat) returns (pc: Pc)
      requires s.word == raw && Enabled(s, Spin(t)) && s.pc[t] == Spinning(pcpu)
      ensures pc == Step(s, Spin(t)).pc[t] && raw == Step(s, Spin(t)).word
    {
      pc := if PcpuOf(raw) == pcpu then Spinning(pcpu) else Trying;
    }

    method Unlock(t: Tid, ghost s: State) returns (pc: Pc)
      requires s.word == raw && Enabled(s, Leave(t))
      modifies this
      ensures raw == Step(s, Leave(t)).word && pc == Step(s, Leave(t)).pc[t]
    {
      Release();
      pc := Out;
    }

    /** The test compares a 7-bit field with a full word, so it holds of the free lock as well. */
    method IsLocked() returns (b: bool)
      ensures b
    {
      b := PcpuOf(raw) != INVALID_PCPU;
    }
  }

  // ---------- Every run ----------

  predicate IsInside(s: State, t: Tid) {
    t in s.pc && s.pc[t].Inside?
  }

  ghost predicate Exclusive(s: State) {
    forall t, u :: IsInside(s, t) && IsInside(s, u) ==> t == u
  }

  ghost predicate Inv(s: State) {
    && Exclusive(s)
    && (forall t :: IsInside(s, t) ==> s.word == Pack(t, s.pc[t].pcpu) != FREE)
    && ((forall t :: !IsInside(s, t)) ==> s.word == FREE)
  }

  predicate Initial(s: State) {
    s.word == FREE && forall t :: t in s.pc ==> s.pc[t].Out?
  }

  ghost predicate IsRun(ss: seq<State>, es: seq<Event>) {
    |ss| == |es| + 1 && Initial(ss[0]) && forall k :: 0 <= k < |es| ==> Enabled(ss[k], es[k]) && ss[k + 1] == Step(ss[k], es[k])
  }

  predicate Marked(e: Event) {
    e.Try? ==> !LooksFree(e.t, e.pcpu)
  }

  lemma StepKeepsInv(s: State, e: Event)
    requires Inv(s) && Enabled(s, e) && Marked(e)
    ensures Inv(Step(s, e))
  {
    var r := Step(s, e);
    if e.Try? { FreeIff(e.t, e.pcpu); }
    assert forall t :: t != e.t ==> IsInside(r, t) == IsInside(s, t);
    if e.Try? && s.word == FREE {
      assert IsInside(r, e.t);
    } else if e.Leave? {
      assert IsInside(s, e.t);
    } else {
      assert IsInside(r, e.t) == IsInside(s, e.t);
    }
  }

  /** In every run at most one thread is inside; the word is then not the free word and is that
      thread's, and outside of that it is free. */
  lemma {:induction false} MutualExclusion(ss: seq<State>, es: seq<Event>, k: nat)
    requires IsRun(ss, es) && k <= |es| && forall j :: 0 <= j < |es| ==> Marked(es[j])
    ensures Inv(ss[k])
  {
    if k > 0 {
      MutualExclusion(ss, es, k - 1);
      StepKeepsInv(ss[k - 1], es[k - 1]);
    }
  }

  /** While a thread is inside, the word decodes to it and to the processor it locked from. */
  lemma HeldWordDecodes(s: State, t: Tid)
    requires Inv(s) && IsInside(s, t) && Fits(t, s.pc[t].pcpu)
    ensures OwnerOf(s.word) == t && PcpuOf(s.word) == s.pc[t].pcpu && s.word != FREE
  {
    RoundTripIff(t, s.pc[t].pcpu);
  }

  /** A thread whose word reads as free lets the next one in beside it. */
  lemma LooksFreeBreaks(t: Tid, pcpu: nat, u: Tid, other: nat) returns (ss: seq<State>, es: seq<Event>)
    requires LooksFree(t, pcpu) && t != u
    ensures IsRun(ss, es) && (forall e :: e in es && e.Try? ==> e in {Try(t, pcpu), Try(u, other)})
    ensures !Exclusive(ss[|es|])
  {
    FreeIff(t, pcpu);
    var s0 := State(FREE, map[t := Out, u := Out]);
    es := [Enter(t), Enter(u), Try(t, pcpu), Try(u, other)];
    var s1 := Step(s0, es[0]);
    var s2 := Step(s1, es[1]);
    var s3 := Step(s2, es[2]);
    var s4 := Step(s3, es[3]);
    ss := [s0, s1, s2, s3, s4];
    assert IsInside(s4, t) && IsInside(s4, u);
  }

  /** The two threads exclude each other in every run exactly when neither word reads as free. */
  lemma ExclusionIff(t: Tid, pcpu: nat, u: Tid, other: nat)
    requires t != u
    ensures !LooksFree(t, pcpu) && !LooksFree(u, other) <==>
      forall ss: seq<State>, es: seq<Event> ::
        IsRun(ss, es) && (forall e :: e in es && e.Try? ==> e in {Try(t, pcpu), Try(u, other)}) ==> Exclusive(ss[|es|])
  {
    if LooksFree(t, pcpu) {
      var ss, es := LooksFreeBreaks(t, pcpu, u, other);
    } else if LooksFree(u, other) {
      var ss, es := LooksFreeBreaks(u, other, t, pcpu);
    } else {
      forall ss: seq<State>, es: seq<Event>
        | IsRun(ss, es) && forall e :: e in es && e.Try? ==> e in {Try(t, pcpu), Try(u, other)}
        ensures Exclusive(ss[|es|])
      {
        forall j | 0 <= j < |es| ensures Marked(es[j]) { assert es[j] in es; }
        MutualExclusion(ss, es, |es|);
      }
    }
  }

  /** A waiting thread notices that the lock was freed exactly when it does not wait for processor 127. */
  lemma FreedLockEndsSpinIff(s: State, t: Tid)
    requires t in s.pc && s.pc[t].Spinning? && s.word == FREE
    ensures Step(s, Spin(t)).pc[t] == Trying <==> s.pc[t].pcpu != 127
  {
    FreeFields();
  }
}
