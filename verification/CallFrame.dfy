/** Code that saves registers, runs a body, calls a function and restores the registers: whatever a
    conforming callee does, all sixteen registers come back. */
module CallFrame {
  import opened Amd64
  import opened DeviceStore

  // ---------- Saving and restoring registers ----------

  function PushPieces(rs: seq<reg>): seq<Piece> {
    if rs == [] then [] else [Piece(PushBytes(rs[0]), Push(rs[0]))] + PushPieces(rs[1..])
  }

  function PopPieces(rs: seq<reg>): seq<Piece> {
    if rs == [] then [] else [Piece(PopBytes(rs[0]), Pop(rs[0]))] + PopPieces(rs[1..])
  }

  lemma {:induction false} PushPiecesFaithful(rs: seq<reg>)
    ensures Faithful(Decode, PushPieces(rs))
  {
    if rs != [] {
      PushPiecesFaithful(rs[1..]);
      PushEncodes(rs[0]);
    }
  }

  lemma {:induction false} PopPiecesFaithful(rs: seq<reg>)
    ensures Faithful(Decode, PopPieces(rs))
  {
    if rs != [] {
      PopPiecesFaithful(rs[1..]);
      PopEncodes(rs[0]);
    }
  }

  /** The address k words below `sp`. */
  function Down(sp: int, k: int): word { (sp - 8 * k) % WORD }

  lemma {:induction false} DownDown(sp: int, j: int, k: int)
    ensures Down(Down(sp, j), k) == Down(sp, j + k)
    ensures -1000 < j - k < 1000 && j != k ==> Down(sp, j) != Down(sp, k)
  {
  }

  lemma {:induction false} PushWordEffect(m: Machine, v: word)
    ensures var p := PushWord(m, v);
      && p.regs == m.regs[RSP := Down(m.regs[RSP], 1)]
      && p.calls == m.calls
      && Load(p, Down(m.regs[RSP], 1)) == v
      && (forall a: word :: a != Down(m.regs[RSP], 1) ==> Load(p, a) == Load(m, a))
  {
  }

  /** One pushed register, then the rest. */
  lemma {:induction false} PushStep(rs: seq<reg>, at: int, m: Machine, step: Stepper, callee: Machine -> Machine)
    requires IsCpu(step, callee) && rs != []
    ensures Run(PushPieces(rs), at, m, step)
         == Run(PushPieces(rs[1..]), at + |PushBytes(rs[0])|, PushWord(m, m.regs[rs[0]]), step)
  {
    var ps := PushPieces(rs);
    assert ps[1..] == PushPieces(rs[1..]);
    assert At(Push(rs[0]), at + |ps[0].code|, m);
  }

  /** Pushing changes no register but rsp, and calls nothing. */
  lemma {:induction false} PushesRegs(rs: seq<reg>, at: int, m: Machine, step: Stepper, callee: Machine -> Machine)
    requires IsCpu(step, callee)
    ensures var p := Run(PushPieces(rs), at, m, step);
      p.regs == m.regs[RSP := Down(m.regs[RSP], |rs|)] && p.calls == m.calls
    decreases |rs|
  {
    if rs != [] {
      PushStep(rs, at, m, step, callee);
      PushWordEffect(m, m.regs[rs[0]]);
      PushesRegs(rs[1..], at + |PushBytes(rs[0])|, PushWord(m, m.regs[rs[0]]), step, callee);
      DownDown(m.regs[RSP], 1, |rs| - 1);
    }
  }

  /** Only the words just below rsp change. */
  lemma {:induction false} PushesElsewhere(rs: seq<reg>, at: int, m: Machine, step: Stepper,
                                           callee: Machine -> Machine, a: word)
    requires IsCpu(step, callee)
    requires forall k :: 1 <= k <= |rs| ==> a != Down(m.regs[RSP], k)
    ensures Load(Run(PushPieces(rs), at, m, step), a) == Load(m, a)
    decreases |rs|
  {
    if rs != [] {
      var sp := m.regs[RSP];
      var m1 := PushWord(m, m.regs[rs[0]]);
      PushStep(rs, at, m, step, callee);
      PushWordEffect(m, m.regs[rs[0]]);
      forall k | 1 <= k <= |rs| - 1 ensures a != Down(m1.regs[RSP], k) {
        DownDown(sp, 1, k);
        assert a != Down(sp, k + 1);
      }
      PushesElsewhere(rs[1..], at + |PushBytes(rs[0])|, m1, step, callee, a);
    }
  }

  /** The i-th register is saved i + 1 words below the old rsp. */
  lemma {:induction false} PushesSave(rs: seq<reg>, at: int, m: Machine, step: Stepper,
                                      callee: Machine -> Machine, i: nat)
    requires IsCpu(step, callee) && RSP !in rs && i < |rs| < 100
    ensures Load(Run(PushPieces(rs), at, m, step), Down(m.regs[RSP], i + 1)) == m.regs[rs[i]]
    decreases |rs|
  {
    var sp := m.regs[RSP];
    var m1 := PushWord(m, m.regs[rs[0]]);
    var at1 := at + |PushBytes(rs[0])|;
    PushStep(rs, at, m, step, callee);
    PushWordEffect(m, m.regs[rs[0]]);
    if i == 0 {
      forall k | 1 <= k <= |rs| - 1 ensures Down(sp, 1) != Down(m1.regs[RSP], k) {
        DownDown(sp, 1, k);
        DownDown(sp, 1, k + 1);
      }
      PushesElsewhere(rs[1..], at1, m1, step, callee, Down(sp, 1));
    } else {
      DownDown(sp, 1, i);
      PushesSave(rs[1..], at1, m1, step, callee, i - 1);
    }
  }

  lemma {:induction false} PopWordEffect(m: Machine, r: reg, sp: word, n: int)
    requires r != RSP && m.regs[RSP] == Down(sp, n)
    ensures var p := PopWord(m, r);
      && p.regs == m.regs[RSP := Down(sp, n - 1)][r := Load(m, Down(sp, n))]
      && p.mem == m.mem && p.calls == m.calls
  {
  }

  lemma {:induction false} PopStep(rs: seq<reg>, at: int, m: Machine, step: Stepper, callee: Machine -> Machine)
    requires IsCpu(step, callee) && rs != []
    ensures Run(PopPieces(rs), at, m, step)
         == Run(PopPieces(rs[1..]), at + |PopBytes(rs[0])|, PopWord(m, rs[0]), step)
  {
    var ps := PopPieces(rs);
    assert ps[1..] == PopPieces(rs[1..]);
    assert At(Pop(rs[0]), at + |ps[0].code|, m);
  }

  /** Popping |rs| words that lie just below `sp`: each register gets its own word, rsp returns to
      `sp`, and every other register keeps its value. */
  lemma {:induction false} PopsEffect(rs: seq<reg>, at: int, m: Machine, step: Stepper, callee: Machine -> Machine,
                                      sp: word, r: reg)
    requires IsCpu(step, callee) && RSP !in rs && m.regs[RSP] == Down(sp, |rs|)
    requires forall i, j :: 0 <= i < j < |rs| ==> rs[i] != rs[j]
    ensures var p := Run(PopPieces(rs), at, m, step);
      && p.regs[RSP] == sp && p.calls == m.calls
      && (r !in rs && r != RSP ==> p.regs[r] == m.regs[r])
      && (forall i :: 0 <= i < |rs| && rs[i] == r ==> p.regs[r] == Load(m, Down(sp, |rs| - i)))
    decreases |rs|
  {
    if rs != [] {
      PopStep(rs, at, m, step, callee);
      PopWordEffect(m, rs[0], sp, |rs|);
      var m1 := PopWord(m, rs[0]);
      PopsEffect(rs[1..], at + |PopBytes(rs[0])|, m1, step, callee, sp, r);
      var p := Run(PopPieces(rs), at, m, step);
      assert r in rs[1..] ==> r != rs[0];
      forall i | 0 <= i < |rs| && rs[i] == r ensures p.regs[r] == Load(m, Down(sp, |rs| - i)) {
        if i > 0 {
          assert rs[1..][i - 1] == r;
          assert Load(m1, Down(sp, |rs| - 1 - (i - 1))) == Load(m, Down(sp, |rs| - i));
        }
      }
    }
  }

  // ---------- Code framed by saves, a call and restores ----------

  lemma {:induction false} FlattenPushes(rs: seq<reg>)
    ensures Flatten(PushPieces(rs)) == SaveBytes(rs)
  {
    if rs != [] {
      FlattenPushes(rs[1..]);
      assert PushPieces(rs)[1..] == PushPieces(rs[1..]);
    }
  }

  lemma {:induction false} FlattenPops(rs: seq<reg>)
    ensures Flatten(PopPieces(rs)) == RestoreBytes(rs)
  {
    if rs != [] {
      FlattenPops(rs[1..]);
      assert PopPieces(rs)[1..] == PopPieces(rs[1..]);
    }
  }

  /** Displacement of the emitted call when `n` bytes precede it. */
  function Reach(func: word, at: int, n: nat): int {
    Signed32((func - (at + n + 5)) % 0x1_0000_0000)
  }

  function CallPiece(func: word, at: int, n: nat): Piece {
    Piece(CallBytes(func, at + n + 5), Call(Reach(func, at, n)))
  }

  /** Bytes before the framed call. */
  function Front(body: seq<Piece>, saved: seq<reg>): nat {
    |SaveBytes(saved)| + |Flatten(body)|
  }

  function FramePieces(body: seq<Piece>, at: int, func: word, saved: seq<reg>): seq<Piece> {
    PushPieces(saved) + body + [CallPiece(func, at, Front(body, saved))] + PopPieces(Reversed(saved))
  }

  lemma {:induction false} FrameFlattens(body: seq<Piece>, at: int, func: word, saved: seq<reg>)
    ensures Flatten(FramePieces(body, at, func, saved)) == Framed(Flatten(body), at, func, saved)
  {
    var front := PushPieces(saved) + body;
    var call := CallPiece(func, at, Front(body, saved));
    FlattenPushes(saved);
    FlattenPops(Reversed(saved));
    FlattenJoins(PushPieces(saved), body);
    FlattenJoins(front, [call]);
    FlattenJoins(front + [call], PopPieces(Reversed(saved)));
    FlattenTwo(call, call);
  }

  lemma {:induction false} FrameFaithful(body: seq<Piece>, at: int, func: word, saved: seq<reg>)
    requires Faithful(Decode, body)
    ensures Faithful(Decode, FramePieces(body, at, func, saved))
  {
    PushPiecesFaithful(saved);
    PopPiecesFaithful(Reversed(saved));
    CallEncodes(func, at + Front(body, saved) + 5);
  }

  lemma {:induction false} FrameDecodes(body: seq<Piece>, at: int, func: word, saved: seq<reg>)
    requires Faithful(Decode, body)
    ensures Disassemble(Decode, Framed(Flatten(body), at, func, saved)) == Some(FramePieces(body, at, func, saved))
  {
    FrameFaithful(body, at, func, saved);
    FrameFlattens(body, at, func, saved);
    Assembles(Decode, FramePieces(body, at, func, saved));
  }

  /** Where the framed call lands. */
  function Target(func: word, at: int, n: nat): word {
    (at + n + 5 + Reach(func, at, n)) % WORD
  }

  /** The machine when the callee is entered from `mid`. */
  function Entry(mid: Machine, at: int, func: word, n: nat): Machine {
    Enter(mid, Target(func, at, n), at + n + 5)
  }

  lemma {:induction false} CallRuns(func: word, at: int, n: nat, mid: Machine, step: Stepper, callee: Machine -> Machine)
    requires IsCpu(step, callee)
    ensures |CallPiece(func, at, n).code| == 5
    ensures step(CallPiece(func, at, n).what, at + n + 5, mid) == callee(Entry(mid, at, func, n))
  {
    assert At(CallPiece(func, at, n).what, at + n + 5, mid);
  }

  lemma {:induction false} FrameRunsTo(body: seq<Piece>, at: int, func: word, saved: seq<reg>, step: Stepper,
                                       m: Machine, pushed: Machine, mid: Machine, after: Machine)
    requires Run(PushPieces(saved), at, m, step) == pushed
    requires Run(body, at + |SaveBytes(saved)|, pushed, step) == mid
    requires |CallPiece(func, at, Front(body, saved)).code| == 5
    requires step(CallPiece(func, at, Front(body, saved)).what, at + Front(body, saved) + 5, mid) == after
    ensures Run(FramePieces(body, at, func, saved), at, m, step)
         == Run(PopPieces(Reversed(saved)), at + Front(body, saved) + 5, after, step)
  {
    FlattenPushes(saved);
    RunFour(PushPieces(saved), body, CallPiece(func, at, Front(body, saved)), PopPieces(Reversed(saved)), at, step,
            m, pushed, mid, after);
  }

  /** Between the pushes and the call the body may change only caller-saved registers. */
  ghost predicate BodyKeeps(pushed: Machine, mid: Machine) {
    && mid.mem == pushed.mem && mid.calls == pushed.calls
    && forall r: reg :: r == RSP || CalleeSaved(r) ==> mid.regs[r] == pushed.regs[r]
  }

  /** `saved` covers every register a callee may clobber. */
  ghost predicate Protects(saved: seq<reg>) {
    && RSP !in saved && |saved| < 16
    && (forall i, j :: 0 <= i < j < |saved| ==> saved[i] != saved[j])
    && (forall r: reg :: r != RSP && !CalleeSaved(r) ==> r in saved)
  }

  lemma {:induction false} SavedProtects()
    ensures Protects(SAVED)
  {
    forall r: reg | r != RSP && !CalleeSaved(r) ensures r in SAVED {
      assert SAVED[if r < 3 then r else r - 3] == r;
    }
  }

  /** Entering the callee leaves the saved words in place below the guest's stack pointer. */
  lemma {:induction false} EntryHoldsSaved(m: Machine, saved: seq<reg>, at: int, step: Stepper,
                                           callee: Machine -> Machine, mid: Machine, target: word, next: int, i: nat)
    requires IsCpu(step, callee) && Protects(saved) && i < |saved|
    requires BodyKeeps(Run(PushPieces(saved), at, m, step), mid)
    ensures var e := Enter(mid, target, next);
      Load(e, Down(m.regs[RSP], i + 1)) == m.regs[saved[i]] && e.regs[RSP] == Down(m.regs[RSP], |saved| + 1)
  {
    var sp := m.regs[RSP];
    PushesRegs(saved, at, m, step, callee);
    PushesSave(saved, at, m, step, callee, i);
    PushWordEffect(mid, next % WORD);
    DownDown(sp, |saved|, 1);
    DownDown(sp, |saved| + 1, i + 1);
  }

  /** What the callee hands back still holds a word it found above its return address. */
  lemma {:induction false} ReturnHoldsWord(sp: word, n: nat, e: Machine, after: Machine, i: nat)
    requires i < n < 16 && e.regs[RSP] == Down(sp, n + 1) && Returns(e, after, n)
    ensures Load(after, Down(sp, i + 1)) == Load(e, Down(sp, i + 1))
    ensures after.regs[RSP] == Down(sp, n)
  {
    var k: nat := n - 1 - i;
    assert Slot(e, k) == Down(e.regs[RSP], -(k + 1));
    DownDown(sp, n + 1, -(k + 1));
    DownDown(sp, n + 1, -1);
  }

  /** Every register is back at its original value after the restores. */
  lemma {:induction false} RestoresAll(m: Machine, saved: seq<reg>, at: int, step: Stepper,
                                       callee: Machine -> Machine, after: Machine, r: reg)
    requires IsCpu(step, callee) && Protects(saved) && after.regs[RSP] == Down(m.regs[RSP], |saved|)
    requires forall i :: 0 <= i < |saved| ==> Load(after, Down(m.regs[RSP], i + 1)) == m.regs[saved[i]]
    requires forall q: reg :: CalleeSaved(q) ==> after.regs[q] == m.regs[q]
    ensures var p := Run(PopPieces(Reversed(saved)), at, after, step);
      p.regs[r] == m.regs[r] && p.calls == after.calls
  {
    var rs := Reversed(saved);
    assert RSP !in rs;
    PopsEffect(rs, at, after, step, callee, m.regs[RSP], r);
    if r in saved {
      var i: nat :| i < |saved| && saved[i] == r;
      assert rs[|saved| - 1 - i] == r;
      assert |rs| - (|saved| - 1 - i) == i + 1;
    }
  }

  /** After the callee returns, the restores bring back all sixteen registers. */
  lemma {:induction false} FrameRestores(m: Machine, saved: seq<reg>, at: int, at': int, step: Stepper,
                                         callee: Machine -> Machine, mid: Machine, e: Machine, after: Machine)
    requires IsCpu(step, callee) && Protects(saved)
    requires BodyKeeps(Run(PushPieces(saved), at, m, step), mid)
    requires exists target, next :: e == Enter(mid, target, next)
    requires Returns(e, after, |saved|)
    ensures var p := Run(PopPieces(Reversed(saved)), at', after, step);
      p.regs == m.regs && p.calls == e.calls
  {
    var sp := m.regs[RSP];
    var target, next :| e == Enter(mid, target, next);
    PushesRegs(saved, at, m, step, callee);
    forall i | 0 <= i < |saved| ensures Load(after, Down(sp, i + 1)) == m.regs[saved[i]] {
      EntryHoldsSaved(m, saved, at, step, callee, mid, target, next, i);
      ReturnHoldsWord(sp, |saved|, e, after, i);
    }
    assert RAX in saved && |saved| > 0;
    EntryHoldsSaved(m, saved, at, step, callee, mid, target, next, 0);
    ReturnHoldsWord(sp, |saved|, e, after, 0);
    forall q: reg | CalleeSaved(q) ensures after.regs[q] == m.regs[q] {
      assert after.regs[q] == e.regs[q] == mid.regs[q];
    }
    forall r: reg ensures Run(PopPieces(Reversed(saved)), at', after, step).regs[r] == m.regs[r] {
      RestoresAll(m, saved, at', step, callee, after, r);
    }
    RestoresAll(m, saved, at', step, callee, after, RAX);
  }

  /** The one call that leads from `m` to `p`. */
  function CallMade(m: Machine, p: Machine): (c: CallRecord)
    requires |p.calls| == |m.calls| + 1
  {
    p.calls[|m.calls|]
  }

  /** `a` is none of the words pushed below rsp: the saved registers and the return address. */
  predicate OffStack(n: nat, m: Machine, a: word) {
    forall k :: 1 <= k <= n + 1 ==> a != Down(m.regs[RSP], k)
  }

  /** `p` results from one call with the given target and arguments, memory outside the pushed words
      being that of `m` when the callee is entered, and has the registers of `m`. */
  ghost predicate CallsOnce(saved: seq<reg>, m: Machine, p: Machine, target: word, rdi: word, rsi: word) {
    && p.regs == m.regs
    && |p.calls| == |m.calls| + 1 && p.calls[..|m.calls|] == m.calls
    && var c := CallMade(m, p);
    && c.target == target && c.rdi == rdi && c.rsi == rsi
    && forall a: word :: OffStack(|saved|, m, a) ==> Peek(c.mem, a) == Load(m, a)
  }

  lemma {:induction false} EntryElsewhere(saved: seq<reg>, at: int, m: Machine, mid: Machine, e: Machine,
                                          step: Stepper, callee: Machine -> Machine, a: word)
    requires IsCpu(step, callee) && OffStack(|saved|, m, a)
    requires BodyKeeps(Run(PushPieces(saved), at, m, step), mid)
    requires exists target, next :: e == Enter(mid, target, next)
    ensures Load(e, a) == Load(m, a)
  {
    var target, next :| e == Enter(mid, target, next);
    PushesRegs(saved, at, m, step, callee);
    PushesElsewhere(saved, at, m, step, callee, a);
    PushWordEffect(mid, next % WORD);
    DownDown(m.regs[RSP], |saved|, 1);
    assert a != Down(m.regs[RSP], |saved| + 1);
  }

  /** Once the callee of a framed call returns, the call was made and nothing else changed. */
  lemma {:induction false} FrameCallsOnce(saved: seq<reg>, at: int, at': int, m: Machine, step: Stepper,
                                          callee: Machine -> Machine, mid: Machine, target: word, next: int)
    requires IsCpu(step, callee) && Protects(saved) && Conforms(callee, |saved|)
    requires BodyKeeps(Run(PushPieces(saved), at, m, step), mid)
    ensures CallsOnce(saved, m, Run(PopPieces(Reversed(saved)), at', callee(Enter(mid, target, next)), step),
                      target, mid.regs[RDI], mid.regs[RSI])
  {
    var e := Enter(mid, target, next);
    FrameRestores(m, saved, at, at', step, callee, mid, e, callee(e));
    PushesRegs(saved, at, m, step, callee);
    forall a: word | OffStack(|saved|, m, a) ensures Load(e, a) == Load(m, a) {
      EntryElsewhere(saved, at, m, mid, e, step, callee, a);
    }
  }

  lemma {:induction false} FrameRunsCall(body: seq<Piece>, at: int, func: word, saved: seq<reg>, m: Machine,
                                         step: Stepper, callee: Machine -> Machine, pushed: Machine, mid: Machine)
    requires IsCpu(step, callee)
    requires Run(PushPieces(saved), at, m, step) == pushed
    requires Run(body, at + |SaveBytes(saved)|, pushed, step) == mid
    ensures var n := Front(body, saved);
      Run(FramePieces(body, at, func, saved), at, m, step)
      == Run(PopPieces(Reversed(saved)), at + n + 5, callee(Entry(mid, at, func, n)), step)
  {
    var n := Front(body, saved);
    CallRuns(func, at, n, mid, step, callee);
    FrameRunsTo(body, at, func, saved, step, m, pushed, mid, callee(Entry(mid, at, func, n)));
  }

  /** Running framed code makes one call, with the rdi and rsi that the body computed. */
  lemma {:induction false} FrameOutcome(body: seq<Piece>, at: int, func: word, saved: seq<reg>, m: Machine,
                                        step: Stepper, callee: Machine -> Machine, pushed: Machine, mid: Machine)
    requires IsCpu(step, callee) && Protects(saved) && Conforms(callee, |saved|)
    requires Run(PushPieces(saved), at, m, step) == pushed
    requires Run(body, at + |SaveBytes(saved)|, pushed, step) == mid && BodyKeeps(pushed, mid)
    ensures CallsOnce(saved, m, Run(FramePieces(body, at, func, saved), at, m, step),
                      Target(func, at, Front(body, saved)), mid.regs[RDI], mid.regs[RSI])
  {
    var n := Front(body, saved);
    FrameRunsCall(body, at, func, saved, m, step, callee, pushed, mid);
    FrameCallsOnce(saved, at, at + n + 5, m, step, callee, mid, Target(func, at, n), at + n + 5);
  }
}
