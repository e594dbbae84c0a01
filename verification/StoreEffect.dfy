/** With a write function that performs the store, the replacement has the effect of the guest's
    own instruction. */
module StoreEffect {
  import opened Amd64
  import opened DeviceStore
  import opened CallFrame
  import opened RewriteMeaning

  /** The argument is the address of a word the caller keeps on its stack. */
  predicate OnSlot(e: Machine, n: nat) {
    exists k :: 0 <= k < n && e.regs[RSI] == Slot(e, k)
  }

  /** After the call the first argument is stored at the second, in the guest's width, and nowhere else. */
  ghost predicate Wrote(e: Machine, after: Machine, wide: bool) {
    forall b: word :: Load(after, b) == if b == e.regs[RSI] then Narrow(e.regs[RDI], wide) else Load(e, b)
  }

  /** A write function that keeps the calling convention and performs the store, except onto the
      words its caller keeps on the stack. */
  ghost predicate Writes(callee: Machine -> Machine, wide: bool, n: nat) {
    Conforms(callee, n) && forall e: Machine :: !OnSlot(e, n) ==> Wrote(e, callee(e), wide)
  }

  function DeviceWrite(wide: bool, n: nat): Machine -> Machine {
    e => if OnSlot(e, n) then Return(e)
         else Return(e).(mem := e.mem[e.regs[RSI] := Narrow(e.regs[RDI], wide)])
  }

  /** There is such a function. */
  lemma DeviceWriteWrites(wide: bool, n: nat)
    ensures Writes(DeviceWrite(wide, n), wide, n)
  {
    forall e: Machine ensures Returns(e, DeviceWrite(wide, n)(e), n) {
      var after := DeviceWrite(wide, n)(e);
      forall k: nat | k < n ensures Load(after, Slot(e, k)) == Load(e, Slot(e, k)) {}
    }
  }

  lemma {:induction false} PopsMemory(rs: seq<reg>, at: int, m: Machine, step: Stepper, callee: Machine -> Machine)
    requires IsCpu(step, callee)
    ensures Run(PopPieces(rs), at, m, step).mem == m.mem
    decreases |rs|
  {
    if rs != [] {
      PopStep(rs, at, m, step, callee);
      PopsMemory(rs[1..], at + |PopBytes(rs[0])|, PopWord(m, rs[0]), step, callee);
    }
  }

  lemma {:induction false} EntryStack(saved: seq<reg>, at: int, m: Machine, mid: Machine, step: Stepper,
                                      callee: Machine -> Machine, target: word, next: int)
    requires IsCpu(step, callee) && BodyKeeps(Run(PushPieces(saved), at, m, step), mid)
    ensures Enter(mid, target, next).regs[RSP] == Down(m.regs[RSP], |saved| + 1)
  {
    PushesRegs(saved, at, m, step, callee);
    DownDown(m.regs[RSP], |saved|, 1);
  }

  lemma SlotIs(e: Machine, sp: word, n: nat, k: nat)
    requires e.regs[RSP] == Down(sp, n + 1) && k < n
    ensures Slot(e, k) == Down(sp, n - k)
  {
  }

  /** Off the pushed words, memory is the guest's with the one word stored. */
  ghost predicate Stored(n: nat, m: Machine, p: Machine, a: word, v: word) {
    p.regs == m.regs && forall b: word :: OffStack(n, m, b) ==> Load(p, b) == if b == a then v else Load(m, b)
  }

  lemma OffSlots(n: nat, m: Machine, e: Machine)
    requires e.regs[RSP] == Down(m.regs[RSP], n + 1) && OffStack(n, m, e.regs[RSI])
    ensures !OnSlot(e, n)
  {
    forall k | 0 <= k < n ensures e.regs[RSI] != Slot(e, k) {
      SlotIs(e, m.regs[RSP], n, k);
    }
  }

  lemma StoredFrom(n: nat, m: Machine, e: Machine, callee: Machine -> Machine, p: Machine, wide: bool)
    requires Writes(callee, wide, n) && p.regs == m.regs && p.mem == callee(e).mem
    requires e.regs[RSP] == Down(m.regs[RSP], n + 1) && OffStack(n, m, e.regs[RSI])
    requires forall b: word :: OffStack(n, m, b) ==> Load(e, b) == Load(m, b)
    ensures Stored(n, m, p, e.regs[RSI], Narrow(e.regs[RDI], wide))
  {
    OffSlots(n, m, e);
    assert Wrote(e, callee(e), wide);
  }

  /** What the write function finds when it is entered. */
  lemma {:induction false} EntryFinds(saved: seq<reg>, at: int, m: Machine, mid: Machine, e: Machine, step: Stepper,
                                      callee: Machine -> Machine, func: word, n: nat)
    requires IsCpu(step, callee) && BodyKeeps(Run(PushPieces(saved), at, m, step), mid) && e == Entry(mid, at, func, n)
    ensures e.regs[RSP] == Down(m.regs[RSP], |saved| + 1) && e.regs[RDI] == mid.regs[RDI] && e.regs[RSI] == mid.regs[RSI]
    ensures forall b: word :: OffStack(|saved|, m, b) ==> Load(e, b) == Load(m, b)
  {
    EntryStack(saved, at, m, mid, step, callee, Target(func, at, n), at + n + 5);
    forall b: word | OffStack(|saved|, m, b) ensures Load(e, b) == Load(m, b) {
      EntryElsewhere(saved, at, m, mid, e, step, callee, b);
    }
  }

  /** Framed code restores the registers, and the rest of its effect is the callee's. */
  lemma {:induction false} FrameEffect(body: seq<Piece>, at: int, func: word, saved: seq<reg>, m: Machine, step: Stepper,
                                       callee: Machine -> Machine, pushed: Machine, mid: Machine, p: Machine)
    requires IsCpu(step, callee) && Protects(saved) && Conforms(callee, |saved|)
    requires Run(PushPieces(saved), at, m, step) == pushed
    requires Run(body, at + |SaveBytes(saved)|, pushed, step) == mid && BodyKeeps(pushed, mid)
    requires p == Run(FramePieces(body, at, func, saved), at, m, step)
    ensures p.regs == m.regs && p.mem == callee(Entry(mid, at, func, Front(body, saved))).mem
  {
    var n := Front(body, saved);
    FrameOutcome(body, at, func, saved, m, step, callee, pushed, mid);
    FrameRunsCall(body, at, func, saved, m, step, callee, pushed, mid);
    PopsMemory(Reversed(saved), at + n + 5, callee(Entry(mid, at, func, n)), step, callee);
  }

  lemma {:induction false} FrameStores(body: seq<Piece>, at: int, func: word, saved: seq<reg>, m: Machine,
                                       step: Stepper, callee: Machine -> Machine,
                                       wide: bool, pushed: Machine, mid: Machine, p: Machine)
    requires IsCpu(step, callee) && Writes(callee, wide, |saved|) && Protects(saved)
    requires Run(PushPieces(saved), at, m, step) == pushed
    requires Run(body, at + |SaveBytes(saved)|, pushed, step) == mid && BodyKeeps(pushed, mid)
    requires p == Run(FramePieces(body, at, func, saved), at, m, step) && OffStack(|saved|, m, mid.regs[RSI])
    ensures Stored(|saved|, m, p, mid.regs[RSI], Narrow(mid.regs[RDI], wide))
  {
    var n := Front(body, saved);
    var e := Entry(mid, at, func, n);
    FrameEffect(body, at, func, saved, m, step, callee, pushed, mid, p);
    EntryFinds(saved, at, m, mid, e, step, callee, func, n);
    StoredFrom(|saved|, m, e, callee, p, wide);
  }

  lemma {:induction false} ReplacementStores(lea: Piece, op: Operand, rex: Rex, modrm: byte, at: int, func: word,
                                             saved: seq<reg>, m: Machine, step: Stepper,
                                             callee: Machine -> Machine, wide: bool)
    requires lea.what == Lea(RSI, op, true) && Protects(saved) && IsCpu(step, callee) && Writes(callee, wide, |saved|)
    requires OffStack(|saved|, m, ShuffledAddress(lea, op, rex, modrm, at, saved, m.regs))
    ensures Stored(|saved|, m, Run(FramePieces(ShuffleAround(lea, rex, modrm), at, func, saved), at, m, step),
                   ShuffledAddress(lea, op, rex, modrm, at, saved, m.regs),
                   Narrow(PushedRegs(saved, m.regs)[Ext(RegField(modrm), rex.r)], wide))
  {
    var body := ShuffleAround(lea, rex, modrm);
    var pushed := Run(PushPieces(saved), at, m, step);
    var mid := Run(body, at + |SaveBytes(saved)|, pushed, step);
    BodyOutcome(lea, op, rex, modrm, at, saved, m, step, callee, pushed, mid);
    FrameStores(body, at, func, saved, m, step, callee, wide, pushed, mid, Run(FramePieces(body, at, func, saved), at, m, step));
  }

  /** The guest's instruction itself stores the word. */
  lemma GuestStores(s: Site, m: Machine, callee: Machine -> Machine)
    requires IsStore(s)
    ensures Stored(|s.saved|, m, Exec(Store(Original(s).what, Source(s), s.rex.w), s.at + Length(s), m, callee),
                   GuestAddress(s, m.regs), Narrow(m.regs[Source(s)], s.rex.w))
  {
  }

  lemma {:induction false} SupportedStores(s: Site, m: Machine, step: Stepper, callee: Machine -> Machine)
    requires IsStore(s) && s.saved == SAVED && Supported(s) && IsCpu(step, callee) && Writes(callee, s.rex.w, |s.saved|)
    requires OffStack(|s.saved|, m, GuestAddress(s, m.regs))
    ensures Stored(|s.saved|, m, Run(NewPieces(s), s.at, m, step), GuestAddress(s, m.regs), Narrow(m.regs[Source(s)], s.rex.w))
  {
    SavedProtects();
    SupportedAgrees(s, m.regs);
    ReplacementStores(LeaPiece(s), EmittedOperand(s), s.rex, s.modrm, s.at, s.func, s.saved, m, step, callee, s.rex.w);
  }

  /** Two machines that stored the same word agree. */
  lemma StoredAgree(n: nat, m: Machine, p: Machine, q: Machine, a: word, v: word)
    requires Stored(n, m, p, a, v) && Stored(n, m, q, a, v)
    ensures p.regs == q.regs && forall b: word :: OffStack(n, m, b) ==> Load(p, b) == Load(q, b)
  {
  }

  /** The bytes written over a supported store decode to instructions that leave the registers and the
      memory off their stack as executing the store would. */
  lemma {:induction false} ReplacementActsLikeStore(s: Site, m: Machine, step: Stepper, callee: Machine -> Machine)
    requires IsStore(s) && s.saved == SAVED && Supported(s) && IsCpu(step, callee) && Writes(callee, s.rex.w, |s.saved|)
    requires OffStack(|s.saved|, m, GuestAddress(s, m.regs))
    ensures Disassemble(Decode, NewBytes(s)) == Some(NewPieces(s))
    ensures var p := Run(NewPieces(s), s.at, m, step);
      var q := Exec(Store(Original(s).what, Source(s), s.rex.w), s.at + Length(s), m, callee);
      p.regs == q.regs && forall b: word :: OffStack(|s.saved|, m, b) ==> Load(p, b) == Load(q, b)
  {
    NewBytesDecode(s);
    SupportedStores(s, m, step, callee);
    GuestStores(s, m, callee);
    StoredAgree(|s.saved|, m, Run(NewPieces(s), s.at, m, step),
                Exec(Store(Original(s).what, Source(s), s.rex.w), s.at + Length(s), m, callee),
                GuestAddress(s, m.regs), Narrow(m.regs[Source(s)], s.rex.w));
  }
}
