/** The rewriter of device stores preserves meaning: exactly when the bytes written over a guest's
    `mov reg, mem` hand the value and the address of that store to the write function, and leave
    every register as the guest had it. */
module RewriteMeaning {
  import opened Amd64
  import opened DeviceStore
  import opened CallFrame

  /** A device store found at run-time address `at`, to be redirected to `func`. */
  datatype Site = Site(prefixed: bool, rex: Rex, modrm: byte, suf: seq<byte>, at: int, func: word, saved: seq<reg>)

  predicate IsStore(s: Site) {
    |s.suf| >= 6 && Mod(s.modrm) != 3 && (!s.prefixed ==> s.rex == NoRex)
  }

  function Original(s: Site): Decoded<Operand>
    requires IsStore(s)
  {
    DecodeOperand(s.rex, s.modrm, s.suf).value
  }

  function Source(s: Site): reg { Ext(RegField(s.modrm), s.rex.r) }

  /** Length of the guest's instruction. */
  function Length(s: Site): nat
    requires IsStore(s)
  {
    (if s.prefixed then 3 else 2) + Original(s).len
  }

  /** The bytes at the start of `code` as a rewriting site. */
  function SiteOf(code: seq<byte>, at: int, func: word, saved: seq<reg>): Site
    requires |code| >= 9
  {
    if IsRex(code[0]) then Site(true, RexOf(code[0]), code[2], code[3..9], at, func, saved)
    else Site(false, NoRex, code[1], code[2..8], at, func, saved)
  }

  /** The guest's instruction as the processor decodes it. */
  lemma SiteDecodes(code: seq<byte>, at: int, func: word, saved: seq<reg>)
    requires |code| >= 9 && (if IsRex(code[0]) then code[1] == 0x89 else code[0] == 0x89)
    requires IsStore(SiteOf(code, at, func, saved))
    ensures var s := SiteOf(code, at, func, saved);
      Decode(code) == Some(Decoded(Store(Original(s).what, Source(s), s.rex.w), Length(s)))
  {
    var s := SiteOf(code, at, func, saved);
    var c := if IsRex(code[0]) then code[1..] else code;
    OperandPrefix(s.rex, s.modrm, c[2..], s.suf);
  }

  /** Decoding an operand looks at no more than five bytes. */
  lemma OperandPrefix(rex: Rex, modrm: byte, c: seq<byte>, d: seq<byte>)
    requires Mod(modrm) != 3 && |c| >= 6 && d == c[..6]
    ensures DecodeOperand(rex, modrm, c) == DecodeOperand(rex, modrm, d)
  {
    var sib := HasSib(modrm);
    DispPrefix(DispSize(modrm, if sib then SibBase(c[0]) == 5 else Rm(modrm) == 5), if sib then c[1..] else c, if sib then d[1..] else d);
  }

  lemma DispPrefix(n: nat, c: seq<byte>, d: seq<byte>)
    requires (n == 0 || n == 1 || n == 4) && |d| >= 4 && d <= c
    ensures DecodeDisp(n, c) == DecodeDisp(n, d)
  {
    assert c[..4] == d[..4];
  }

  function NewBytes(s: Site): seq<byte>
    requires IsStore(s)
  {
    Replacement(s.rex, s.modrm, s.suf, s.at, s.func, s.saved)
  }

  // ---------- The instructions of the replacement ----------

  /** Bytes of stack in use when the operand address is computed. */
  function Off(s: Site): nat { 8 * |s.saved| }

  function EmittedOperand(s: Site): Operand
    requires IsStore(s)
  {
    LeaOperand(Original(s).what, s.modrm, s.suf, Off(s))
  }

  function LeaPiece(s: Site): Piece
    requires IsStore(s)
  {
    Piece(LeaBytes(RSI, s.modrm, s.suf, s.rex.b, Off(s)), Lea(RSI, EmittedOperand(s), true))
  }

  function MovPiece(src: int, high: bool, dst: int): Piece
    requires 0 <= src < 8 && 0 <= dst < 8
  {
    Piece(MovBytes(src, high, dst), MovReg(dst, Ext(src, high), true))
  }

  function ShuffleAround(lea: Piece, rex: Rex, modrm: byte): seq<Piece> {
    var src := Ext(RegField(modrm), rex.r);
    if src == RDI then [lea]
    else if src != RSI then [lea, MovPiece(RegField(modrm), rex.r, RDI)]
    else if Rm(modrm) == RDI then [MovPiece(RSI, false, RCX), lea, MovPiece(RCX, false, RDI)]
    else [MovPiece(RSI, false, RDI), lea]
  }

  function ShufflePieces(s: Site): seq<Piece>
    requires IsStore(s)
  {
    ShuffleAround(LeaPiece(s), s.rex, s.modrm)
  }

  function NewPieces(s: Site): seq<Piece>
    requires IsStore(s)
  {
    FramePieces(ShufflePieces(s), s.at, s.func, s.saved)
  }

  lemma {:induction false} FlattenShuffle(s: Site)
    requires IsStore(s)
    ensures Flatten(ShufflePieces(s)) == ShuffleBytes(s.rex, s.modrm, s.suf, Off(s))
  {
    var ps := ShufflePieces(s);
    if |ps| <= 2 {
      FlattenTwo(ps[0], if |ps| == 2 then ps[1] else ps[0]);
    } else {
      FlattenThree(ps[0], ps[1], ps[2]);
    }
  }

  lemma {:induction false} ShuffleEncodes(s: Site)
    requires IsStore(s)
    ensures Faithful(Decode, ShufflePieces(s))
  {
    LeaEncodes(s.rex, RSI, s.modrm, s.suf, Off(s), Original(s).what, Original(s).len);
    MovEncodes(RegField(s.modrm), s.rex.r, RDI);
    MovEncodes(RSI, false, RCX);
    MovEncodes(RCX, false, RDI);
    MovEncodes(RSI, false, RDI);
  }

  /** The written bytes decode to: the pushes, the shuffle, the call, the pops. */
  lemma {:induction false} NewBytesDecode(s: Site)
    requires IsStore(s)
    ensures Disassemble(Decode, NewBytes(s)) == Some(NewPieces(s))
  {
    ShuffleEncodes(s);
    FlattenShuffle(s);
    FrameDecodes(ShufflePieces(s), s.at, s.func, s.saved);
  }

  // ---------- What the replacement does ----------

  /** The registers when the `lea` runs, given those after the pushes. */
  function LeaRegs(rex: Rex, modrm: byte, regs: seq<word>): seq<word>
    requires |regs| == 16
  {
    if Ext(RegField(modrm), rex.r) != RSI then regs
    else if Rm(modrm) == RDI then regs[RCX := regs[RSI]]
    else regs[RDI := regs[RSI]]
  }

  /** Bytes of shuffle that precede the `lea`. */
  function BeforeLea(rex: Rex, modrm: byte): nat {
    if Ext(RegField(modrm), rex.r) == RSI then 3 else 0
  }

  // The four shapes of the shuffle, over an arbitrary operand.

  lemma {:induction false} LeaRuns(lea: Piece, op: Operand, at: int, m: Machine, step: Stepper,
                                   callee: Machine -> Machine)
    requires IsCpu(step, callee) && lea.what == Lea(RSI, op, true)
    ensures var mid := Run([lea], at, m, step);
      BodyKeeps(m, mid) && mid.regs == m.regs[RSI := Address(op, m.regs, at + |lea.code|)]
  {
    RunOne(lea, at, m, step);
    assert At(lea.what, at + |lea.code|, m);
  }

  lemma {:induction false} LeaMovRuns(lea: Piece, op: Operand, mov: Piece, src: reg, at: int, m: Machine,
                                      step: Stepper, callee: Machine -> Machine)
    requires IsCpu(step, callee) && lea.what == Lea(RSI, op, true) && mov.what == MovReg(RDI, src, true)
    requires src != RSI
    ensures var mid := Run([lea, mov], at, m, step);
      && BodyKeeps(m, mid)
      && mid.regs == m.regs[RSI := Address(op, m.regs, at + |lea.code|)][RDI := m.regs[src]]
  {
    RunTwo(lea, mov, at, m, step);
    var at1 := at + |lea.code|;
    assert At(lea.what, at1, m);
    assert At(mov.what, at1 + |mov.code|, step(lea.what, at1, m));
  }

  lemma {:induction false} MovLeaRuns(mov: Piece, lea: Piece, op: Operand, dst: reg, at: int, m: Machine,
                                      step: Stepper, callee: Machine -> Machine)
    requires IsCpu(step, callee) && lea.what == Lea(RSI, op, true) && mov.what == MovReg(dst, RSI, true)
    requires dst == RDI || dst == RCX
    ensures var mid := Run([mov, lea], at, m, step);
      var regs := m.regs[dst := m.regs[RSI]];
      BodyKeeps(m, mid) && mid.regs == regs[RSI := Address(op, regs, at + |mov.code| + |lea.code|)]
  {
    RunTwo(mov, lea, at, m, step);
    var at1 := at + |mov.code|;
    assert At(mov.what, at1, m);
    assert At(lea.what, at1 + |lea.code|, step(mov.what, at1, m));
  }

  lemma {:induction false} MovLeaMovRuns(mov: Piece, lea: Piece, op: Operand, mov': Piece, at: int, m: Machine,
                                         step: Stepper, callee: Machine -> Machine)
    requires IsCpu(step, callee) && lea.what == Lea(RSI, op, true)
    requires mov.what == MovReg(RCX, RSI, true) && mov'.what == MovReg(RDI, RCX, true)
    ensures var mid := Run([mov, lea, mov'], at, m, step);
      var regs := m.regs[RCX := m.regs[RSI]];
      && BodyKeeps(m, mid)
      && mid.regs == regs[RSI := Address(op, regs, at + |mov.code| + |lea.code|)][RDI := m.regs[RSI]]
  {
    MovLeaRuns(mov, lea, op, RCX, at, m, step, callee);
    RunTwo(mov, lea, at, m, step);
    RunThree(mov, lea, mov', at, m, step);
    assert At(mov'.what, at + |mov.code| + |lea.code| + |mov'.code|, Run([mov, lea], at, m, step));
  }

  /** The shuffle puts the source's value in rdi and the operand's address in rsi. */
  lemma {:induction false} ShuffleRuns(lea: Piece, op: Operand, rex: Rex, modrm: byte, at: int, m: Machine,
                                       step: Stepper, callee: Machine -> Machine)
    requires IsCpu(step, callee) && lea.what == Lea(RSI, op, true)
    ensures var mid := Run(ShuffleAround(lea, rex, modrm), at, m, step);
      && BodyKeeps(m, mid)
      && mid.regs[RDI] == m.regs[Ext(RegField(modrm), rex.r)]
      && mid.regs[RSI] == Address(op, LeaRegs(rex, modrm, m.regs), at + BeforeLea(rex, modrm) + |lea.code|)
  {
    var src := Ext(RegField(modrm), rex.r);
    if src == RDI {
      LeaRuns(lea, op, at, m, step, callee);
    } else if src != RSI {
      LeaMovRuns(lea, op, MovPiece(RegField(modrm), rex.r, RDI), src, at, m, step, callee);
    } else if Rm(modrm) == RDI {
      MovLeaMovRuns(MovPiece(RSI, false, RCX), lea, op, MovPiece(RCX, false, RDI), at, m, step, callee);
    } else {
      MovLeaRuns(MovPiece(RSI, false, RDI), lea, op, RDI, at, m, step, callee);
    }
  }

  /** Registers after the pushes. */
  function PushedRegs(saved: seq<reg>, regs: seq<word>): seq<word>
    requires |regs| == 16
  {
    regs[RSP := Down(regs[RSP], |saved|)]
  }

  /** The address that a shuffle around `lea` of `op` leaves in rsi. */
  function ShuffledAddress(lea: Piece, op: Operand, rex: Rex, modrm: byte, at: int, saved: seq<reg>, regs: seq<word>): word
    requires |regs| == 16
  {
    Address(op, LeaRegs(rex, modrm, PushedRegs(saved, regs)),
            at + |SaveBytes(saved)| + BeforeLea(rex, modrm) + |lea.code|)
  }

  /** What the replacement hands over as the address. */
  function EmittedAddress(s: Site, regs: seq<word>): word
    requires IsStore(s) && |regs| == 16
  {
    ShuffledAddress(LeaPiece(s), EmittedOperand(s), s.rex, s.modrm, s.at, s.saved, regs)
  }

  function CallTarget(s: Site): word
    requires IsStore(s)
  {
    Target(s.func, s.at, Front(ShufflePieces(s), s.saved))
  }

  lemma {:induction false} BodyOutcome(lea: Piece, op: Operand, rex: Rex, modrm: byte, at: int, saved: seq<reg>,
                                       m: Machine, step: Stepper, callee: Machine -> Machine,
                                       pushed: Machine, mid: Machine)
    requires IsCpu(step, callee) && lea.what == Lea(RSI, op, true)
    requires Run(PushPieces(saved), at, m, step) == pushed
    requires Run(ShuffleAround(lea, rex, modrm), at + |SaveBytes(saved)|, pushed, step) == mid
    ensures BodyKeeps(pushed, mid)
    ensures mid.regs[RDI] == PushedRegs(saved, m.regs)[Ext(RegField(modrm), rex.r)]
    ensures mid.regs[RSI] == ShuffledAddress(lea, op, rex, modrm, at, saved, m.regs)
  {
    PushesRegs(saved, at, m, step, callee);
    ShuffleRuns(lea, op, rex, modrm, at + |SaveBytes(saved)|, pushed, step, callee);
  }

  lemma {:induction false} OutcomeAround(lea: Piece, op: Operand, rex: Rex, modrm: byte, at: int, func: word,
                                         saved: seq<reg>, m: Machine, step: Stepper, callee: Machine -> Machine)
    requires lea.what == Lea(RSI, op, true)
    requires Protects(saved) && IsCpu(step, callee) && Conforms(callee, |saved|)
    ensures var body := ShuffleAround(lea, rex, modrm);
      CallsOnce(saved, m, Run(FramePieces(body, at, func, saved), at, m, step),
                Target(func, at, Front(body, saved)),
                PushedRegs(saved, m.regs)[Ext(RegField(modrm), rex.r)],
                ShuffledAddress(lea, op, rex, modrm, at, saved, m.regs))
  {
    var body := ShuffleAround(lea, rex, modrm);
    var pushed := Run(PushPieces(saved), at, m, step);
    var mid := Run(body, at + |SaveBytes(saved)|, pushed, step);
    BodyOutcome(lea, op, rex, modrm, at, saved, m, step, callee, pushed, mid);
    FrameOutcome(body, at, func, saved, m, step, callee, pushed, mid);
  }

  /** What running the replacement does, whatever the store and whatever the callee. */
  lemma {:induction false} Outcome(s: Site, m: Machine, step: Stepper, callee: Machine -> Machine)
    requires IsStore(s) && Protects(s.saved) && IsCpu(step, callee) && Conforms(callee, |s.saved|)
    ensures CallsOnce(s.saved, m, Run(NewPieces(s), s.at, m, step),
                      CallTarget(s), PushedRegs(s.saved, m.regs)[Source(s)], EmittedAddress(s, m.regs))
  {
    OutcomeAround(LeaPiece(s), EmittedOperand(s), s.rex, s.modrm, s.at, s.func, s.saved, m, step, callee);
  }

  // ---------- When the replacement means what the store meant ----------

  /** The emitted call reaches `func`: its distance fits a signed 32-bit displacement. */
  predicate InReach(s: Site)
    requires IsStore(s)
  {
    var d := (s.func - (s.at + Front(ShufflePieces(s), s.saved) + 5)) % WORD;
    d < 0x8000_0000 || d >= WORD - 0x8000_0000
  }

  /** The displacement still fits its field once the pushed bytes are added. */
  predicate DispFits(s: Site)
    requires IsStore(s)
  {
    match Mod(s.modrm)
    case 0 => true
    case 1 => Original(s).what.disp + Off(s) < 0x80
    case _ => Original(s).what.disp + Off(s) < 0x8000_0000
  }

  predicate SibSupported(s: Site)
    requires IsStore(s)
  {
    var sib := s.suf[0];
    && !s.rex.x
    && (SibBase(sib) == 4 ==> !s.rex.b && DispFits(s))
    && (Source(s) == RSI ==> SibIndex(sib) != RDI && (SibBase(sib) == RDI ==> s.rex.b))
  }

  /** The stores whose replacement preserves meaning, as a check on the instruction's bytes and on
      the distance to the write function. */
  predicate Supported(s: Site)
    requires IsStore(s)
  {
    && Source(s) != RSP
    && !(Mod(s.modrm) == 0 && Rm(s.modrm) == 5)
    && (HasSib(s.modrm) ==> SibSupported(s))
    && InReach(s)
  }

  /** The address the guest's store writes. */
  function GuestAddress(s: Site, regs: seq<word>): word
    requires IsStore(s) && |regs| == 16
  {
    Address(Original(s).what, regs, s.at + Length(s))
  }

  /** Over these registers the call gets the store's value and address. */
  predicate Agrees(s: Site, regs: seq<word>)
    requires IsStore(s) && |regs| == 16
  {
    && CallTarget(s) == s.func
    && PushedRegs(s.saved, regs)[Source(s)] == regs[Source(s)]
    && EmittedAddress(s, regs) == GuestAddress(s, regs)
  }

  lemma ReachesTarget(s: Site)
    requires IsStore(s)
    ensures CallTarget(s) == s.func <==> InReach(s)
  {
    var next := s.at + Front(ShufflePieces(s), s.saved) + 5;
    SignedDistance(s.func, next);
  }

  lemma LowBits(x: int)
    ensures x % 0x1_0000_0000 == (x % WORD) % 0x1_0000_0000
  {
    var q, d := x / WORD, x % WORD;
    RestIs(x, q * 0x1_0000_0000 + d / 0x1_0000_0000, d % 0x1_0000_0000);
  }

  lemma RestIs(x: int, q: int, r: int)
    requires x == q * 0x1_0000_0000 + r && 0 <= r < 0x1_0000_0000
    ensures x % 0x1_0000_0000 == r
  {
  }

  lemma SignedDistance(func: word, next: int)
    ensures var d := (func - next) % WORD;
      (next + Signed32((func - next) % 0x1_0000_0000)) % WORD == func <==> d < 0x8000_0000 || d >= WORD - 0x8000_0000
  {
    var d := (func - next) % WORD;
    var r := Signed32((func - next) % 0x1_0000_0000);
    LowBits(func - next);
    assert (next + r) % WORD == func <==> (d - r) % WORD == 0;
  }

  lemma {:induction false} IndexMatches(s: Site, regs: seq<word>)
    requires IsStore(s) && |regs| == 16 && (HasSib(s.modrm) ==> SibSupported(s))
    ensures IndexValue(EmittedOperand(s), LeaRegs(s.rex, s.modrm, PushedRegs(s.saved, regs)))
         == IndexValue(Original(s).what, regs)
  {
  }

  lemma {:induction false} StackBase(s: Site, regs: seq<word>)
    requires IsStore(s) && |regs| == 16 && |s.saved| < 16 && EspRelative(s.modrm, s.suf) && SibSupported(s)
    ensures Original(s).what.base == EmittedOperand(s).base == RegBase(RSP)
    ensures EmittedOperand(s).disp == Original(s).what.disp + Off(s)
    ensures LeaRegs(s.rex, s.modrm, PushedRegs(s.saved, regs))[RSP] == Down(regs[RSP], |s.saved|)
  {
    StackOperand(s);
    StackDisp(s);
  }

  lemma {:induction false} StackOperand(s: Site)
    requires IsStore(s) && EspRelative(s.modrm, s.suf) && SibSupported(s)
    ensures Original(s).what.base == EmittedOperand(s).base == RegBase(RSP)
  {
  }

  lemma {:induction false} StackDisp(s: Site)
    requires IsStore(s) && |s.saved| < 16 && EspRelative(s.modrm, s.suf) && SibSupported(s)
    ensures EmittedOperand(s).disp == Original(s).what.disp + Off(s)
  {
  }

  lemma {:induction false} PlainBase(s: Site, regs: seq<word>)
    requires IsStore(s) && |regs| == 16 && !EspRelative(s.modrm, s.suf) && (HasSib(s.modrm) ==> SibSupported(s))
    requires !(Mod(s.modrm) == 0 && Rm(s.modrm) == 5)
    ensures EmittedOperand(s).disp == Original(s).what.disp
    ensures var base := Original(s).what.base;
      && EmittedOperand(s).base == base != RipBase
      && (base.RegBase? ==> LeaRegs(s.rex, s.modrm, PushedRegs(s.saved, regs))[base.r] == regs[base.r])
  {
  }

  /** Base plus displacement agree up to one wrap of the address space. */
  lemma BaseMatches(s: Site, regs: seq<word>, next: int, next': int)
    requires IsStore(s) && |regs| == 16 && |s.saved| < 16 && (HasSib(s.modrm) ==> SibSupported(s))
    requires !(Mod(s.modrm) == 0 && Rm(s.modrm) == 5)
    ensures var op, op' := Original(s).what, EmittedOperand(s);
      var b := BaseValue(op.base, regs, next) + op.disp;
      var b' := BaseValue(op'.base, LeaRegs(s.rex, s.modrm, PushedRegs(s.saved, regs)), next') + op'.disp;
      b' == b || b' == b + WORD
  {
    if EspRelative(s.modrm, s.suf) {
      StackBase(s, regs);
    } else {
      PlainBase(s, regs);
    }
  }

  /** Operands whose sums differ by `delta` denote the same address just when `delta` is a multiple
      of the address space. */
  lemma AddressDelta(op: Operand, regs: seq<word>, next: int, op': Operand, regs': seq<word>, next': int, delta: int)
    requires |regs| == 16 && |regs'| == 16
    requires BaseValue(op'.base, regs', next') + op'.disp + IndexValue(op', regs')
          == BaseValue(op.base, regs, next) + op.disp + IndexValue(op, regs) + delta
    ensures Address(op, regs, next) == Address(op', regs', next') <==> delta % WORD == 0
  {
  }

  /** The address after the `lea`. */
  function LeaNext(s: Site): int
    requires IsStore(s)
  {
    s.at + |SaveBytes(s.saved)| + BeforeLea(s.rex, s.modrm) + |LeaPiece(s).code|
  }

  /** How far the emitted sum is from the guest's. */
  function Delta(s: Site, regs: seq<word>): int
    requires IsStore(s) && |regs| == 16
  {
    var op, op' := Original(s).what, EmittedOperand(s);
    var regs' := LeaRegs(s.rex, s.modrm, PushedRegs(s.saved, regs));
    BaseValue(op'.base, regs', LeaNext(s)) + op'.disp + IndexValue(op', regs')
    - BaseValue(op.base, regs, s.at + Length(s)) - op.disp - IndexValue(op, regs)
  }

  lemma DeltaDecides(s: Site, regs: seq<word>)
    requires IsStore(s) && |regs| == 16
    ensures EmittedAddress(s, regs) == GuestAddress(s, regs) <==> Delta(s, regs) % WORD == 0
  {
    AddressDelta(Original(s).what, regs, s.at + Length(s),
                 EmittedOperand(s), LeaRegs(s.rex, s.modrm, PushedRegs(s.saved, regs)), LeaNext(s), Delta(s, regs));
  }

  lemma SupportedAddress(s: Site, regs: seq<word>)
    requires IsStore(s) && |s.saved| < 16 && |regs| == 16 && (HasSib(s.modrm) ==> SibSupported(s))
    requires !(Mod(s.modrm) == 0 && Rm(s.modrm) == 5)
    ensures EmittedAddress(s, regs) == GuestAddress(s, regs)
  {
    IndexMatches(s, regs);
    BaseMatches(s, regs, s.at + Length(s), LeaNext(s));
    assert Delta(s, regs) == 0 || Delta(s, regs) == WORD;
    DeltaDecides(s, regs);
  }

  /** A supported store's replacement agrees with it over every register file. */
  lemma SupportedAgrees(s: Site, regs: seq<word>)
    requires IsStore(s) && |s.saved| < 16 && |regs| == 16 && Supported(s)
    ensures Agrees(s, regs)
  {
    ReachesTarget(s);
    SupportedAddress(s, regs);
  }

  const ZEROS: seq<word> := [0, 0, 0, 0, 0, 0, 0, 0, 0, 0, 0, 0, 0, 0, 0, 0]

  lemma RipDiffers(s: Site)
    requires IsStore(s) && 0 < |s.saved| < 16 && Mod(s.modrm) == 0 && Rm(s.modrm) == 5
    ensures EmittedAddress(s, ZEROS) != GuestAddress(s, ZEROS)
  {
    DeltaDecides(s, ZEROS);
    assert |LeaPiece(s).code| == 7;
    assert 0 < Delta(s, ZEROS) < 100;
  }

  // The three parts of Delta for an operand with a SIB byte, over registers with rsp and rsi zero.

  lemma DispPart(s: Site)
    requires IsStore(s) && |s.saved| == 9 && HasSib(s.modrm)
    ensures EmittedOperand(s).disp - Original(s).what.disp
         == if SibBase(s.suf[0]) != 4 then 0 else if DispFits(s) then 72
            else if Mod(s.modrm) == 1 then 72 - 0x100 else 72 - 0x1_0000_0000
  {
  }

  lemma BasePart(s: Site, regs: seq<word>, next: int, next': int)
    requires IsStore(s) && |s.saved| == 9 && HasSib(s.modrm)
    requires |regs| == 16 && regs[RSP] == 0 && regs[RSI] == 0
    ensures var base := Original(s).what.base;
      BaseValue(EmittedOperand(s).base, LeaRegs(s.rex, s.modrm, PushedRegs(s.saved, regs)), next') - BaseValue(base, regs, next)
      == if SibBase(s.suf[0]) == 4 && !s.rex.b then WORD - 72
         else if SibBase(s.suf[0]) == RDI && !s.rex.b && Source(s) == RSI then 0 - regs[RDI] as int
         else 0
  {
  }

  lemma IndexPart(s: Site, regs: seq<word>)
    requires IsStore(s) && |s.saved| == 9 && HasSib(s.modrm)
    requires |regs| == 16 && regs[RSP] == 0 && regs[RSI] == 0
    ensures var i := SibIndex(s.suf[0]);
      IndexValue(EmittedOperand(s), LeaRegs(s.rex, s.modrm, PushedRegs(s.saved, regs)))
      == if i == 4 || (i == RDI && Source(s) == RSI) then 0 else Scaled(regs[i], SibScale(s.suf[0]))
    ensures IndexValue(Original(s).what, regs)
         == var i := Ext(SibIndex(s.suf[0]), s.rex.x); if i == 4 then 0 else Scaled(regs[i], SibScale(s.suf[0]))
  {
  }

  lemma {:induction false} IndexDelta(s: Site, regs: seq<word>)
    requires IsStore(s) && |s.saved| == 9 && HasSib(s.modrm) && s.rex.x && regs == ZEROS[8 + SibIndex(s.suf[0]) := 1]
    ensures Delta(s, regs) % WORD != 0
  {
    DispPart(s);
    BasePart(s, regs, s.at + Length(s), LeaNext(s));
    IndexPart(s, regs);
  }

  lemma {:induction false} IndexDiffers(s: Site)
    requires IsStore(s) && |s.saved| == 9 && HasSib(s.modrm) && s.rex.x
    ensures var regs := ZEROS[8 + SibIndex(s.suf[0]) := 1];
      EmittedAddress(s, regs) != GuestAddress(s, regs)
  {
    var regs := ZEROS[8 + SibIndex(s.suf[0]) := 1];
    DeltaDecides(s, regs);
    IndexDelta(s, regs);
  }

  lemma StackDiffers(s: Site)
    requires IsStore(s) && |s.saved| == 9 && HasSib(s.modrm) && !s.rex.x
    requires SibBase(s.suf[0]) == 4 && (s.rex.b || !DispFits(s))
    ensures EmittedAddress(s, ZEROS) != GuestAddress(s, ZEROS)
  {
    DeltaDecides(s, ZEROS);
    DispPart(s);
    BasePart(s, ZEROS, s.at + Length(s), LeaNext(s));
    IndexPart(s, ZEROS);
  }

  lemma ClobberDiffers(s: Site)
    requires IsStore(s) && |s.saved| == 9 && HasSib(s.modrm) && !s.rex.x
    requires SibBase(s.suf[0]) == 4 ==> !s.rex.b && DispFits(s)
    requires Source(s) == RSI && !SibSupported(s)
    ensures var regs := ZEROS[RDI := 1]; EmittedAddress(s, regs) != GuestAddress(s, regs)
  {
    var regs := ZEROS[RDI := 1];
    DeltaDecides(s, regs);
    DispPart(s);
    BasePart(s, regs, s.at + Length(s), LeaNext(s));
    IndexPart(s, regs);
  }

  /** An unsupported store has a register file over which its replacement goes wrong. */
  lemma UnsupportedDiffers(s: Site) returns (regs: seq<word>)
    requires IsStore(s) && |s.saved| == 9 && !Supported(s)
    ensures |regs| == 16 && !Agrees(s, regs)
  {
    ReachesTarget(s);
    regs := ZEROS;
    if Source(s) == RSP || !InReach(s) {
    } else if Mod(s.modrm) == 0 && Rm(s.modrm) == 5 {
      RipDiffers(s);
    } else if s.rex.x {
      regs := ZEROS[8 + SibIndex(s.suf[0]) := 1];
      IndexDiffers(s);
    } else if SibBase(s.suf[0]) == 4 && (s.rex.b || !DispFits(s)) {
      StackDiffers(s);
    } else {
      regs := ZEROS[RDI := 1];
      ClobberDiffers(s);
    }
  }

  // ---------- The theorem ----------

  /** On every machine and with every conforming write function, running the replacement calls
      `func` once with the value and the address of the guest's store, and keeps all registers. */
  ghost predicate PreservesMeaning(s: Site)
    requires IsStore(s)
  {
    forall m: Machine, step: Stepper, callee: Machine -> Machine ::
      IsCpu(step, callee) && Conforms(callee, |s.saved|) ==>
        CallsOnce(s.saved, m, Run(NewPieces(s), s.at, m, step),
                  s.func, m.regs[Source(s)], GuestAddress(s, m.regs))
  }

  function Return(e: Machine): Machine { Set(e, RSP, (e.regs[RSP] + 8) % WORD) }

  lemma ReturnConforms(n: nat)
    ensures Conforms(Return, n)
  {
  }

  lemma {:induction false} DifferenceShows(s: Site, regs: seq<word>)
    requires IsStore(s) && Protects(s.saved) && |regs| == 16 && !Agrees(s, regs)
    ensures !PreservesMeaning(s)
  {
    var m: Machine := State(regs, map[], []);
    var step: Stepper := (i: Instr, next: int, x: Machine) => Exec(i, next, x, Return);
    assert IsCpu(step, Return);
    ReturnConforms(|s.saved|);
    Outcome(s, m, step, Return);
  }

  /** The replacement of a device store preserves its meaning exactly when the store is supported. */
  lemma {:induction false} RewritePreservesMeaning(s: Site)
    requires IsStore(s) && s.saved == SAVED
    ensures Disassemble(Decode, NewBytes(s)) == Some(NewPieces(s))
    ensures PreservesMeaning(s) <==> Supported(s)
  {
    NewBytesDecode(s);
    SavedProtects();
    if Supported(s) {
      forall m: Machine, step: Stepper, callee: Machine -> Machine | IsCpu(step, callee) && Conforms(callee, |s.saved|)
        ensures CallsOnce(s.saved, m, Run(NewPieces(s), s.at, m, step),
                          s.func, m.regs[Source(s)], GuestAddress(s, m.regs))
      {
        Outcome(s, m, step, callee);
        SupportedAgrees(s, m.regs);
      }
    } else {
      var regs := UnsupportedDiffers(s);
      DifferenceShows(s, regs);
    }
  }
}
