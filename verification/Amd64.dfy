/** A fragment of the AMD64 instruction set, given as a decoder from bytes and an executor over a
    register file and stack memory.  The decoder follows the Intel SDM, volume 2, sections 2.1.3
    (ModR/M and SIB) and 2.2.1 (REX); it knows nothing about the rewriter, so it serves as the
    independent meaning of both the guest's instruction and the bytes the rewriter emits. */
module Amd64 {

  const WORD := 0x1_0000_0000_0000_0000

  type byte = x: int | 0 <= x < 256
  type word = x: int | 0 <= x < WORD
  type reg = x: int | 0 <= x < 16

  const RAX: reg := 0
  const RCX: reg := 1
  const RSP: reg := 4
  const RSI: reg := 6
  const RDI: reg := 7

  datatype Option<+T> = None | Some(value: T)

  // ---------- Little-endian numbers ----------

  function U32(b: seq<byte>): (u: int)
    requires |b| == 4
    ensures 0 <= u < 0x1_0000_0000
  {
    b[0] as int + 0x100 * (b[1] as int) + 0x1_0000 * (b[2] as int) + 0x100_0000 * (b[3] as int)
  }

  function Bytes32(u: int): (b: seq<byte>)
    requires 0 <= u < 0x1_0000_0000
    ensures |b| == 4 && U32(b) == u
  {
    var q1 := u / 0x100;
    var q2 := q1 / 0x100;
    [u % 0x100, q1 % 0x100, q2 % 0x100, q2 / 0x100]
  }

  function Signed8(b: byte): int {
    if b < 0x80 then b else b - 0x100
  }

  function Signed32(u: int): int
    requires 0 <= u < 0x1_0000_0000
  {
    if u < 0x8000_0000 then u else u - 0x1_0000_0000
  }

  // ---------- Instructions ----------

  datatype Base = NoBase | RegBase(r: reg) | RipBase

  /** base + index * 2^scale + disp */
  datatype Operand = Operand(base: Base, index: Option<reg>, scale: int, disp: int)

  datatype Instr =
    | Push(r: reg)
    | Pop(r: reg)
    | MovReg(dst: reg, src: reg, wide: bool)
    | Store(ea: Operand, src: reg, wide: bool)
    | Lea(dst: reg, ea: Operand, wide: bool)
    | Call(rel: int)

  datatype Decoded<T> = Decoded(what: T, len: nat)

  // The REX bits that extend ModR/M and SIB register fields.
  datatype Rex = Rex(w: bool, r: bool, x: bool, b: bool)

  function RexOf(prefix: byte): Rex {
    Rex(prefix / 8 % 2 == 1, prefix / 4 % 2 == 1, prefix / 2 % 2 == 1, prefix % 2 == 1)
  }

  const NoRex := Rex(false, false, false, false)

  predicate IsRex(b: byte) { 0x40 <= b <= 0x4f }

  function Ext(field: int, high: bool): reg
    requires 0 <= field < 8
  {
    if high then field + 8 else field
  }

  function Mod(modrm: byte): int { modrm / 64 }
  function RegField(modrm: byte): int { modrm / 8 % 8 }
  function Rm(modrm: byte): int { modrm % 8 }

  function SibScale(sib: byte): int { sib / 64 }
  function SibIndex(sib: byte): int { sib / 8 % 8 }
  function SibBase(sib: byte): int { sib % 8 }

  /** The displacement that follows the ModR/M and SIB bytes, `size` bytes long. */
  function DecodeDisp(size: int, c: seq<byte>): Option<int>
    requires size == 0 || size == 1 || size == 4
  {
    if |c| < size then None
    else if size == 0 then Some(0)
    else if size == 1 then Some(Signed8(c[0]))
    else Some(Signed32(U32(c[..4])))
  }

  function DispSize(modrm: byte, base5: bool): (n: int)
    requires Mod(modrm) != 3
    ensures n == 0 || n == 1 || n == 4
  {
    if Mod(modrm) == 1 then 1
    else if Mod(modrm) == 2 || base5 then 4
    else 0
  }

  /** A memory operand: `c` holds the bytes after the ModR/M byte. */
  function DecodeOperand(rex: Rex, modrm: byte, c: seq<byte>): Option<Decoded<Operand>>
    requires Mod(modrm) != 3
  {
    if Rm(modrm) == 4 then
      if c == [] then None else
      var sib := c[0];
      var base := if SibBase(sib) == 5 && Mod(modrm) == 0 then NoBase else RegBase(Ext(SibBase(sib), rex.b));
      var index := if Ext(SibIndex(sib), rex.x) == 4 then None else Some(Ext(SibIndex(sib), rex.x));
      var n := DispSize(modrm, SibBase(sib) == 5);
      match DecodeDisp(n, c[1..])
      case None => None
      case Some(d) => Some(Decoded(Operand(base, index, SibScale(sib), d), 1 + n))
    else
      var base := if Rm(modrm) == 5 && Mod(modrm) == 0 then RipBase else RegBase(Ext(Rm(modrm), rex.b));
      var n := DispSize(modrm, Rm(modrm) == 5);
      match DecodeDisp(n, c)
      case None => None
      case Some(d) => Some(Decoded(Operand(base, None, 0, d), n))
  }

  /** One instruction after its optional REX prefix. */
  function DecodeOpcode(rex: Rex, c: seq<byte>): Option<Decoded<Instr>> {
    if c == [] then None
    else if 0x50 <= c[0] < 0x58 then Some(Decoded(Push(Ext(c[0] - 0x50, rex.b)), 1))
    else if 0x58 <= c[0] < 0x60 then Some(Decoded(Pop(Ext(c[0] - 0x58, rex.b)), 1))
    else if c[0] == 0xe8 then
      if |c| < 5 then None else Some(Decoded(Call(Signed32(U32(c[1..5]))), 5))
    else if (c[0] == 0x89 || c[0] == 0x8d) && |c| >= 2 then
      var r := Ext(RegField(c[1]), rex.r);
      if Mod(c[1]) == 3 then
        if c[0] == 0x89 then Some(Decoded(MovReg(Ext(Rm(c[1]), rex.b), r, rex.w), 2)) else None
      else
        match DecodeOperand(rex, c[1], c[2..])
        case None => None
        case Some(Decoded(ea, n)) =>
          Some(Decoded(if c[0] == 0x89 then Store(ea, r, rex.w) else Lea(r, ea, rex.w), 2 + n))
    else None
  }

  function Decode(c: seq<byte>): Option<Decoded<Instr>> {
    if c != [] && IsRex(c[0]) then
      match DecodeOpcode(RexOf(c[0]), c[1..])
      case None => None
      case Some(Decoded(i, n)) => Some(Decoded(i, 1 + n))
    else DecodeOpcode(NoRex, c)
  }

  // ---------- Execution ----------

  /** What the called function sees on entry. */
  datatype CallRecord = CallRecord(target: word, rdi: word, rsi: word, mem: map<word, word>)

  /** Memory holds one 8-byte word per stack slot address. */
  datatype State = State(regs: seq<word>, mem: map<word, word>, calls: seq<CallRecord>)

  predicate WellFormed(s: State) { |s.regs| == 16 }

  type Machine = s: State | WellFormed(s)
    witness State([0, 0, 0, 0, 0, 0, 0, 0, 0, 0, 0, 0, 0, 0, 0, 0], map[], [])

  function Set(m: Machine, r: reg, v: word): Machine {
    m.(regs := m.regs[r := v])
  }

  function Peek(mem: map<word, word>, a: word): word {
    if a in mem then mem[a] else 0
  }

  function Load(m: Machine, a: word): word { Peek(m.mem, a) }

  function BaseValue(b: Base, regs: seq<word>, next: int): int
    requires |regs| == 16
  {
    match b
    case NoBase => 0
    case RegBase(r) => regs[r]
    case RipBase => next
  }

  function Scaled(v: int, scale: int): int {
    if scale == 0 then v else if scale == 1 then 2 * v else if scale == 2 then 4 * v else 8 * v
  }

  function IndexValue(ea: Operand, regs: seq<word>): int
    requires |regs| == 16
  {
    match ea.index
    case None => 0
    case Some(r) => Scaled(regs[r], ea.scale)
  }

  /** The address an operand denotes, over registers `regs`, when the next instruction is at `next`. */
  function Address(ea: Operand, regs: seq<word>, next: int): word
    requires |regs| == 16
  {
    (BaseValue(ea.base, regs, next) + IndexValue(ea, regs) + ea.disp) % WORD
  }

  function Narrow(v: word, wide: bool): word {
    if wide then v else v % 0x1_0000_0000
  }

  function PushWord(m: Machine, v: word): Machine {
    var sp := (m.regs[RSP] - 8) % WORD;
    Set(m, RSP, sp).(mem := m.mem[sp := v])
  }

  function PopWord(m: Machine, r: reg): Machine {
    var v := Load(m, m.regs[RSP]);
    Set(Set(m, RSP, (m.regs[RSP] + 8) % WORD), r, v)
  }

  /** Enter the callee: the return address is on the stack and the entry is logged. */
  function Enter(m: Machine, target: word, next: int): Machine {
    var e := PushWord(m, next % WORD);
    e.(calls := e.calls + [CallRecord(target, e.regs[RDI], e.regs[RSI], e.mem)])
  }

  /** One instruction; `next` is the address of the instruction after it and `callee` stands for
      whatever the called function does between its entry and its return. */
  function Exec(i: Instr, next: int, m: Machine, callee: Machine -> Machine): Machine {
    match i
    case Push(r) => PushWord(m, m.regs[r])
    case Pop(r) => PopWord(m, r)
    case MovReg(dst, src, wide) => Set(m, dst, Narrow(m.regs[src], wide))
    case Store(ea, src, wide) => m.(mem := m.mem[Address(ea, m.regs, next) := Narrow(m.regs[src], wide)])
    case Lea(dst, ea, wide) => Set(m, dst, Narrow(Address(ea, m.regs, next), wide))
    case Call(rel) => callee(Enter(m, (next + rel) % WORD, next))
  }

  /** What an instruction stream starts with. */
  type Decoder = seq<byte> -> Option<Decoded<Instr>>

  /** An instruction together with its bytes. */
  datatype Piece = Piece(code: seq<byte>, what: Instr)

  /** The instructions of straight-line code; `None` when the bytes do not decode. */
  function Disassemble(decode: Decoder, code: seq<byte>): Option<seq<Piece>>
    decreases |code|
  {
    if code == [] then Some([])
    else
      match decode(code)
      case None => None
      case Some(d) =>
        if d.len == 0 || d.len > |code| then None
        else
          match Disassemble(decode, code[d.len..])
          case None => None
          case Some(ps) => Some([Piece(code[..d.len], d.what)] + ps)
  }

  /** How one instruction changes the machine, given the address of the next instruction. */
  type Stepper = (Instr, int, Machine) -> Machine

  // Where a proof looks at one executed instruction.
  ghost predicate At(i: Instr, next: int, m: Machine) { true }

  /** A processor on which every called function behaves like `callee`. */
  ghost predicate IsCpu(step: Stepper, callee: Machine -> Machine) {
    forall i: Instr, next: int, m: Machine {:trigger At(i, next, m)} :: step(i, next, m) == Exec(i, next, m, callee)
  }

  /** Run the instructions `ps`, the first of which is at `at`. */
  function Run(ps: seq<Piece>, at: int, m: Machine, step: Stepper): Machine {
    if ps == [] then m
    else
      var next := at + |ps[0].code|;
      Run(ps[1..], next, step(ps[0].what, next, m), step)
  }

  /** The registers the System V calling convention makes a callee preserve, rsp aside. */
  predicate CalleeSaved(r: reg) { r == 3 || r == 5 || r >= 12 }

  /** `after` is a permitted outcome of calling a function whose caller keeps `slots` words on the
      stack: the return address is popped, callee-saved registers and the caller's words survive,
      and nothing but the callee's own calls (none are logged) is recorded. */
  ghost predicate Returns(entry: Machine, after: Machine, slots: nat) {
    && after.regs[RSP] == (entry.regs[RSP] + 8) % WORD
    && (forall r: reg :: CalleeSaved(r) ==> after.regs[r] == entry.regs[r])
    && (forall k: nat :: k < slots ==> Load(after, Slot(entry, k)) == Load(entry, Slot(entry, k)))
    && after.calls == entry.calls
  }

  /** Address of the k-th word above the return address. */
  function Slot(entry: Machine, k: nat): word {
    (entry.regs[RSP] + 8 + 8 * k) % WORD
  }

  ghost predicate Conforms(callee: Machine -> Machine, slots: nat) {
    forall e: Machine :: Returns(e, callee(e), slots)
  }

  // ---------- Facts about straight-line runs ----------

  /** `b` is the encoding of `i`: it decodes to `i` whatever follows it. */
  ghost predicate Encodes(decode: Decoder, b: seq<byte>, i: Instr) {
    b != [] && forall rest: seq<byte> :: decode(b + rest) == Some(Decoded(i, |b|))
  }

  function Flatten(ps: seq<Piece>): seq<byte> {
    if ps == [] then [] else ps[0].code + Flatten(ps[1..])
  }

  ghost predicate Faithful(decode: Decoder, ps: seq<Piece>) {
    forall p :: p in ps ==> Encodes(decode, p.code, p.what)
  }

  lemma {:induction false} DisassembleFirst(decode: Decoder, p: Piece, rest: seq<byte>, ps: seq<Piece>)
    requires Encodes(decode, p.code, p.what) && Disassemble(decode, rest) == Some(ps)
    ensures Disassemble(decode, p.code + rest) == Some([p] + ps)
  {
    var b := p.code;
    assert decode(b + rest) == Some(Decoded(p.what, |b|));
    assert (b + rest)[|b|..] == rest && (b + rest)[..|b|] == b;
  }

  lemma {:induction false} Assembles(decode: Decoder, ps: seq<Piece>)
    requires Faithful(decode, ps)
    ensures Disassemble(decode, Flatten(ps)) == Some(ps)
  {
    if ps != [] {
      Assembles(decode, ps[1..]);
      assert ps[0] in ps;
      DisassembleFirst(decode, ps[0], Flatten(ps[1..]), ps[1..]);
      assert [ps[0]] + ps[1..] == ps;
    }
  }

  lemma {:induction false} FlattenJoins(ps: seq<Piece>, qs: seq<Piece>)
    ensures Flatten(ps + qs) == Flatten(ps) + Flatten(qs)
  {
    if ps == [] {
      assert ps + qs == qs;
    } else {
      FlattenJoins(ps[1..], qs);
      assert (ps + qs)[1..] == ps[1..] + qs;
      JoinsAssociate(ps[0].code, Flatten(ps[1..]), Flatten(qs));
    }
  }

  lemma JoinsAssociate(a: seq<byte>, b: seq<byte>, c: seq<byte>)
    ensures a + (b + c) == (a + b) + c
  {
  }

  lemma {:induction false} FlattenTwo(a: Piece, b: Piece)
    ensures Flatten([a]) == a.code && Flatten([a, b]) == a.code + b.code
  {
    assert [a, b][1..] == [b];
    assert Flatten([b]) == b.code + Flatten([b][1..]);
  }

  lemma {:induction false} FlattenThree(a: Piece, b: Piece, c: Piece)
    ensures Flatten([a, b, c]) == a.code + b.code + c.code
  {
    assert [a, b, c][1..] == [b, c];
    FlattenTwo(b, c);
  }

  lemma {:induction false} RunSplit(ps: seq<Piece>, qs: seq<Piece>, at: int, m: Machine, step: Stepper)
    ensures Run(ps + qs, at, m, step) == Run(qs, at + |Flatten(ps)|, Run(ps, at, m, step), step)
    decreases |ps|
  {
    if ps == [] {
      assert ps + qs == qs;
    } else {
      assert (ps + qs)[1..] == ps[1..] + qs;
      var next := at + |ps[0].code|;
      RunSplit(ps[1..], qs, next, step(ps[0].what, next, m), step);
    }
  }

  lemma {:induction false} RunOne(p: Piece, at: int, m: Machine, step: Stepper)
    ensures Run([p], at, m, step) == step(p.what, at + |p.code|, m)
  {
    assert [p][1..] == [];
  }

  lemma {:induction false} RunTwo(p: Piece, q: Piece, at: int, m: Machine, step: Stepper)
    ensures Run([p, q], at, m, step)
         == (var at1 := at + |p.code|; step(q.what, at1 + |q.code|, step(p.what, at1, m)))
  {
    assert [p, q][1..] == [q];
    RunOne(q, at + |p.code|, step(p.what, at + |p.code|, m), step);
  }

  lemma {:induction false} RunThree(p: Piece, q: Piece, r: Piece, at: int, m: Machine, step: Stepper)
    ensures Run([p, q, r], at, m, step)
         == (var at1 := at + |p.code|;
             var at2 := at1 + |q.code|;
             step(r.what, at2 + |r.code|, step(q.what, at2, step(p.what, at1, m))))
  {
    assert [p, q, r][1..] == [q, r];
    RunTwo(q, r, at + |p.code|, step(p.what, at + |p.code|, m), step);
  }

  /** Run `a`, then `b`, then the single instruction `call`, then `d`. */
  lemma {:induction false} RunFour(a: seq<Piece>, b: seq<Piece>, call: Piece, d: seq<Piece>, at: int, step: Stepper,
                                   m: Machine, m1: Machine, m2: Machine, m3: Machine)
    requires Run(a, at, m, step) == m1
    requires Run(b, at + |Flatten(a)|, m1, step) == m2
    requires step(call.what, at + |Flatten(a)| + |Flatten(b)| + |call.code|, m2) == m3
    ensures Run(a + b + [call] + d, at, m, step)
         == Run(d, at + |Flatten(a)| + |Flatten(b)| + |call.code|, m3, step)
  {
    FlattenJoins(a, b);
    FlattenJoins(a + b, [call]);
    FlattenTwo(call, call);
    RunSplit(a, b, at, m, step);
    RunSplit(a + b, [call], at, m, step);
    RunOne(call, at + |Flatten(a + b)|, m2, step);
    RunSplit(a + b + [call], d, at, m, step);
  }
}
