/** The bytes that replace a guest's `mov reg, mem` on device memory, and what running them does.
    The emitters of rewrite_stackless.h appear here as functions from operands to bytes; the class in
    PatchBuffer.dfy writes the same bytes in place. */
module DeviceStore {
  import opened Amd64

  // ---------- Emitters ----------

  function PushBytes(r: reg): seq<byte> {
    if r >= 8 then [0x41, 0x50 + (r - 8)] else [0x50 + r]
  }

  function PopBytes(r: reg): seq<byte> {
    if r >= 8 then [0x41, 0x58 + (r - 8)] else [0x58 + r]
  }

  /** 64-bit register move; `high` extends the source field only. */
  function MovBytes(src: int, high: bool, dst: int): seq<byte>
    requires 0 <= src < 8 && 0 <= dst < 8
  {
    [if high then 0x4c else 0x48, 0x89, 0xc0 + 8 * src + dst]
  }

  /** Relative call to `func` from code whose next instruction is at `next`. */
  function CallBytes(func: word, next: int): seq<byte> {
    [0xe8] + Bytes32((func - next) % 0x1_0000_0000)
  }

  predicate HasSib(modrm: byte) { Rm(modrm) == 4 }

  /** The operand is taken to be stack-relative: its SIB byte has base field 4. */
  predicate EspRelative(modrm: byte, suf: seq<byte>)
    requires |suf| >= 6
  {
    HasSib(modrm) && SibBase(suf[0]) == 4
  }

  /** The displacement bytes of the original instruction. */
  function DispBytes(modrm: byte, suf: seq<byte>): (d: seq<byte>)
    requires |suf| >= 6
    ensures |d| >= 5
  {
    if HasSib(modrm) then suf[1..] else suf
  }

  /** What is written after the ModR/M byte (and SIB byte), with `off` bytes on the stack. */
  function NewDisp(modrm: byte, suf: seq<byte>, off: nat): seq<byte>
    requires |suf| >= 6 && Mod(modrm) != 3
  {
    var d := DispBytes(modrm, suf);
    var add := if EspRelative(modrm, suf) then off else 0;
    if Mod(modrm) == 0 then
      if Rm(modrm) == 5 || (HasSib(modrm) && SibBase(suf[0]) == 5) then d[..4]
      else if EspRelative(modrm, suf) then [off % 256]
      else []
    else if Mod(modrm) == 1 then [(d[0] + add) % 256]
    else Bytes32((U32(d[..4]) + add) % 0x1_0000_0000)
  }

  function NewSuffix(modrm: byte, suf: seq<byte>, off: nat): seq<byte>
    requires |suf| >= 6 && Mod(modrm) != 3
  {
    (if HasSib(modrm) then [suf[0]] else []) + NewDisp(modrm, suf, off)
  }

  /** A stack-relative operand without displacement gains a one-byte displacement. */
  function NewMod(modrm: byte, suf: seq<byte>): int
    requires |suf| >= 6
  {
    if Mod(modrm) == 0 && EspRelative(modrm, suf) then 1 else Mod(modrm)
  }

  function NewModrm(dst: int, modrm: byte, suf: seq<byte>): byte
    requires |suf| >= 6 && 0 <= dst < 8
  {
    64 * NewMod(modrm, suf) + 8 * dst + Rm(modrm)
  }

  /** `lea` of the original operand into `dst`; REX.X is not carried over. */
  function LeaBytes(dst: int, modrm: byte, suf: seq<byte>, rexB: bool, off: nat): seq<byte>
    requires |suf| >= 6 && 0 <= dst < 8 && Mod(modrm) != 3
  {
    [if rexB then 0x49 else 0x48, 0x8d, NewModrm(dst, modrm, suf)] + NewSuffix(modrm, suf, off)
  }

  /** The registers the replacement saves around the call, in push order: rax, rcx, rdx, rsi, rdi
      and r8 to r11. */
  const SAVED: seq<reg> := seq(9, i requires 0 <= i < 9 => SavedReg(i))

  function SavedReg(i: int): reg
    requires 0 <= i < 9
  {
    if i < 3 then i else i + 3
  }

  function Reversed(rs: seq<reg>): (r: seq<reg>)
    ensures |r| == |rs|
    ensures forall i :: 0 <= i < |rs| ==> r[i] == rs[|rs| - 1 - i]
  {
    if rs == [] then [] else Reversed(rs[1..]) + [rs[0]]
  }

  function SaveBytes(rs: seq<reg>): (b: seq<byte>)
    ensures |rs| <= |b| <= 2 * |rs|
  {
    if rs == [] then [] else PushBytes(rs[0]) + SaveBytes(rs[1..])
  }

  function RestoreBytes(rs: seq<reg>): (b: seq<byte>)
    ensures |rs| <= |b| <= 2 * |rs|
  {
    if rs == [] then [] else PopBytes(rs[0]) + RestoreBytes(rs[1..])
  }

  /** Moves the source to rdi and the operand's address to rsi, with `off` bytes of stack in use. */
  function ShuffleBytes(rex: Rex, modrm: byte, suf: seq<byte>, off: nat): seq<byte>
    requires |suf| >= 6 && Mod(modrm) != 3
  {
    var lea := LeaBytes(RSI, modrm, suf, rex.b, off);
    if RegField(modrm) == RDI && !rex.r then lea
    else if RegField(modrm) != RSI || rex.r then lea + MovBytes(RegField(modrm), rex.r, RDI)
    else if Rm(modrm) == RDI then MovBytes(RSI, false, RCX) + lea + MovBytes(RCX, false, RDI)
    else MovBytes(RSI, false, RDI) + lea
  }

  /** `body` between code that saves and restores the registers `saved` around a call to `func`. */
  function Framed(body: seq<byte>, at: int, func: word, saved: seq<reg>): seq<byte> {
    var front := SaveBytes(saved) + body;
    front + CallBytes(func, at + |front| + 5) + RestoreBytes(Reversed(saved))
  }

  /** Everything written over the original instruction, which is at run-time address `at`. */
  function Replacement(rex: Rex, modrm: byte, suf: seq<byte>, at: int, func: word, saved: seq<reg>): seq<byte>
    requires |suf| >= 6 && Mod(modrm) != 3
  {
    Framed(ShuffleBytes(rex, modrm, suf, 8 * |saved|), at, func, saved)
  }

  // ---------- What the emitted bytes decode to ----------

  lemma {:induction false} PushEncodes(r: reg)
    ensures Encodes(Decode, PushBytes(r), Push(r))
  {
    forall rest: seq<byte> ensures Decode(PushBytes(r) + rest) == Some(Decoded(Push(r), |PushBytes(r)|)) {
      var c := PushBytes(r) + rest;
      if r >= 8 { assert c[1..][0] == 0x50 + (r - 8); }
    }
  }

  lemma {:induction false} PopEncodes(r: reg)
    ensures Encodes(Decode, PopBytes(r), Pop(r))
  {
    forall rest: seq<byte> ensures Decode(PopBytes(r) + rest) == Some(Decoded(Pop(r), |PopBytes(r)|)) {
      var c := PopBytes(r) + rest;
      if r >= 8 { assert c[1..][0] == 0x58 + (r - 8); }
    }
  }

  lemma {:induction false} MovEncodes(src: int, high: bool, dst: int)
    requires 0 <= src < 8 && 0 <= dst < 8
    ensures Encodes(Decode, MovBytes(src, high, dst), MovReg(dst, Ext(src, high), true))
  {
    var b := MovBytes(src, high, dst);
    forall rest: seq<byte> ensures Decode(b + rest) == Some(Decoded(MovReg(dst, Ext(src, high), true), 3)) {
      var c := (b + rest)[1..];
      assert c[0] == 0x89 && c[1] == 0xc0 + 8 * src + dst;
      assert Mod(c[1]) == 3 && RegField(c[1]) == src && Rm(c[1]) == dst;
      assert RexOf(b[0]) == Rex(true, high, false, false);
    }
  }

  lemma {:induction false} CallEncodes(func: word, next: int)
    ensures Encodes(Decode, CallBytes(func, next), Call(Signed32((func - next) % 0x1_0000_0000)))
  {
    var b := CallBytes(func, next);
    forall rest: seq<byte>
      ensures Decode(b + rest) == Some(Decoded(Call(Signed32((func - next) % 0x1_0000_0000)), |b|))
    {
      assert (b + rest)[1..5] == b[1..];
    }
  }

  /** The displacement of the emitted `lea`. */
  function LeaDisp(disp: int, modrm: byte, suf: seq<byte>, off: nat): int
    requires |suf| >= 6 && Mod(modrm) != 3
  {
    if !EspRelative(modrm, suf) then disp
    else if Mod(modrm) <= 1 then Signed8((disp + off) % 256)
    else Signed32((disp + off) % 0x1_0000_0000)
  }

  function LeaIndex(modrm: byte, suf: seq<byte>): Option<reg>
    requires |suf| >= 6
  {
    if HasSib(modrm) && SibIndex(suf[0]) != 4 then Some(SibIndex(suf[0])) else None
  }

  function LeaOperand(ea: Operand, modrm: byte, suf: seq<byte>, off: nat): Operand
    requires |suf| >= 6 && Mod(modrm) != 3
  {
    Operand(ea.base, LeaIndex(modrm, suf), ea.scale, LeaDisp(ea.disp, modrm, suf, off))
  }

  lemma {:induction false} NewModrmFields(dst: int, modrm: byte, suf: seq<byte>)
    requires |suf| >= 6 && 0 <= dst < 8
    ensures var b := NewModrm(dst, modrm, suf);
            Mod(b) == NewMod(modrm, suf) && RegField(b) == dst && Rm(b) == Rm(modrm)
  {
  }

  lemma {:induction false} NewDisp0Decodes(modrm: byte, suf: seq<byte>, off: nat, rest: seq<byte>, disp: int, size: int)
    requires |suf| >= 6 && Mod(modrm) == 0
    requires size == DispSize(modrm, if HasSib(modrm) then SibBase(suf[0]) == 5 else Rm(modrm) == 5)
    requires DecodeDisp(size, DispBytes(modrm, suf)) == Some(disp)
    ensures var size' := if EspRelative(modrm, suf) then 1 else size;
      && |NewDisp(modrm, suf, off)| == size'
      && DecodeDisp(size', NewDisp(modrm, suf, off) + rest) == Some(LeaDisp(disp, modrm, suf, off))
  {
    var nd := NewDisp(modrm, suf, off);
    if size == 4 { assert (nd + rest)[..4] == nd; }
  }

  lemma {:induction false} NewDisp1Decodes(modrm: byte, suf: seq<byte>, off: nat, rest: seq<byte>, disp: int)
    requires |suf| >= 6 && Mod(modrm) == 1
    requires DecodeDisp(1, DispBytes(modrm, suf)) == Some(disp)
    ensures |NewDisp(modrm, suf, off)| == 1
    ensures DecodeDisp(1, NewDisp(modrm, suf, off) + rest) == Some(LeaDisp(disp, modrm, suf, off))
  {
  }

  lemma {:induction false} SignedMod(u: int, k: int)
    requires 0 <= u < 0x1_0000_0000
    ensures (Signed32(u) + k) % 0x1_0000_0000 == (u + k) % 0x1_0000_0000
  {
  }

  lemma {:induction false} NewDisp2Decodes(modrm: byte, suf: seq<byte>, off: nat, rest: seq<byte>, disp: int)
    requires |suf| >= 6 && Mod(modrm) == 2
    requires DecodeDisp(4, DispBytes(modrm, suf)) == Some(disp)
    ensures |NewDisp(modrm, suf, off)| == 4
    ensures DecodeDisp(4, NewDisp(modrm, suf, off) + rest) == Some(LeaDisp(disp, modrm, suf, off))
  {
    var d := DispBytes(modrm, suf);
    var nd := NewDisp(modrm, suf, off);
    assert (nd + rest)[..4] == nd;
    var add := if EspRelative(modrm, suf) then off else 0;
    assert U32(nd) == (U32(d[..4]) + add) % 0x1_0000_0000;
    SignedMod(U32(d[..4]), add);
  }

  /** The displacement field written decodes to LeaDisp. */
  lemma {:induction false} NewDispDecodes(modrm: byte, suf: seq<byte>, off: nat, rest: seq<byte>, disp: int, size: int, size': int)
    requires |suf| >= 6 && Mod(modrm) != 3
    requires size == DispSize(modrm, if HasSib(modrm) then SibBase(suf[0]) == 5 else Rm(modrm) == 5)
    requires DecodeDisp(size, DispBytes(modrm, suf)) == Some(disp)
    requires size' == if Mod(modrm) == 0 && EspRelative(modrm, suf) then 1 else size
    ensures |NewDisp(modrm, suf, off)| == size'
    ensures DecodeDisp(size', NewDisp(modrm, suf, off) + rest) == Some(LeaDisp(disp, modrm, suf, off))
  {
    if Mod(modrm) == 0 {
      NewDisp0Decodes(modrm, suf, off, rest, disp, size);
    } else if Mod(modrm) == 1 {
      NewDisp1Decodes(modrm, suf, off, rest, disp);
    } else {
      NewDisp2Decodes(modrm, suf, off, rest, disp);
    }
  }

  /** The emitted operand decodes to the original one with the index unextended and the displacement
      corrected for `off` bytes of stack. */
  lemma {:induction false} NewOperandDecodes(rex: Rex, dst: int, modrm: byte, suf: seq<byte>, off: nat, rest: seq<byte>,
                          ea: Operand, n: nat)
    requires |suf| >= 6 && Mod(modrm) != 3 && 0 <= dst < 8
    requires DecodeOperand(rex, modrm, suf) == Some(Decoded(ea, n))
    ensures DecodeOperand(Rex(true, false, false, rex.b), NewModrm(dst, modrm, suf), NewSuffix(modrm, suf, off) + rest)
         == Some(Decoded(LeaOperand(ea, modrm, suf, off), |NewSuffix(modrm, suf, off)|))
  {
    NewModrmFields(dst, modrm, suf);
    var c := NewSuffix(modrm, suf, off) + rest;
    var size := DispSize(modrm, if HasSib(modrm) then SibBase(suf[0]) == 5 else Rm(modrm) == 5);
    var size' := if Mod(modrm) == 0 && EspRelative(modrm, suf) then 1 else size;
    NewDispDecodes(modrm, suf, off, rest, ea.disp, size, size');
    if HasSib(modrm) {
      assert c[0] == suf[0];
      assert c[1..] == NewDisp(modrm, suf, off) + rest;
    } else {
      assert c == NewDisp(modrm, suf, off) + rest;
    }
  }

  lemma {:induction false} LeaEncodes(rex: Rex, dst: int, modrm: byte, suf: seq<byte>, off: nat, ea: Operand, n: nat)
    requires |suf| >= 6 && Mod(modrm) != 3 && 0 <= dst < 8
    requires DecodeOperand(rex, modrm, suf) == Some(Decoded(ea, n))
    ensures Encodes(Decode, LeaBytes(dst, modrm, suf, rex.b, off), Lea(dst, LeaOperand(ea, modrm, suf, off), true))
  {
    var b := LeaBytes(dst, modrm, suf, rex.b, off);
    forall rest: seq<byte>
      ensures Decode(b + rest) == Some(Decoded(Lea(dst, LeaOperand(ea, modrm, suf, off), true), |b|))
    {
      var c := (b + rest)[1..];
      assert RexOf(b[0]) == Rex(true, false, false, rex.b);
      assert c[0] == 0x8d && c[1] == NewModrm(dst, modrm, suf);
      assert c[2..] == NewSuffix(modrm, suf, off) + rest;
      NewModrmFields(dst, modrm, suf);
      NewOperandDecodes(rex, dst, modrm, suf, off, rest, ea, n);
    }
  }
}
