/** The rewriter of device stores as it works: it overwrites the guest's instruction in place, byte
    by byte, through an advancing output position, and counts the bytes it pushes on the stack. */
module PatchBuffer {
  import opened Amd64
  import opened DeviceStore
  import opened RewriteMeaning

  function U64(b: seq<byte>): (u: int)
    requires |b| == 8
    ensures 0 <= u < WORD
  {
    U32(b[..4]) + 0x1_0000_0000 * U32(b[4..])
  }

  function Bytes64(u: int): (b: seq<byte>)
    requires 0 <= u < WORD
    ensures |b| == 8
  {
    Bytes32(u % 0x1_0000_0000) + Bytes32(u / 0x1_0000_0000)
  }

  /** Adding to a 64-bit load adds to its low half, whatever the high half holds. */
  lemma LowHalf(b: seq<byte>, k: nat)
    requires |b| == 8
    ensures Bytes64((U64(b) + k) % WORD)[..4] == Bytes32((U32(b[..4]) + k) % 0x1_0000_0000)
  {
    LowBits(U64(b) + k);
    var lo, hi := U32(b[..4]), U32(b[4..]);
    assert (lo + 0x1_0000_0000 * hi + k) % 0x1_0000_0000 == (lo + k) % 0x1_0000_0000;
  }

  lemma Digit(q: int, r: int)
    requires 0 <= r < 0x100
    ensures (0x100 * q + r) / 0x100 == q && (0x100 * q + r) % 0x100 == r
  {
  }

  lemma Bytes32Inverse(b: seq<byte>)
    requires |b| == 4
    ensures Bytes32(U32(b)) == b
  {
    var b1: int, b2: int, b3: int := b[1], b[2], b[3];
    Digit(b1 + 0x100 * (b2 + 0x100 * b3), b[0]);
    Digit(b2 + 0x100 * b3, b1);
    Digit(b3, b2);
  }

  lemma NoAdd(b: seq<byte>)
    requires |b| == 4
    ensures Bytes32((U32(b) + 0) % 0x1_0000_0000) == b
  {
    Bytes32Inverse(b);
  }

  lemma {:induction false} SaveSnoc(rs: seq<reg>, r: reg)
    ensures SaveBytes(rs + [r]) == SaveBytes(rs) + PushBytes(r)
  {
    if rs == [] {
      assert rs + [r] == [r] && [r][1..] == [];
    } else {
      SaveSnoc(rs[1..], r);
      assert (rs + [r])[1..] == rs[1..] + [r];
      Assoc(PushBytes(rs[0]), SaveBytes(rs[1..]), PushBytes(r));
    }
  }

  lemma {:induction false} RestoreSnoc(rs: seq<reg>, r: reg)
    ensures RestoreBytes(rs + [r]) == RestoreBytes(rs) + PopBytes(r)
  {
    if rs == [] {
      assert rs + [r] == [r] && [r][1..] == [];
    } else {
      RestoreSnoc(rs[1..], r);
      assert (rs + [r])[1..] == rs[1..] + [r];
      Assoc(PopBytes(rs[0]), RestoreBytes(rs[1..]), PopBytes(r));
    }
  }

  lemma LeaLength(dst: int, modrm: byte, suf: seq<byte>, rexB: bool, off: nat)
    requires |suf| >= 6 && 0 <= dst < 8 && Mod(modrm) != 3
    ensures |LeaBytes(dst, modrm, suf, rexB, off)| <= 8
  {
  }

  lemma Assoc(a: seq<byte>, b: seq<byte>, c: seq<byte>)
    ensures a + b + c == a + (b + c)
  {
  }

  /** Bytes past the six copied ones do not reach the output. */
  lemma JunkUnused(rex: Rex, modrm: byte, suf: seq<byte>)
    requires |suf| >= 6 && Mod(modrm) != 3
    ensures ShuffleBytes(rex, modrm, suf, 72) == ShuffleBytes(rex, modrm, suf[..6], 72)
  {
    JunkDisp(modrm, suf);
  }

  lemma JunkDisp(modrm: byte, suf: seq<byte>)
    requires |suf| >= 6 && Mod(modrm) != 3
    ensures NewDisp(modrm, suf, 72) == NewDisp(modrm, suf[..6], 72)
  {
    assert suf[..6][..4] == suf[..4] && suf[..6][1..][..4] == suf[1..][..4];
  }

  lemma NewBytesWithJunk(s: Site, suf: seq<byte>)
    requires IsStore(s) && |suf| == 9 && s.suf == suf[..6] && s.saved == SAVED
    ensures NewBytes(s) == Framed(ShuffleBytes(s.rex, s.modrm, suf, 72), s.at, s.func, SAVED)
  {
    JunkUnused(s.rex, s.modrm, suf);
  }

  /** The buffer up to the call. */
  function CalledBytes(head: seq<byte>, body: seq<byte>, org: int, func: word, saved: seq<reg>): seq<byte> {
    var front := head + SaveBytes(saved) + body;
    front + CallBytes(func, org + |front| + 5)
  }

  lemma FramedParts(head: seq<byte>, body: seq<byte>, org: int, func: word)
    ensures CalledBytes(head, body, org, func, SAVED) + RestoreBytes(Reversed(SAVED))
         == head + Framed(body, org + |head|, func, SAVED)
  {
    var save, call, restore :=
      SaveBytes(SAVED), CallBytes(func, org + |head| + |SaveBytes(SAVED) + body| + 5), RestoreBytes(Reversed(SAVED));
    Assoc(head, save, body);
    Assoc(head, save + body, call);
    Assoc(head, save + body + call, restore);
  }

  /** The bytes up to the call, and with the restores behind them. */
  lemma Plan(s: Site, suf: seq<byte>, head: seq<byte>, org: int) returns (body: seq<byte>, called: seq<byte>)
    requires IsStore(s) && s.saved == SAVED && s.at == org + |head| && |suf| == 9 && s.suf == suf[..6]
    ensures body == ShuffleBytes(s.rex, s.modrm, suf, 72) && called == CalledBytes(head, body, org, s.func, SAVED)
    ensures called + RestoreBytes(Reversed(SAVED)) == head + NewBytes(s)
  {
    body := ShuffleBytes(s.rex, s.modrm, suf, 72);
    called := CalledBytes(head, body, org, s.func, SAVED);
    NewBytesWithJunk(s, suf);
    FramedParts(head, body, org, s.func);
  }

  lemma RawFields(mod: int, reg: int, rm: int)
    requires 0 <= mod < 4 && 0 <= reg < 8 && 0 <= rm < 8
    ensures var raw := 64 * mod + 8 * reg + rm; Mod(raw) == mod && RegField(raw) == reg && Rm(raw) == rm
  {
  }

  lemma NewModrmValue(modrm: byte, suf: seq<byte>)
    requires |suf| >= 6
    ensures NewModrm(RegField(modrm), modrm, suf)
         == if Mod(modrm) == 0 && EspRelative(modrm, suf) then 64 + modrm else modrm
  {
  }

  lemma Regroup(a: seq<byte>, x: byte, y: byte, z: byte, b: seq<byte>)
    ensures a + [x, y] + [z] + b == a + ([x, y, z] + b)
  {
  }

  /** The written operand does not depend on the register field. */
  lemma SameOperand(modrm: byte, raw: byte, suf: seq<byte>, off: nat)
    requires |suf| >= 6 && Mod(modrm) != 3 && Mod(raw) == Mod(modrm) && Rm(raw) == Rm(modrm)
    ensures NewSuffix(raw, suf, off) == NewSuffix(modrm, suf, off) && NewMod(raw, suf) == NewMod(modrm, suf)
  {
  }

  class Patcher {
    // The code being rewritten; byte i runs at address `base + i`.
    const ops: array<byte>
    const base: int
    // Bytes pushed so far by the code emitted for the current instruction.
    var stackOffset: nat

    constructor (code: array<byte>, at: int)
      ensures ops == code && base == at && stackOffset == 0
    {
      ops, base, stackOffset := code, at, 0;
    }

    method PushReg(newops: nat, r: reg) returns (next: nat)
      requires newops + 2 <= ops.Length
      modifies this`stackOffset, ops
      ensures next == newops + |PushBytes(r)|
      ensures ops[..next] == old(ops[..newops]) + PushBytes(r)
      ensures stackOffset == old(stackOffset) + 8
      ensures forall i :: next <= i < ops.Length ==> ops[i] == old(ops[i])
    {
      next := newops;
      if r >= 8 {
        ops[next] := 0x41;
        next := next + 1;
        ops[next] := 0x50 + (r - 8);
      } else {
        ops[next] := 0x50 + r;
      }
      next := next + 1;
      stackOffset := stackOffset + 8;
    }

    method PopReg(newops: nat, r: reg) returns (next: nat)
      requires newops + 2 <= ops.Length && stackOffset >= 8
      modifies this`stackOffset, ops
      ensures next == newops + |PopBytes(r)|
      ensures ops[..next] == old(ops[..newops]) + PopBytes(r)
      ensures stackOffset == old(stackOffset) - 8
      ensures forall i :: next <= i < ops.Length ==> ops[i] == old(ops[i])
    {
      next := newops;
      if r >= 8 {
        ops[next] := 0x41;
        next := next + 1;
        ops[next] := 0x58 + (r - 8);
      } else {
        ops[next] := 0x58 + r;
      }
      next := next + 1;
      stackOffset := stackOffset - 8;
    }

    method MovRegToReg(newops: nat, src: int, dst: int, high: bool) returns (next: nat)
      requires newops + 3 <= ops.Length && 0 <= src < 8 && 0 <= dst < 8
      modifies ops
      ensures next == newops + 3
      ensures ops[..next] == old(ops[..newops]) + MovBytes(src, high, dst)
      ensures forall i :: next <= i < ops.Length ==> ops[i] == old(ops[i])
    {
      ops[newops] := if high then 0x4c else 0x48;
      ops[newops + 1] := 0x89;
      ops[newops + 2] := 0xc0 + 8 * src + dst;
      next := newops + 3;
    }

    method Call(newops: nat, func: word) returns (next: nat)
      requires newops + 5 <= ops.Length
      modifies ops
      ensures next == newops + 5
      ensures ops[..next] == old(ops[..newops]) + CallBytes(func, base + newops + 5)
      ensures forall i :: next <= i < ops.Length ==> ops[i] == old(ops[i])
    {
      var rel := Bytes32((func - (base + newops + 5)) % 0x1_0000_0000);
      ops[newops] := 0xe8;
      ops[newops + 1], ops[newops + 2], ops[newops + 3], ops[newops + 4] := rel[0], rel[1], rel[2], rel[3];
      next := newops + 5;
    }

    /** A 64-bit store through the output position; only its low half is kept by the caller. */
    method StoreU64(newops: nat, b: seq<byte>)
      requires newops + 8 <= ops.Length && |b| == 8
      modifies ops
      ensures ops[..newops + 4] == old(ops[..newops]) + b[..4]
      ensures forall i :: newops + 8 <= i < ops.Length ==> ops[i] == old(ops[i])
    {
      ops[newops], ops[newops + 1], ops[newops + 2], ops[newops + 3] := b[0], b[1], b[2], b[3];
      ops[newops + 4], ops[newops + 5], ops[newops + 6], ops[newops + 7] := b[4], b[5], b[6], b[7];
    }

    /** A 32-bit displacement, moved by a 64-bit load, add and store. */
    method AppendDisp32(newops: nat, d: seq<byte>, add: nat) returns (next: nat)
      requires |d| == 8 && newops + 8 <= ops.Length
      modifies ops
      ensures next == newops + 4
      ensures ops[..next] == old(ops[..newops]) + Bytes32((U32(d[..4]) + add) % 0x1_0000_0000)
      ensures forall i :: next + 4 <= i < ops.Length ==> ops[i] == old(ops[i])
    {
      StoreU64(newops, Bytes64((U64(d) + add) % WORD));
      next := newops + 4;
      LowHalf(d, add);
    }

    /** The displacement of an operand that keeps its addressing mode. */
    method AppendDisp(newops: nat, modrm: byte, suf: seq<byte>) returns (next: nat)
      requires |suf| >= 9 && Mod(modrm) != 3 && newops + 8 <= ops.Length
      requires !(Mod(modrm) == 0 && EspRelative(modrm, suf))
      modifies ops
      ensures next == newops + |NewDisp(modrm, suf, stackOffset)|
      ensures ops[..next] == old(ops[..newops]) + NewDisp(modrm, suf, stackOffset)
      ensures forall i :: next + 4 <= i < ops.Length ==> ops[i] == old(ops[i])
    {
      var k := if Rm(modrm) == 4 then 1 else 0;
      var add := if EspRelative(modrm, suf) then stackOffset else 0;
      ghost var d := DispBytes(modrm, suf);
      assert suf[k..k + 8][..4] == d[..4] && suf[k] == d[0];
      next := newops;
      if Mod(modrm) == 1 {
        ops[next] := (suf[k] as int + add) % 256;
        next := next + 1;
      } else if Mod(modrm) == 2 || Rm(modrm) == 5 || (Rm(modrm) == 4 && SibBase(suf[0]) == 5) {
        NoAdd(d[..4]);
        next := AppendDisp32(next, suf[k..k + 8], add);
      }
    }

    method AppendSib(newops: nat, modrm: byte, suf: seq<byte>) returns (next: nat)
      requires |suf| >= 9 && newops + 1 <= ops.Length
      modifies ops
      ensures next == newops + (if HasSib(modrm) then 1 else 0)
      ensures ops[..next] == old(ops[..newops]) + (if HasSib(modrm) then [suf[0]] else [])
      ensures forall i :: next <= i < ops.Length ==> ops[i] == old(ops[i])
    {
      next := newops;
      if Rm(modrm) == 4 {
        ops[next] := suf[0];
        next := next + 1;
      }
    }

    /** A stack-relative operand without displacement: go back to the ModR/M byte, two positions
        before the output position, and give it a one-byte displacement. */
    method PatchDisp8(newops: nat, modrm: byte, sib: byte, ghost head: seq<byte>) returns (next: nat)
      requires 2 <= newops < ops.Length && stackOffset < 0x80 && Mod(modrm) == 0
      requires ops[..newops] == head + [modrm] + [sib]
      modifies ops
      ensures next == newops + 1
      ensures ops[..next] == head + [64 + modrm] + ([sib] + [stackOffset])
      ensures forall i :: next <= i < ops.Length ==> ops[i] == old(ops[i])
    {
      ops[newops - 2] := 64 + modrm;
      ops[newops] := stackOffset;
      next := newops + 1;
    }

    /** Copy the operand's SIB byte and displacement, correcting a stack-relative displacement for
        the bytes pushed so far.  `suf` holds the six bytes copied from the instruction and whatever
        follows them in memory, which the 64-bit loads may touch. */
    method AppendModrm(newops: nat, modrm: byte, suf: seq<byte>) returns (next: nat)
      requires |suf| >= 9 && Mod(modrm) != 3
      requires 1 <= newops && newops + 9 <= ops.Length && ops[newops - 1] == modrm && stackOffset < 0x80
      modifies ops
      ensures next == newops + |NewSuffix(modrm, suf, stackOffset)|
      ensures ops[..next] == old(ops[..newops - 1]) + [NewModrm(RegField(modrm), modrm, suf)]
                             + NewSuffix(modrm, suf, stackOffset)
      ensures forall i :: next + 4 <= i < ops.Length ==> ops[i] == old(ops[i])
    {
      NewModrmValue(modrm, suf);
      ghost var head := ops[..newops - 1];
      assert ops[..newops] == head + [modrm];
      next := AppendSib(newops, modrm, suf);
      if Mod(modrm) == 0 && EspRelative(modrm, suf) {
        next := PatchDisp8(next, modrm, suf[0], head);
      } else {
        next := AppendDisp(next, modrm, suf);
        Assoc(head + [modrm], if HasSib(modrm) then [suf[0]] else [], NewDisp(modrm, suf, stackOffset));
      }
    }

    method LeaModrm(newops: nat, dst: int, modrm: byte, suf: seq<byte>, rexB: bool) returns (next: nat)
      requires |suf| >= 9 && Mod(modrm) != 3 && 0 <= dst < 8
      requires newops + 12 <= ops.Length && stackOffset < 0x80
      modifies ops
      ensures next == newops + |LeaBytes(dst, modrm, suf, rexB, stackOffset)|
      ensures ops[..next] == old(ops[..newops]) + LeaBytes(dst, modrm, suf, rexB, stackOffset)
      ensures forall i :: next + 4 <= i < ops.Length ==> ops[i] == old(ops[i])
    {
      var raw := 64 * Mod(modrm) + 8 * dst + Rm(modrm);
      var prefix := if rexB then 0x49 else 0x48;
      ops[newops] := prefix;
      ops[newops + 1] := 0x8d;
      ops[newops + 2] := raw;
      assert ops[..newops + 2] == old(ops[..newops]) + [prefix, 0x8d];
      RawFields(Mod(modrm), dst, Rm(modrm));
      SameOperand(modrm, raw, suf, stackOffset);
      next := AppendModrm(newops + 3, raw, suf);
      Regroup(old(ops[..newops]), prefix, 0x8d, NewModrm(dst, modrm, suf), NewSuffix(modrm, suf, stackOffset));
    }

    /** The k-th register of the save sequence. */
    method Save(newops: nat, r: reg, ghost k: nat, ghost head: seq<byte>) returns (next: nat)
      requires k < |SAVED| && r == SAVED[k]
      requires newops + 2 <= ops.Length && ops[..newops] == head + SaveBytes(SAVED[..k])
      modifies this`stackOffset, ops
      ensures newops < next <= newops + 2
      ensures ops[..next] == head + SaveBytes(SAVED[..k + 1])
      ensures stackOffset == old(stackOffset) + 8
      ensures forall i :: next <= i < ops.Length ==> ops[i] == old(ops[i])
    {
      next := PushReg(newops, r);
      SaveSnoc(SAVED[..k], r);
      assert SAVED[..k] + [r] == SAVED[..k + 1];
    }

    /** The k-th register of the restore sequence. */
    method Restore(newops: nat, r: reg, ghost k: nat, ghost head: seq<byte>) returns (next: nat)
      requires k < |SAVED| && r == SAVED[|SAVED| - 1 - k] && stackOffset >= 8
      requires newops + 2 <= ops.Length && ops[..newops] == head + RestoreBytes(Reversed(SAVED)[..k])
      modifies this`stackOffset, ops
      ensures newops < next <= newops + 2
      ensures ops[..next] == head + RestoreBytes(Reversed(SAVED)[..k + 1])
      ensures stackOffset == old(stackOffset) - 8
      ensures forall i :: next <= i < ops.Length ==> ops[i] == old(ops[i])
    {
      next := PopReg(newops, r);
      ghost var rs := Reversed(SAVED);
      RestoreSnoc(rs[..k], r);
      assert rs[..k] + [r] == rs[..k + 1];
    }

    /** Save rax, rcx, rdx, rsi and rdi. */
    method SaveLow(newops: nat, ghost head: seq<byte>) returns (next: nat)
      requires newops + 10 <= ops.Length && ops[..newops] == head
      modifies this`stackOffset, ops
      ensures newops < next <= newops + 10 && ops[..next] == head + SaveBytes(SAVED[..5])
      ensures stackOffset == old(stackOffset) + 40
      ensures forall i :: next <= i < ops.Length ==> ops[i] == old(ops[i])
    {
      next := Save(newops, 0, 0, head);
      next := Save(next, 1, 1, head);
      next := Save(next, 2, 2, head);
      next := Save(next, 6, 3, head);
      next := Save(next, 7, 4, head);
    }

    /** Save r8 to r11. */
    method SaveHigh(newops: nat, ghost head: seq<byte>) returns (next: nat)
      requires newops + 8 <= ops.Length && ops[..newops] == head + SaveBytes(SAVED[..5])
      modifies this`stackOffset, ops
      ensures newops < next <= newops + 8 && ops[..next] == head + SaveBytes(SAVED)
      ensures stackOffset == old(stackOffset) + 32
      ensures forall i :: next <= i < ops.Length ==> ops[i] == old(ops[i])
    {
      next := Save(newops, 8, 5, head);
      next := Save(next, 9, 6, head);
      next := Save(next, 10, 7, head);
      next := Save(next, 11, 8, head);
      assert SAVED[..9] == SAVED;
    }

    /** Restore r11 to r8. */
    method RestoreHigh(newops: nat, ghost head: seq<byte>) returns (next: nat)
      requires newops + 8 <= ops.Length && ops[..newops] == head && stackOffset >= 32
      modifies this`stackOffset, ops
      ensures newops < next <= newops + 8 && ops[..next] == head + RestoreBytes(Reversed(SAVED)[..4])
      ensures stackOffset == old(stackOffset) - 32
      ensures forall i :: next <= i < ops.Length ==> ops[i] == old(ops[i])
    {
      next := Restore(newops, 11, 0, head);
      next := Restore(next, 10, 1, head);
      next := Restore(next, 9, 2, head);
      next := Restore(next, 8, 3, head);
    }

    /** Restore rdi, rsi, rdx, rcx and rax. */
    method RestoreLow(newops: nat, ghost head: seq<byte>) returns (next: nat)
      requires newops + 10 <= ops.Length && ops[..newops] == head + RestoreBytes(Reversed(SAVED)[..4])
      requires stackOffset >= 40
      modifies this`stackOffset, ops
      ensures newops < next <= newops + 10 && ops[..next] == head + RestoreBytes(Reversed(SAVED))
      ensures stackOffset == old(stackOffset) - 40
      ensures forall i :: next <= i < ops.Length ==> ops[i] == old(ops[i])
    {
      next := Restore(newops, 7, 4, head);
      next := Restore(next, 6, 5, head);
      next := Restore(next, 2, 6, head);
      next := Restore(next, 1, 7, head);
      next := Restore(next, 0, 8, head);
      assert Reversed(SAVED)[..9] == Reversed(SAVED);
    }

    /** The source is not rsi: its value survives the `lea`. */
    method ShuffleAfter(newops: nat, rex: Rex, modrm: byte, suf: seq<byte>) returns (next: nat)
      requires |suf| >= 9 && Mod(modrm) != 3 && newops + 18 <= ops.Length && stackOffset < 0x80
      requires RegField(modrm) != RSI || rex.r
      modifies ops
      ensures next == newops + |ShuffleBytes(rex, modrm, suf, stackOffset)| <= newops + 14
      ensures ops[..next] == old(ops[..newops]) + ShuffleBytes(rex, modrm, suf, stackOffset)
      ensures forall i :: next + 4 <= i < ops.Length ==> ops[i] == old(ops[i])
    {
      LeaLength(RSI, modrm, suf, rex.b, stackOffset);
      next := LeaModrm(newops, RSI, modrm, suf, rex.b);
      if !(RegField(modrm) == RDI && !rex.r) {
        ghost var lea := LeaBytes(RSI, modrm, suf, rex.b, stackOffset);
        next := MovRegToReg(next, RegField(modrm), RDI, rex.r);
        Assoc(old(ops[..newops]), lea, MovBytes(RegField(modrm), rex.r, RDI));
      }
    }

    /** The source is rsi, which the `lea` overwrites. */
    method ShuffleRsi(newops: nat, rex: Rex, modrm: byte, suf: seq<byte>) returns (next: nat)
      requires |suf| >= 9 && Mod(modrm) != 3 && newops + 18 <= ops.Length && stackOffset < 0x80
      requires RegField(modrm) == RSI && !rex.r
      modifies ops
      ensures next == newops + |ShuffleBytes(rex, modrm, suf, stackOffset)| <= newops + 14
      ensures ops[..next] == old(ops[..newops]) + ShuffleBytes(rex, modrm, suf, stackOffset)
      ensures forall i :: next + 4 <= i < ops.Length ==> ops[i] == old(ops[i])
    {
      LeaLength(RSI, modrm, suf, rex.b, stackOffset);
      ghost var head := ops[..newops];
      ghost var lea := LeaBytes(RSI, modrm, suf, rex.b, stackOffset);
      if Rm(modrm) == RDI {
        next := MovRegToReg(newops, RSI, RCX, false);
        next := LeaModrm(next, RSI, modrm, suf, rex.b);
        next := MovRegToReg(next, RCX, RDI, false);
        Assoc(head, MovBytes(RSI, false, RCX), lea);
        Assoc(head, MovBytes(RSI, false, RCX) + lea, MovBytes(RCX, false, RDI));
      } else {
        next := MovRegToReg(newops, RSI, RDI, false);
        next := LeaModrm(next, RSI, modrm, suf, rex.b);
        Assoc(head, MovBytes(RSI, false, RDI), lea);
      }
    }

    /** Saves, shuffle and call. */
    method EmitCall(start: nat, rex: Rex, modrm: byte, suf: seq<byte>, func: word, ghost body: seq<byte>)
      returns (newops: nat)
      requires |suf| >= 9 && Mod(modrm) != 3 && start + 41 <= ops.Length
      requires body == ShuffleBytes(rex, modrm, suf, 72)
      modifies this`stackOffset, ops
      ensures start <= newops <= start + 37 && stackOffset == 72
      ensures ops[..newops] == CalledBytes(old(ops[..start]), body, base, func, SAVED)
      ensures forall i :: newops <= i < ops.Length ==> ops[i] == old(ops[i])
    {
      newops := EmitSaves(start, ops[..start]);
      newops := Shuffle(newops, rex, modrm, suf, body);
      newops := Call(newops, func);
    }

    method EmitSaves(start: nat, ghost head: seq<byte>) returns (newops: nat)
      requires start + 18 <= ops.Length && ops[..start] == head
      modifies this`stackOffset, ops
      ensures start < newops <= start + 18 && ops[..newops] == head + SaveBytes(SAVED) && stackOffset == 72
      ensures forall i :: newops <= i < ops.Length ==> ops[i] == old(ops[i])
    {
      stackOffset := 0;
      newops := SaveLow(start, head);
      newops := SaveHigh(newops, head);
    }

    /** Source to rdi, address to rsi. */
    method Shuffle(newops: nat, rex: Rex, modrm: byte, suf: seq<byte>, ghost body: seq<byte>) returns (next: nat)
      requires |suf| >= 9 && Mod(modrm) != 3 && newops + 18 <= ops.Length && stackOffset == 72
      requires body == ShuffleBytes(rex, modrm, suf, 72)
      modifies ops
      ensures next == newops + |body| <= newops + 14 && ops[..next] == old(ops[..newops]) + body
      ensures forall i :: next + 4 <= i < ops.Length ==> ops[i] == old(ops[i])
    {
      if RegField(modrm) != RSI || rex.r {
        next := ShuffleAfter(newops, rex, modrm, suf);
      } else {
        next := ShuffleRsi(newops, rex, modrm, suf);
      }
    }

    method EmitReplacement(start: nat, rex: Rex, modrm: byte, suf: seq<byte>, func: word,
                           ghost body: seq<byte>, ghost called: seq<byte>, ghost out: seq<byte>)
      returns (newops: nat)
      requires |suf| >= 9 && Mod(modrm) != 3 && start + 55 <= ops.Length
      requires body == ShuffleBytes(rex, modrm, suf, 72) && called == CalledBytes(ops[..start], body, base, func, SAVED)
      requires called + RestoreBytes(Reversed(SAVED)) == ops[..start] + out
      modifies this`stackOffset, ops
      ensures newops == start + |out| <= ops.Length && stackOffset == 0
      ensures ops[..newops] == old(ops[..start]) + out && ops[newops..] == old(ops[newops..])
    {
      newops := EmitCall(start, rex, modrm, suf, func, body);
      newops := EmitRestores(newops, called);
    }

    method EmitRestores(newops: nat, ghost called: seq<byte>) returns (next: nat)
      requires newops + 18 <= ops.Length && ops[..newops] == called && stackOffset == 72
      modifies this`stackOffset, ops
      ensures newops < next <= newops + 18 && ops[..next] == called + RestoreBytes(Reversed(SAVED))
      ensures stackOffset == 0
      ensures forall i :: next <= i < ops.Length ==> ops[i] == old(ops[i])
    {
      next := RestoreHigh(newops, called);
      next := RestoreLow(next, called);
    }

    /** The parts of the store at `start` that the rewriter copies before it overwrites them;
        `junk` is what lies after the copied operand bytes. */
    method ReadStore(start: nat, junk: seq<byte>, ghost s: Site) returns (rex: Rex, modrm: byte, suf: seq<byte>)
      requires start + 9 <= ops.Length && |junk| == 3
      requires s == SiteOf(ops[start..start + 9], s.at, s.func, s.saved)
      ensures |suf| == 9 && s.rex == rex && s.modrm == modrm && s.suf == suf[..6]
    {
      rex := NoRex;
      var op := start;
      if IsRex(ops[start]) {
        rex := RexOf(ops[start]);
        op := start + 1;
      }
      modrm := ops[op + 1];
      suf := ops[op + 2..op + 8] + junk;
    }

    method Rewrite(start: nat, end: nat, rex: Rex, modrm: byte, suf: seq<byte>, func: word,
                   ghost s: Site, ghost out: seq<byte>)
      returns (ok: bool)
      requires start + 55 <= ops.Length && IsStore(s) && s.saved == SAVED && s.at == base + start && s.func == func
      requires |suf| == 9 && s.rex == rex && s.modrm == modrm && s.suf == suf[..6] && out == NewBytes(s)
      modifies this`stackOffset, ops
      ensures stackOffset == 0 && start + |out| <= ops.Length
      ensures ops[..start + |out|] == old(ops[..start]) + out
      ensures ok <==> start + |out| <= end
      ensures ops[start + |out|..] == old(ops[start + |out|..])
    {
      ghost var body, called := Plan(s, suf, ops[..start], base);
      var newops := EmitReplacement(start, rex, modrm, suf, func, body, called, out);
      ok := newops <= end;
    }

    /** Replace the store at `start`, which is site `s`, by a call to `writeFunc`.  The bytes are
        written before the room up to `end` is checked, as in the original. */
    method ApplyDeviceStore(start: nat, end: nat, writeFunc: word, junk: seq<byte>, ghost s: Site) returns (ok: bool)
      requires start + 55 <= ops.Length && |junk| == 3
      requires s == SiteOf(ops[start..start + 9], base + start, writeFunc, SAVED) && IsStore(s)
      modifies this`stackOffset, ops
      ensures stackOffset == 0 && start + |NewBytes(s)| <= ops.Length
      ensures ops[..start + |NewBytes(s)|] == old(ops[..start]) + NewBytes(s)
      ensures ok <==> start + |NewBytes(s)| <= end
      ensures ops[start + |NewBytes(s)|..] == old(ops[start + |NewBytes(s)|..])
    {
      var rex, modrm, suf := ReadStore(start, junk, s);
      ok := Rewrite(start, end, rex, modrm, suf, writeFunc, s, NewBytes(s));
    }
  }
}
