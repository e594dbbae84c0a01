/** Packing boot modules into a virtual machine, from the top of its memory downward. */
module BootModules {

  const WORD := 0x1_0000_0000
  const PAGE := 0x1000

  type byte = x: int | 0 <= x < 256

  /** Round down to a page. */
  function PageDown(a: nat): nat { a - a % PAGE }

  /** A half-open range of addresses. */
  datatype Range = Range(start: int, end: int)

  /** The original's test of [s1, e1) against [s2, e2). */
  predicate RegionConflict(s1: int, e1: int, s2: int, e2: int) {
    (s2 < s1 && e2 > s1) || (s2 < e1 && e2 > s1)
  }

  predicate FpageConflict(fp: Range, start: int, end: int) {
    (start < fp.start && end > fp.start) || (start < fp.end && end > fp.start)
  }

  predicate Within(r: Range, x: int) { r.start <= x < r.end }

  ghost predicate Meets(a: Range, b: Range) {
    exists x :: Within(a, x) && Within(b, x)
  }

  /** For nonempty ranges the tests say whether some address is in both. */
  lemma ConflictIsOverlap(s1: int, e1: int, s2: int, e2: int)
    requires s1 < e1 && s2 < e2
    ensures RegionConflict(s1, e1, s2, e2) <==> Meets(Range(s1, e1), Range(s2, e2))
    ensures FpageConflict(Range(s2, e2), s1, e1) <==> Meets(Range(s1, e1), Range(s2, e2))
  {
    var x := if s1 < s2 then s2 else s1;
    if s2 < e1 && s1 < e2 { assert Within(Range(s1, e1), x) && Within(Range(s2, e2), x); }
  }

  /** How a machine's memory is laid out. */
  datatype Layout = Layout(len: nat, vaddrOffset: nat, wedgePaddr: nat, wedgeVaddr: nat, wedgeSize: nat,
                           binary: Range, kip: Range, utcb: Range, maxModules: nat)

  /** client_paddr_to_vaddr for an address inside the machine. */
  function ToVirtual(l: Layout, paddr: nat): nat {
    if paddr >= l.wedgePaddr && paddr < (l.wedgePaddr + l.wedgeSize) % WORD then (paddr + l.wedgeVaddr) % WORD
    else (paddr + l.vaddrOffset) % WORD
  }

  /** A module as the machine is told about it. */
  datatype Entry = Entry(offset: nat, size: nat)

  /** A boot module: its bytes, whether it starts another machine, and whether its command line fits. */
  datatype Module = Module(data: seq<byte>, vmstart: bool, cmdlineFits: bool)

  function Target(ceiling: nat, size: nat): nat
    requires size <= ceiling
  {
    PageDown(ceiling - size)
  }

  /** The tests of a module's virtual range, whose end is a word, against the ELF binary, the KIP and
      the UTCB area. */
  predicate Unobstructed(l: Layout, e: Entry) {
    var v := ToVirtual(l, e.offset);
    var end := (v + e.size) % WORD;
    && !RegionConflict(v, end, l.binary.start, l.binary.end)
    && !FpageConflict(l.kip, v, end)
    && !FpageConflict(l.utcb, v, end)
  }

  // ---------- Virtual ranges that wrap ----------

  /** Some address of the `size` bytes from `v` on, taken as words, is in the area. */
  ghost predicate Shares(v: int, size: int, area: Range) {
    exists x :: Within(area, x) && (v <= x < v + size || x < v + size - WORD)
  }

  predicate Proper(area: Range) { 0 <= area.start < area.end < WORD }

  /** The area is wholly between the wrapped end and the start. */
  predicate Between(v: int, size: int, area: Range) {
    area.end <= v && v + size - WORD <= area.start
  }

  lemma SharesIff(v: int, size: int, area: Range)
    requires 0 <= v < WORD && 0 < size < WORD && Proper(area)
    ensures Shares(v, size, area) <==>
      if v + size < WORD then area.start < v + size && v < area.end else v < area.end || area.start < v + size - WORD
  {
    if v < area.end && area.start < v + size {
      assert Within(area, if area.start < v then v else area.start);
    }
    if area.start < v + size - WORD { assert Within(area, area.start); }
  }

  /** The region test is right exactly for ranges that do not reach the end of the address space,
      around an area that holds their start, or beside an area between end and start. */
  lemma RegionTestIff(v: int, size: int, area: Range)
    requires 0 <= v < WORD && 0 < size < WORD && Proper(area)
    ensures RegionConflict(v, (v + size) % WORD, area.start, area.end) == Shares(v, size, area) <==>
      v + size < WORD || area.start < v < area.end || Between(v, size, area)
  {
    SharesIff(v, size, area);
    WordEnd(v, size);
  }

  lemma FpageTestIff(v: int, size: int, area: Range)
    requires 0 <= v < WORD && 0 < size < WORD && Proper(area)
    ensures FpageConflict(area, v, (v + size) % WORD) == Shares(v, size, area) <==>
      v + size < WORD || (v < area.end && area.start < v + size - WORD) || Between(v, size, area)
  {
    SharesIff(v, size, area);
    WordEnd(v, size);
  }

  lemma WordEnd(v: int, size: int)
    requires 0 <= v < WORD && 0 < size < WORD
    ensures (v + size) % WORD == if v + size < WORD then v + size else v + size - WORD
  {
  }

  predicate Accepts(l: Layout, ceiling: nat, size: nat) {
    && size <= ceiling
    && Target(ceiling, size) < l.len
    && Unobstructed(l, Entry(Target(ceiling, size), size))
    && (Target(ceiling, size) + size - 1) % WORD < l.len
  }

  // ---------- Packed modules ----------

  /** Where the next module must end. */
  function Ceiling(es: seq<Entry>, top: nat): nat {
    if es == [] then top else es[|es| - 1].offset
  }

  /** Page-aligned ranges, each ending at or below the start of the one before, from `top` down. */
  predicate Stacked(es: seq<Entry>, top: nat) {
    forall i :: 0 <= i < |es| ==> Placed(es, top, i)
  }

  predicate Placed(es: seq<Entry>, top: nat, i: nat)
    requires i < |es|
  {
    es[i].offset % PAGE == 0 && es[i].offset + es[i].size <= Ceiling(es[..i], top)
  }

  lemma {:induction false} StackedApart(es: seq<Entry>, top: nat, i: nat, j: nat)
    requires Stacked(es, top) && i < j < |es|
    ensures es[j].offset + es[j].size <= es[i].offset && es[i].offset + es[i].size <= top
  {
    assert Placed(es, top, j) && Ceiling(es[..j], top) == es[j - 1].offset;
    StackedBelow(es, top, i);
    if i < j - 1 { StackedApart(es, top, i, j - 1); }
  }

  lemma {:induction false} StackedBelow(es: seq<Entry>, top: nat, i: nat)
    requires Stacked(es, top) && i < |es|
    ensures es[i].offset + es[i].size <= top
  {
    assert Placed(es, top, i);
    if i > 0 {
      assert Ceiling(es[..i], top) == es[i - 1].offset;
      StackedBelow(es, top, i - 1);
    }
  }

  lemma StackedGrows(es: seq<Entry>, top: nat, size: nat)
    requires Stacked(es, top) && size <= Ceiling(es, top)
    ensures Stacked(es + [Entry(Target(Ceiling(es, top), size), size)], top)
  {
    var fs := es + [Entry(Target(Ceiling(es, top), size), size)];
    forall i | 0 <= i < |fs| ensures Placed(fs, top, i) {
      if i < |es| { assert Placed(es, top, i) && fs[..i] == es[..i]; } else { assert fs[..i] == es; }
    }
  }

  /** Memory holds the bytes of each module at its entry. */
  predicate Holds(mem: seq<byte>, es: seq<Entry>, ms: seq<Module>) {
    |es| == |ms| && forall i :: 0 <= i < |es| ==> HoldsAt(mem, es[i], ms[i])
  }

  predicate HoldsAt(mem: seq<byte>, e: Entry, m: Module) {
    e.offset + e.size <= |mem| && mem[e.offset..e.offset + e.size] == m.data
  }

  function Copied(mem: seq<byte>, t: nat, data: seq<byte>): seq<byte>
    requires t + |data| <= |mem|
  {
    mem[..t] + data + mem[t + |data|..]
  }

  lemma CopyKeepsOne(mem: seq<byte>, t: nat, data: seq<byte>, e: Entry, m: Module)
    requires t + |data| <= |mem| && t + |data| <= e.offset && HoldsAt(mem, e, m)
    ensures HoldsAt(Copied(mem, t, data), e, m)
  {
    var mem' := Copied(mem, t, data);
    assert mem'[e.offset..e.offset + e.size] == mem[e.offset..e.offset + e.size];
  }

  lemma CopyAddsOne(mem: seq<byte>, t: nat, m: Module)
    requires t + |m.data| <= |mem|
    ensures HoldsAt(Copied(mem, t, m.data), Entry(t, |m.data|), m)
  {
    assert Copied(mem, t, m.data)[t..t + |m.data|] == m.data;
  }

  /** A copy below the ceiling leaves the modules above it intact, whether or not it is entered. */
  lemma CopyBelowKeeps(mem: seq<byte>, es: seq<Entry>, ms: seq<Module>, top: nat, m: Module, t: nat)
    requires Stacked(es, top) && top <= |mem| && Holds(mem, es, ms)
    requires |m.data| <= Ceiling(es, top) && t == Target(Ceiling(es, top), |m.data|) && t + |m.data| <= |mem|
    ensures Holds(Copied(mem, t, m.data), es, ms)
  {
    forall i | 0 <= i < |es| ensures HoldsAt(Copied(mem, t, m.data), es[i], ms[i]) {
      if i < |es| - 1 { StackedApart(es, top, i, |es| - 1); }
      CopyKeepsOne(mem, t, m.data, es[i], ms[i]);
    }
  }

  /** An entered copy adds its own module to them. */
  lemma CopyKeeps(mem: seq<byte>, es: seq<Entry>, ms: seq<Module>, top: nat, m: Module, t: nat)
    requires Stacked(es, top) && top <= |mem| && Holds(mem, es, ms)
    requires |m.data| <= Ceiling(es, top) && t == Target(Ceiling(es, top), |m.data|) && t + |m.data| <= |mem|
    ensures Holds(Copied(mem, t, m.data), es + [Entry(t, |m.data|)], ms + [m])
  {
    CopyAddsOne(mem, t, m);
    CopyBelowKeeps(mem, es, ms, top, m, t);
  }

  /** The first module that starts another machine, or the number of modules. */
  function FirstVmstart(ms: seq<Module>): (n: nat)
    ensures n <= |ms| && (forall i :: 0 <= i < n ==> !ms[i].vmstart) && (n < |ms| ==> ms[n].vmstart)
  {
    if ms == [] || ms[0].vmstart then 0 else 1 + FirstVmstart(ms[1..])
  }

  lemma PrefixGrows(ms: seq<Module>, n: nat)
    requires n < |ms|
    ensures ms[..n] + [ms[n]] == ms[..n + 1]
  {
  }

  /** The modules are in memory, stacked from the top, and passed the tests. */
  ghost predicate Packed(l: Layout, es: seq<Entry>, mem: seq<byte>, ms: seq<Module>) {
    && Stacked(es, l.len) && Holds(mem, es, ms)
    && forall i :: 0 <= i < |es| ==> Unobstructed(l, es[i])
  }

  /** An accepted copy keeps what is packed and, when it is entered, is packed itself. */
  lemma PackedAfterCopy(l: Layout, es: seq<Entry>, mem: seq<byte>, ms: seq<Module>, m: Module)
    requires Packed(l, es, mem, ms) && l.len == |mem| && Accepts(l, Ceiling(es, l.len), |m.data|)
    requires Target(Ceiling(es, l.len), |m.data|) + |m.data| <= |mem|
    ensures var t := Target(Ceiling(es, l.len), |m.data|);
      && Packed(l, es, Copied(mem, t, m.data), ms)
      && Packed(l, es + [Entry(t, |m.data|)], Copied(mem, t, m.data), ms + [m])
  {
    var t := Target(Ceiling(es, l.len), |m.data|);
    StackedGrows(es, l.len, |m.data|);
    CopyBelowKeeps(mem, es, ms, l.len, m, t);
    CopyKeeps(mem, es, ms, l.len, m, t);
  }

  /** The next module below those already entered is accepted, and there is room to enter it. */
  predicate Takes(l: Layout, es: seq<Entry>, m: Module) {
    Accepts(l, Ceiling(es, l.len), |m.data|) && |es| < l.maxModules && m.cmdlineFits
  }

  class Guest {
    const layout: Layout
    // Guest-physical memory.
    const memory: array<byte>
    var modules: seq<Entry>

    ghost predicate Valid()
      reads this
    {
      memory.Length == layout.len < WORD && |modules| <= layout.maxModules
    }

    constructor (l: Layout, m: array<byte>)
      requires m.Length == l.len < WORD
      ensures Valid() && layout == l && memory == m && modules == []
    {
      layout, memory, modules := l, m, [];
    }

    /** Copy a module below `ceiling`.  A module that is refused late may already be in memory. */
    method InstallModule(ceiling: nat, m: Module) returns (ok: bool)
      requires Valid() && ceiling < WORD
      modifies this`modules, memory
      ensures Valid()
      ensures ok <==> Accepts(layout, ceiling, |m.data|) && |old(modules)| < layout.maxModules && m.cmdlineFits
      ensures modules == if ok then old(modules) + [Entry(Target(ceiling, |m.data|), |m.data|)] else old(modules)
      ensures Accepts(layout, ceiling, |m.data|) ==> Target(ceiling, |m.data|) + |m.data| <= layout.len
      ensures memory[..] == if Accepts(layout, ceiling, |m.data|) then Copied(old(memory[..]), Target(ceiling, |m.data|), m.data)
                            else old(memory[..])
    {
      var size := |m.data|;
      if size > ceiling {
        return false;
      }
      var target := Target(ceiling, size);
      if target >= layout.len {
        return false;
      }
      var v := ToVirtual(layout, target);
      var end := (v + size) % WORD;
      if RegionConflict(v, end, layout.binary.start, layout.binary.end) {
        return false;
      }
      if FpageConflict(layout.kip, v, end) || FpageConflict(layout.utcb, v, end) {
        return false;
      }
      if (target + size - 1) % WORD >= layout.len {
        return false;
      }
      Copy(target, m.data);
      if |modules| >= layout.maxModules {
        return false;
      }
      if !m.cmdlineFits {
        return false;
      }
      modules := modules + [Entry(target, size)];
      return true;
    }

    method Copy(target: nat, data: seq<byte>)
      requires target + |data| <= memory.Length
      modifies memory
      ensures memory[..] == Copied(old(memory[..]), target, data)
    {
      for i := 0 to |data|
        invariant forall j :: 0 <= j < i ==> memory[target + j] == data[j]
        invariant forall j :: 0 <= j < memory.Length && !(target <= j < target + i) ==> memory[j] == old(memory[j])
      {
        memory[target + i] := data[i];
      }
    }

    /** The modules `ms` are installed, one below the other. */
    ghost predicate Loaded(ms: seq<Module>)
      reads this, memory
    {
      Packed(layout, modules, memory[..], ms)
    }

    /** One turn of the module loop; the caller computes the next ceiling by itself. */
    method LoadOne(ceiling: nat, m: Module, ghost ms: seq<Module>) returns (ok: bool, next: nat)
      requires Valid() && Loaded(ms) && ceiling == Ceiling(modules, layout.len) < WORD
      modifies this`modules, memory
      ensures Valid() && (ok <==> Takes(layout, old(modules), m))
      ensures ok ==> Loaded(ms + [m]) && next == Ceiling(modules, layout.len) < WORD
      ensures !ok ==> Loaded(ms) && modules == old(modules)
    {
      next := ceiling;
      ghost var mem, es := memory[..], modules;
      ok := InstallModule(ceiling, m);
      if Accepts(layout, ceiling, |m.data|) {
        PackedAfterCopy(layout, es, mem, ms, m);
      }
      if !ok {
        return;
      }
      next := ceiling - |m.data|;
      if next % PAGE != 0 {
        next := PageDown(next);
      }
    }

    /** The module loop of load_current_module: install modules below one another until the next
        machine's definition. */
    method LoadModules(mods: seq<Module>) returns (ok: bool, n: nat)
      requires Valid() && modules == []
      modifies this`modules, memory
      ensures Valid() && n <= FirstVmstart(mods) && Loaded(mods[..n])
      ensures ok <==> n == FirstVmstart(mods)
      ensures !ok ==> !Takes(layout, modules, mods[n])
    {
      var ceiling := layout.len;
      ghost var done := [];
      n := 0;
      while n < |mods|
        invariant Valid() && n <= FirstVmstart(mods) && ceiling == Ceiling(modules, layout.len) < WORD
        invariant done == mods[..n] && Loaded(done)
      {
        if mods[n].vmstart {
          break;
        }
        ok, ceiling := LoadOne(ceiling, mods[n], done);
        if !ok {
          return false, n;
        }
        PrefixGrows(mods, n);
        done := done + [mods[n]];
        n := n + 1;
      }
      ok := true;
    }
  }

  /** Two modules of one machine never share a byte, and each lies inside the machine. */
  lemma ModulesDisjoint(es: seq<Entry>, top: nat, i: nat, j: nat)
    requires Stacked(es, top) && i < |es| && j < |es| && i != j
    ensures !Meets(Range(es[i].offset, es[i].offset + es[i].size), Range(es[j].offset, es[j].offset + es[j].size))
    ensures es[i].offset % PAGE == 0 && es[i].offset + es[i].size <= top
  {
    StackedBelow(es, top, i);
    assert Placed(es, top, i);
    if i < j { StackedApart(es, top, i, j); } else { StackedApart(es, top, j, i); }
  }

  /** An accepted module's virtual range misses an area exactly if it does not wrap, or the area lies
      between its wrapped end and its start. */
  lemma AcceptedMissesIff(l: Layout, e: Entry)
    requires Unobstructed(l, e) && 0 < e.size < WORD && Proper(l.binary) && Proper(l.kip) && Proper(l.utcb)
    ensures var v := ToVirtual(l, e.offset);
      forall area :: area in {l.binary, l.kip, l.utcb} ==>
        (!Shares(v, e.size, area) <==> v + e.size < WORD || Between(v, e.size, area))
  {
    var v := ToVirtual(l, e.offset);
    RegionTestIff(v, e.size, l.binary);
    FpageTestIff(v, e.size, l.kip);
    FpageTestIff(v, e.size, l.utcb);
    SharesIff(v, e.size, l.binary);
    SharesIff(v, e.size, l.kip);
    SharesIff(v, e.size, l.utcb);
  }

  /** A module that wraps past the end of the address space and is accepted on top of the binary. */
  lemma WrappedModuleOverlaps(l: Layout)
    requires l.len == 0x4040_0000 && l.vaddrOffset == 0xC000_0000 && l.wedgeSize == 0
    requires l.binary == Range(0xFFFF_F000, 0xFFFF_F800) && l.kip == Range(0x1000, 0x2000) && l.utcb == Range(0x2000, 0x3000)
    ensures Accepts(l, 0x4000_1000, 0x2000) && Shares(ToVirtual(l, Target(0x4000_1000, 0x2000)), 0x2000, l.binary)
  {
    assert Target(0x4000_1000, 0x2000) == 0x3FFF_F000;
    SharesIff(0xFFFF_F000, 0x2000, l.binary);
  }
}
