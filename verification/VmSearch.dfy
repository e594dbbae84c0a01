/** The resource monitor's search for host memory, in word arithmetic: a machine that skips ahead
    past other virtual machines and past reserved memory of the kernel. */
module VmSearch {

  // Addresses and sizes are 32-bit words; the search lets their sums wrap.
  const WORD := 0x1_0000_0000
  const MB4 := 0x40_0000

  // ---------- Kernel memory descriptors ----------

  datatype Kind = Conventional | Shared | OtherKind

  /** A descriptor of the kernel interface page: bounds in units of 1KB, the upper one inclusive. */
  datatype MemDesc = MemDesc(low: nat, high: nat, isVirtual: bool, kind: Kind) {
    predicate Valid() { low <= high < 0x40_0000 }

    function Low(): int { 1024 * low }

    function High(): int { 1024 * high + 1023 }

    /** Memory that no virtual machine may use; the all-covering shared descriptor is bogus. */
    predicate Reserved() {
      && !isVirtual
      && kind != Conventional
      && !(kind == Shared && Low() == 0 && High() + 1 == WORD)
    }
  }

  function RoundUp(addr: int): (r: int)
    ensures r % MB4 == 0 && (0 <= addr < WORD ==> 0 <= r < WORD)
  {
    if addr % MB4 != 0 then (addr + MB4 - addr % MB4) % WORD else addr
  }

  /** The original's test of [start, end] against a descriptor. */
  predicate TestsConflict(d: MemDesc, start: int, end: int) {
    || (start < d.Low() && end >= d.Low())
    || (start < d.High() && end >= d.High())
    || (start >= d.Low() && end <= d.High())
  }

  predicate Overlaps(d: MemDesc, start: int, size: int) {
    start <= d.High() && d.Low() < start + size
  }

  /** The test is an overlap test, but for blocks that start on the descriptor's last byte. */
  lemma TestIsOverlap(d: MemDesc, start: int, size: int)
    requires d.Valid() && size > 0
    ensures TestsConflict(d, start, start + size - 1) <==> Overlaps(d, start, size) && (start != d.High() || size == 1)
  {
  }

  /** The address where the search goes on after a conflict with a descriptor. */
  function After(d: MemDesc): (next: int)
    ensures 0 <= next < WORD && next % MB4 == 0
  {
    RoundUp((d.High() + 1) % WORD)
  }

  // ---------- Blocks ----------

  datatype Block = Block(base: int, len: int) {
    predicate IsWords() { 0 <= base < WORD && 0 <= len < WORD }

    /** Superpages that end inside the address space. */
    predicate Valid() {
      0 <= base && 0 <= len && base + len < WORD && base % MB4 == 0 && len % MB4 == 0
    }

    predicate Misses(start: int, size: int) {
      len == 0 || start + size <= base || start >= base + len
    }
  }

  /** The original's test of [start, start + size) against a machine. */
  predicate TestsVm(b: Block, start: int, size: int) {
    b.len != 0 && (start + size) % WORD > b.base && start < (b.base + b.len) % WORD
  }

  /** The word test is the overlap test exactly for candidates that do not wrap, and for those that
      wrap but miss the machine or wrap past its base. */
  lemma WordTestIff(b: Block, start: int, size: int)
    requires b.Valid() && 0 <= start < WORD && 0 < size < WORD
    ensures TestsVm(b, start, size) == !b.Misses(start, size) <==>
      start + size < WORD || b.Misses(start, size) || start + size - WORD > b.base
  {
    assert start + size >= WORD ==> (start + size) % WORD == start + size - WORD;
  }

  /** Everything a new machine must avoid. */
  datatype Layout = Layout(vms: seq<Block>, descs: seq<MemDesc>) {
    predicate IsWords() {
      && (forall i :: 0 <= i < |vms| ==> vms[i].IsWords())
      && (forall i :: 0 <= i < |descs| ==> descs[i].Valid())
    }

    predicate Valid() {
      && (forall i :: 0 <= i < |vms| ==> vms[i].Valid())
      && (forall i :: 0 <= i < |descs| ==> descs[i].Valid())
    }

    predicate ClearOfVms(start: int, size: int) {
      forall i :: 0 <= i < |vms| ==> vms[i].Misses(start, size)
    }

    predicate ClearOfKip(start: int, size: int) {
      forall i :: 0 <= i < |descs| ==> descs[i].Reserved() ==> !Overlaps(descs[i], start, size)
    }

    /** A 4MB-aligned place for `size` bytes that avoids everything in use. */
    predicate Free(size: int, start: int) {
      0 <= start && start + size < WORD && start % MB4 == 0 && ClearOfVms(start, size) && ClearOfKip(start, size)
    }
  }

  ghost predicate NoneBelow(m: Layout, size: int, start: int) {
    forall c :: c < start ==> !m.Free(size, c)
  }

  ghost predicate NoneFree(m: Layout, size: int) {
    forall c :: !m.Free(size, c)
  }

  // ---------- The search as a machine ----------

  /** A candidate to be tested against machines and descriptors; a candidate that a descriptor moved,
      tested against descriptors only; or the search is over. */
  datatype Probe = Candidate(start: int) | Moved(start: int) | Taken(start: int) | NoRoom {
    predicate Active() { Candidate? || Moved? }

    predicate InRange() { !NoRoom? ==> 0 <= start < WORD && start % MB4 == 0 }
  }

  /** The first machine whose test reports a conflict, or the number of machines. */
  function VmHit(bs: seq<Block>, start: int, size: int): (i: nat)
    ensures i <= |bs| && (forall j :: 0 <= j < i ==> !TestsVm(bs[j], start, size))
    ensures i < |bs| ==> TestsVm(bs[i], start, size)
  {
    if bs == [] || TestsVm(bs[0], start, size) then 0 else 1 + VmHit(bs[1..], start, size)
  }

  predicate TestsKip(d: MemDesc, start: int, size: int) {
    d.Reserved() && TestsConflict(d, start, (start + size - 1) % WORD)
  }

  /** The first reserved descriptor whose test reports a conflict, or the number of descriptors. */
  function KipHit(ds: seq<MemDesc>, start: int, size: int): (i: nat)
    ensures i <= |ds| && (forall j :: 0 <= j < i ==> !TestsKip(ds[j], start, size))
    ensures i < |ds| ==> TestsKip(ds[i], start, size)
  {
    if ds == [] || TestsKip(ds[0], start, size) then 0 else 1 + KipHit(ds[1..], start, size)
  }

  /** One turn of the inner loop: move past the first descriptor in the way, or go on with `clear`. */
  function PastKip(m: Layout, size: int, start: int, clear: Probe): (p: Probe)
    ensures clear.InRange() ==> p.InRange()
  {
    var i := KipHit(m.descs, start, size);
    if i == |m.descs| then clear
    else if After(m.descs[i]) == 0 then NoRoom
    else Moved(After(m.descs[i]))
  }

  function Next(m: Layout, size: int, p: Probe): (q: Probe)
    ensures p.InRange() ==> q.InRange()
  {
    match p
    case Candidate(s) =>
      var i := VmHit(m.vms, s, size);
      if i < |m.vms| then Candidate(RoundUp((m.vms[i].base + m.vms[i].len) % WORD))
      else PastKip(m, size, s, Taken(s))
    case Moved(s) => PastKip(m, size, s, Candidate(s))
    case _ => p
  }

  function Turn(m: Layout, size: int): Probe -> Probe {
    p => Next(m, size, p)
  }

  /** Where the search is after `k` turns. */
  function At(m: Layout, size: int, k: nat): Probe {
    Iterate(Turn(m, size), k)
  }

  ghost predicate Ends(m: Layout, size: int) {
    Halts(Turn(m, size))
  }

  /** How a search that ends has ended. */
  ghost function Final(m: Layout, size: int): (p: Probe)
    requires Ends(m, size)
    ensures !p.Active() && exists k: nat :: At(m, size, k) == p
  {
    var k: nat :| !Iterate(Turn(m, size), k).Active();
    assert At(m, size, k) == Iterate(Turn(m, size), k);
    At(m, size, k)
  }

  // ---------- Deterministic searches ----------

  function Iterate(f: Probe -> Probe, k: nat): Probe {
    if k == 0 then Candidate(0) else f(Iterate(f, k - 1))
  }

  ghost predicate Halts(f: Probe -> Probe) {
    exists k: nat :: !Iterate(f, k).Active()
  }

  /** A search that is over stays as it is. */
  ghost predicate Absorbs(f: Probe -> Probe) {
    forall p: Probe :: !p.Active() ==> f(p) == p
  }

  lemma {:induction false} StaysOver(f: Probe -> Probe, k: nat, n: nat)
    requires Absorbs(f) && !Iterate(f, k).Active() && k <= n
    ensures Iterate(f, n) == Iterate(f, k)
    decreases n
  {
    if k < n { StaysOver(f, k, n - 1); }
  }

  lemma {:induction false} SameEnd(f: Probe -> Probe, k: nat, n: nat)
    requires Absorbs(f) && !Iterate(f, k).Active() && !Iterate(f, n).Active()
    ensures Iterate(f, k) == Iterate(f, n)
  {
    if k <= n { StaysOver(f, k, n); } else { StaysOver(f, n, k); }
  }

  lemma {:induction false} Repeats(f: Probe -> Probe, j: nat, k: nat, n: nat)
    requires Iterate(f, j) == Iterate(f, k)
    ensures Iterate(f, j + n) == Iterate(f, k + n)
  {
    if n > 0 { Repeats(f, j, k, n - 1); }
  }

  /** A search that comes back to a candidate never ends. */
  lemma {:induction false} ReturnNeverHalts(f: Probe -> Probe, j: nat, k: nat)
    requires Absorbs(f) && j < k && Iterate(f, j) == Iterate(f, k) && Iterate(f, j).Active()
    ensures !Halts(f)
  {
    if Halts(f) {
      var e: nat :| !Iterate(f, e).Active();
      var n := j;
      while n < e
        invariant j <= n && Iterate(f, n) == Iterate(f, j)
        decreases e - n
      {
        Repeats(f, j, k, n - j);
        n := n + (k - j);
      }
      StaysOver(f, e, n);
      assert false;
    }
  }

  ghost predicate NoReturn(f: Probe -> Probe, risky: Probe -> bool) {
    forall j: nat, k: nat :: j < k && risky(Iterate(f, j)) ==> Iterate(f, j) != Iterate(f, k)
  }

  predicate Later(p: Probe, q: Probe)
    requires !p.NoRoom? && !q.NoRoom?
  {
    q.start > p.start || (q.start == p.start && p.Moved? && q.Candidate?)
  }

  /** Only risky candidates may send the search back. */
  ghost predicate Advances(f: Probe -> Probe, risky: Probe -> bool) {
    && (forall p: Probe :: p.InRange() ==> f(p).InRange())
    && (forall p: Probe :: p.InRange() && p.Active() && !risky(p) && f(p).Active() ==> Later(p, f(p)))
  }

  ghost function AllProbes(): set<Probe> {
    (set i: nat | i < 1024 :: Candidate(MB4 * i)) + (set i: nat | i < 1024 :: Moved(MB4 * i))
  }

  lemma ProbeListed(p: Probe)
    requires p.Active() && p.InRange()
    ensures p in AllProbes()
  {
    var i := p.start / MB4;
    assert p.start == MB4 * i && i < 1024;
  }

  ghost predicate VisitedBefore(f: Probe -> Probe, k: nat, p: Probe) {
    exists j: nat :: j < k && Iterate(f, j) == p
  }

  /** A search that never comes back to a risky candidate ends. */
  lemma {:induction false} NoReturnHalts(f: Probe -> Probe, risky: Probe -> bool)
    requires Advances(f, risky) && NoReturn(f, risky)
    ensures Halts(f)
  {
    var k: nat := 0;
    var seen: set<Probe> := {};
    while Iterate(f, k).Active()
      invariant Iterate(f, k).InRange() && seen <= AllProbes()
      invariant forall p :: p in seen ==> risky(p) && VisitedBefore(f, k, p)
      decreases Iterate(f, k).Active(), AllProbes() - seen, if Iterate(f, k).NoRoom? then 0 else WORD - Iterate(f, k).start, Iterate(f, k).Moved?
    {
      var p := Iterate(f, k);
      assert Iterate(f, k + 1) == f(p);
      if risky(p) {
        ProbeListed(p);
        assert p !in seen;
        seen := seen + {p};
      }
      assert VisitedBefore(f, k + 1, p);
      forall q | q in seen ensures VisitedBefore(f, k + 1, q) {
        if q != p {
          assert VisitedBefore(f, k, q);
        }
      }
      k := k + 1;
    }
  }

  // ---------- A bound on the turns ----------

  /** Two probes, one of each kind, for every superpage of the address space. */
  const TURNS := 2048

  lemma {:induction false} ProbesCounted(ps: set<Probe>, n: nat)
    requires forall p :: p in ps ==> p.Active() && p.InRange() && p.start < MB4 * n
    ensures |ps| <= 2 * n
  {
    if n == 0 {
      assert ps == {};
    } else {
      var top := {Candidate(MB4 * (n - 1)), Moved(MB4 * (n - 1))};
      ProbesCounted(ps - top, n - 1);
      assert ps == (ps - top) + (ps * top);
      TwoAtMost(ps, Candidate(MB4 * (n - 1)), Moved(MB4 * (n - 1)));
    }
  }

  lemma TwoAtMost(ps: set<Probe>, p: Probe, q: Probe)
    ensures |ps * {p, q}| <= 2
  {
    assert ps * {p, q} <= {p, q};
    assert {p, q} == (ps * {p, q}) + ({p, q} - ps);
  }

  /** A search that is still going on after that many turns has come back to a candidate. */
  lemma {:induction false} Revisits(f: Probe -> Probe, n: nat) returns (j: nat, k: nat)
    requires n >= TURNS && forall i: nat :: i <= n ==> Iterate(f, i).Active() && Iterate(f, i).InRange()
    ensures j < k <= n && Iterate(f, j) == Iterate(f, k)
  {
    var seen: set<Probe> := {};
    k := 0;
    while k <= n
      invariant k <= n + 1 && |seen| == k
      invariant forall p :: p in seen ==> p.Active() && p.InRange() && VisitedBefore(f, k, p)
    {
      var p := Iterate(f, k);
      if p in seen {
        j :| j < k && Iterate(f, j) == p;
        return;
      }
      forall q | q in seen ensures VisitedBefore(f, k + 1, q) { assert VisitedBefore(f, k, q); }
      assert VisitedBefore(f, k + 1, p);
      seen, k := seen + {p}, k + 1;
    }
    ProbesCounted(seen, 1024);
    assert false;
  }

  /** A search ends within that many turns or never. */
  lemma {:induction false} HaltsIff(f: Probe -> Probe, n: nat)
    requires n >= TURNS && Absorbs(f) && forall i: nat :: Iterate(f, i).InRange()
    ensures Halts(f) <==> !Iterate(f, n).Active()
  {
    if Iterate(f, n).Active() {
      forall i: nat | i <= n ensures Iterate(f, i).Active() {
        if !Iterate(f, i).Active() { StaysOver(f, i, n); }
      }
      var j, k := Revisits(f, n);
      ReturnNeverHalts(f, j, k);
    }
  }

  lemma {:induction false} TurnAbsorbs(m: Layout, size: int)
    ensures Absorbs(Turn(m, size))
  {
  }

  lemma {:induction false} FinalAt(m: Layout, size: int) returns (k: nat)
    requires Ends(m, size)
    ensures At(m, size, k) == Final(m, size) && !At(m, size, k).Active()
  {
    k :| At(m, size, k) == Final(m, size);
  }

  /** However the search is followed to its end, it ends the same way. */
  lemma {:induction false} FinalIs(m: Layout, size: int, k: nat)
    requires !At(m, size, k).Active()
    ensures Ends(m, size) && Final(m, size) == At(m, size, k)
  {
    TurnAbsorbs(m, size);
    assert !Iterate(Turn(m, size), k).Active();
    var n := FinalAt(m, size);
    SameEnd(Turn(m, size), k, n);
  }

  // ---------- Why skipping ahead loses nothing ----------

  /** A size the search can place: whole superpages. */
  predicate IsSize(size: int) {
    0 < size < WORD && size % MB4 == 0
  }

  lemma SkipVm(m: Layout, size: int, start: int, i: nat)
    requires i < |m.vms| && m.vms[i].Valid() && !m.vms[i].Misses(start, size) && NoneBelow(m, size, start)
    ensures NoneBelow(m, size, m.vms[i].base + m.vms[i].len)
  {
    forall c | c < m.vms[i].base + m.vms[i].len ensures !m.Free(size, c) {
      if start <= c { assert !m.vms[i].Misses(c, size); }
    }
  }

  lemma SkipDesc(m: Layout, size: int, start: int, i: nat)
    requires i < |m.descs| && m.descs[i].Valid() && m.descs[i].Reserved() && size > 0
    requires start % MB4 == 0 && 0 <= start && Overlaps(m.descs[i], start, size) && NoneBelow(m, size, start)
    ensures var next := After(m.descs[i]); if next == 0 then NoneFree(m, size) else NoneBelow(m, size, next)
  {
    var next := After(m.descs[i]);
    forall c | m.Free(size, c) ensures next != 0 && c >= next {
      assert c >= start;
      assert !Overlaps(m.descs[i], c, size);
      assert c > m.descs[i].High();
    }
  }

  /** No place below the candidate is free; none at all when the search has given up. */
  ghost predicate Explored(m: Layout, size: int, p: Probe) {
    if p.NoRoom? then NoneFree(m, size) else NoneBelow(m, size, p.start)
  }

  predicate Wraps(size: int, p: Probe) {
    p.Active() && p.start + size > WORD
  }

  function Wrapping(size: int): Probe -> bool {
    p => Wraps(size, p)
  }

  /** Descriptor tests are exact up to the last byte of the address space. */
  lemma KipExact(d: MemDesc, start: int, size: int)
    requires d.Valid() && IsSize(size) && 0 <= start && start + size <= WORD && start % MB4 == 0
    ensures TestsKip(d, start, size) <==> d.Reserved() && Overlaps(d, start, size)
  {
    TestIsOverlap(d, start, size);
    assert (start + size - 1) % WORD == start + size - 1;
    assert start != d.High();
  }

  lemma VmExact(b: Block, start: int, size: int)
    requires b.Valid() && IsSize(size) && 0 <= start
    ensures start + size < WORD ==> (TestsVm(b, start, size) <==> !b.Misses(start, size))
    ensures start + size == WORD ==> !TestsVm(b, start, size)
  {
  }

  lemma VmEnd(b: Block)
    requires b.Valid()
    ensures RoundUp((b.base + b.len) % WORD) == b.base + b.len
  {
    assert (b.base + b.len) % MB4 == 0;
  }

  lemma VmAhead(b: Block, s: int, size: int)
    requires b.Valid() && IsSize(size) && 0 <= s && s + size <= WORD && TestsVm(b, s, size)
    ensures !b.Misses(s, size) && RoundUp((b.base + b.len) % WORD) == b.base + b.len > s
  {
    VmExact(b, s, size);
    VmEnd(b);
  }

  lemma AfterAbove(d: MemDesc, start: int, size: int)
    requires d.Valid() && Overlaps(d, start, size) && 0 <= start && start % MB4 == 0 && After(d) != 0
    ensures After(d) > start
  {
    assert d.High() + 1 < WORD ==> After(d) == 0 || After(d) >= d.High() + 1;
  }

  /** A candidate that does not wrap moves up only, and past nothing that is free. */
  lemma {:induction false} PastKipAdvances(m: Layout, size: int, s: int, clear: Probe)
    requires m.Valid() && IsSize(size) && 0 <= s && s % MB4 == 0 && s + size <= WORD
    requires !clear.NoRoom? && clear.start == s
    ensures var q := PastKip(m, size, s, clear);
      && (q == clear || q.NoRoom? || (q.Moved? && q.start > s))
      && (NoneBelow(m, size, s) ==> Explored(m, size, q))
  {
    var i := KipHit(m.descs, s, size);
    if i < |m.descs| {
      KipExact(m.descs[i], s, size);
      if After(m.descs[i]) != 0 { AfterAbove(m.descs[i], s, size); }
      if NoneBelow(m, size, s) { SkipDesc(m, size, s, i); }
    }
  }

  lemma {:induction false} PastVmAdvances(m: Layout, size: int, s: int)
    requires m.Valid() && IsSize(size) && 0 <= s && s % MB4 == 0 && s + size <= WORD
    requires VmHit(m.vms, s, size) < |m.vms|
    ensures var q := Next(m, size, Candidate(s));
      q.Candidate? && q.start > s && (NoneBelow(m, size, s) ==> NoneBelow(m, size, q.start))
  {
    var i := VmHit(m.vms, s, size);
    VmAhead(m.vms[i], s, size);
    if NoneBelow(m, size, s) { SkipVm(m, size, s, i); }
  }

  lemma {:induction false} NextAdvances(m: Layout, size: int, p: Probe)
    requires m.Valid() && IsSize(size) && p.InRange() && p.Active() && !Wraps(size, p)
    ensures Next(m, size, p).Active() ==> Later(p, Next(m, size, p))
    ensures Explored(m, size, p) ==> Explored(m, size, Next(m, size, p))
  {
    if p.Moved? {
      PastKipAdvances(m, size, p.start, Candidate(p.start));
    } else if VmHit(m.vms, p.start, size) < |m.vms| {
      PastVmAdvances(m, size, p.start);
    } else {
      PastKipAdvances(m, size, p.start, Taken(p.start));
    }
  }

  /** Past the end of the address space nothing is free. */
  lemma {:induction false} NextExplored(m: Layout, size: int, p: Probe)
    requires m.Valid() && IsSize(size) && p.InRange() && Explored(m, size, p)
    ensures Explored(m, size, Next(m, size, p))
  {
    if p.Active() && !Wraps(size, p) {
      NextAdvances(m, size, p);
    } else if p.Active() {
      assert NoneFree(m, size);
    }
  }

  lemma {:induction false} AtExplored(m: Layout, size: int, k: nat)
    requires m.Valid() && IsSize(size)
    ensures At(m, size, k).InRange() && Explored(m, size, At(m, size, k))
  {
    if k > 0 {
      AtExplored(m, size, k - 1);
      NextExplored(m, size, At(m, size, k - 1));
    }
  }

  /** A candidate that is taken has passed both tests. */
  predicate Cleared(m: Layout, size: int, start: int) {
    VmHit(m.vms, start, size) == |m.vms| && KipHit(m.descs, start, size) == |m.descs|
  }

  lemma {:induction false} TakenCleared(m: Layout, size: int, k: nat)
    ensures At(m, size, k).InRange()
    ensures At(m, size, k).Taken? ==> Cleared(m, size, At(m, size, k).start)
  {
    if k > 0 {
      TakenCleared(m, size, k - 1);
      NextCleared(m, size, At(m, size, k - 1));
    }
  }

  lemma {:induction false} FinalCleared(m: Layout, size: int)
    requires Ends(m, size)
    ensures Final(m, size).InRange() && (Final(m, size).Taken? ==> Cleared(m, size, Final(m, size).start))
  {
    var k := FinalAt(m, size);
    TakenCleared(m, size, k);
  }

  lemma {:induction false} NextCleared(m: Layout, size: int, p: Probe)
    requires p.Taken? ==> Cleared(m, size, p.start)
    ensures Next(m, size, p).Taken? ==> Cleared(m, size, Next(m, size, p).start)
  {
  }

  lemma {:induction false} ClearedIsFree(m: Layout, size: int, start: int)
    requires m.Valid() && IsSize(size) && 0 <= start && start % MB4 == 0 && start + size < WORD && Cleared(m, size, start)
    ensures m.Free(size, start)
  {
    forall i | 0 <= i < |m.vms| ensures m.vms[i].Misses(start, size) { VmExact(m.vms[i], start, size); }
    forall i | 0 <= i < |m.descs| && m.descs[i].Reserved() ensures !Overlaps(m.descs[i], start, size) {
      KipExact(m.descs[i], start, size);
    }
  }

  // ---------- When the search is right ----------

  /** The candidate is accepted if its last byte, as a word, is below the highest physical address. */
  predicate Accepted(size: int, maxPhys: int, p: Probe) {
    p.Taken? && (p.start + size - 1) % WORD < maxPhys
  }

  /** The lowest free place that ends below the highest physical address, or a refusal when there is none. */
  ghost predicate Right(m: Layout, size: int, maxPhys: int, p: Probe) {
    if Accepted(size, maxPhys, p) then
      m.Free(size, p.start) && NoneBelow(m, size, p.start) && p.start + size - 1 < maxPhys
    else forall c :: m.Free(size, c) ==> c + size - 1 >= maxPhys
  }

  /** The search took a candidate that wraps and whose end looks low enough. */
  predicate TakenWrapped(size: int, maxPhys: int, p: Probe) {
    p.Taken? && p.start + size > WORD && p.start + size - WORD - 1 < maxPhys
  }

  /** A search that ends is right unless it accepts a wrapped candidate. */
  lemma {:induction false} EndRightIff(m: Layout, size: int, maxPhys: int, k: nat)
    requires m.Valid() && IsSize(size) && 0 <= maxPhys < WORD && !At(m, size, k).Active()
    ensures Right(m, size, maxPhys, At(m, size, k)) <==> !TakenWrapped(size, maxPhys, At(m, size, k))
  {
    AtExplored(m, size, k);
    TakenCleared(m, size, k);
    OverRightIff(m, size, maxPhys, At(m, size, k));
  }

  lemma {:induction false} OverRightIff(m: Layout, size: int, maxPhys: int, p: Probe)
    requires m.Valid() && IsSize(size) && 0 <= maxPhys < WORD && !p.Active() && p.InRange() && Explored(m, size, p)
    requires p.Taken? ==> Cleared(m, size, p.start)
    ensures Right(m, size, maxPhys, p) <==> !TakenWrapped(size, maxPhys, p)
  {
    if p.Taken? {
      if p.start + size < WORD {
        ClearedIsFree(m, size, p.start);
      } else {
        assert NoneFree(m, size);
        assert (p.start + size - 1) % WORD == if p.start + size > WORD then p.start + size - 1 - WORD else WORD - 1;
      }
    }
  }

  /** No wrapped candidate comes back, and none is taken whose end looks low enough. */
  ghost predicate WrapsWell(m: Layout, size: int, maxPhys: int) {
    && NoReturn(Turn(m, size), Wrapping(size))
    && forall k: nat :: !TakenWrapped(size, maxPhys, At(m, size, k))
  }

  lemma {:induction false} TurnAdvances(m: Layout, size: int)
    requires m.Valid() && IsSize(size)
    ensures Advances(Turn(m, size), Wrapping(size))
  {
    var f := Turn(m, size);
    forall p: Probe | p.InRange() && p.Active() && !Wrapping(size)(p) && f(p).Active() ensures Later(p, f(p)) {
      NextAdvances(m, size, p);
    }
  }

  /** The search ends exactly when no wrapped candidate comes back. */
  lemma {:induction false} EndsIff(m: Layout, size: int)
    requires m.Valid() && IsSize(size)
    ensures Ends(m, size) <==> NoReturn(Turn(m, size), Wrapping(size))
  {
    var f := Turn(m, size);
    TurnAbsorbs(m, size);
    TurnAdvances(m, size);
    if NoReturn(f, Wrapping(size)) {
      NoReturnHalts(f, Wrapping(size));
    } else {
      var j: nat, k: nat :| j < k && Wrapping(size)(Iterate(f, j)) && Iterate(f, j) == Iterate(f, k);
      ReturnNeverHalts(f, j, k);
    }
  }

  /** For any memory in use and any size the search ends within 2048 turns or never. */
  lemma {:induction false} EndsInTimeIff(m: Layout, size: int, n: nat)
    requires n >= TURNS
    ensures Ends(m, size) <==> !At(m, size, n).Active()
    ensures Ends(m, size) ==> Final(m, size) == At(m, size, n)
  {
    var f := Turn(m, size);
    forall i: nat ensures Iterate(f, i).InRange() {
      TakenCleared(m, size, i);
      assert At(m, size, i) == Iterate(f, i);
    }
    TurnAbsorbs(m, size);
    HaltsIff(f, n);
    if Ends(m, size) { FinalIs(m, size, n); }
  }

  ghost predicate EndsRight(m: Layout, size: int, maxPhys: int) {
    Ends(m, size) && Right(m, size, maxPhys, Final(m, size))
  }

  /** Following 2048 turns decides whether the search is right: it must be over by then, without a
      wrapped candidate whose end looks low enough. */
  lemma {:induction false} SearchRightIff(m: Layout, size: int, maxPhys: int, n: nat)
    requires m.Valid() && IsSize(size) && 0 <= maxPhys < WORD && n >= TURNS
    ensures EndsRight(m, size, maxPhys) <==> !At(m, size, n).Active() && !TakenWrapped(size, maxPhys, At(m, size, n))
  {
    EndsInTimeIff(m, size, n);
    if Ends(m, size) { EndRightIff(m, size, maxPhys, n); }
  }

  /** The search ends with the right answer exactly when its wrapped candidates behave. */
  lemma {:induction false} WrapsWellIff(m: Layout, size: int, maxPhys: int)
    requires m.Valid() && IsSize(size) && 0 <= maxPhys < WORD
    ensures EndsRight(m, size, maxPhys) <==> WrapsWell(m, size, maxPhys)
  {
    EndsIff(m, size);
    if Ends(m, size) {
      var k := FinalAt(m, size);
      EndRightIff(m, size, maxPhys, k);
      forall n: nat | At(m, size, n).Taken? ensures At(m, size, n) == Final(m, size) {
        FinalIs(m, size, n);
      }
    }
  }

  // ---------- Searches that stay inside the address space ----------

  /** Some place is free, or even behind the last machine and descriptor a candidate does not wrap. */
  ghost predicate Roomy(m: Layout, size: int) {
    || (exists c :: m.Free(size, c))
    || (&& (forall i :: 0 <= i < |m.vms| ==> m.vms[i].base + m.vms[i].len + size <= WORD)
        && (forall i :: 0 <= i < |m.descs| ==> m.descs[i].Reserved() ==> After(m.descs[i]) + size <= WORD))
  }

  predicate Inside(size: int, p: Probe) {
    p.NoRoom? || p.start + size <= WORD
  }

  lemma {:induction false} NextInside(m: Layout, size: int, p: Probe)
    requires m.Valid() && IsSize(size) && p.InRange() && Inside(size, p)
    requires forall i :: 0 <= i < |m.vms| ==> m.vms[i].base + m.vms[i].len + size <= WORD
    requires forall i :: 0 <= i < |m.descs| ==> m.descs[i].Reserved() ==> After(m.descs[i]) + size <= WORD
    ensures Inside(size, Next(m, size, p))
  {
    if p.Candidate? {
      var i := VmHit(m.vms, p.start, size);
      if i < |m.vms| { VmEnd(m.vms[i]); }
    }
  }

  lemma {:induction false} RoomyInside(m: Layout, size: int, k: nat)
    requires m.Valid() && IsSize(size) && Roomy(m, size)
    ensures Inside(size, At(m, size, k))
  {
    AtExplored(m, size, k);
    if c :| m.Free(size, c) {
      assert At(m, size, k).NoRoom? || At(m, size, k).start <= c;
    } else if k > 0 {
      RoomyInside(m, size, k - 1);
      AtExplored(m, size, k - 1);
      NextInside(m, size, At(m, size, k - 1));
    }
  }

  /** With room the search ends with the right answer. */
  lemma {:induction false} RoomyRight(m: Layout, size: int, maxPhys: int)
    requires m.Valid() && IsSize(size) && Roomy(m, size) && 0 <= maxPhys < WORD
    ensures EndsRight(m, size, maxPhys)
  {
    forall k: nat ensures Inside(size, At(m, size, k)) { RoomyInside(m, size, k); }
    assert forall k: nat :: !Wrapping(size)(Iterate(Turn(m, size), k)) by {
      forall k: nat ensures !Wrapping(size)(Iterate(Turn(m, size), k)) { assert Inside(size, At(m, size, k)); }
    }
    WrapsWellIff(m, size, maxPhys);
  }

  // ---------- Searches that leave it ----------

  /** A wrapped candidate conflicts with the descriptors that start at or below it and end at or
      above its wrapped end, though they may lie wholly below it. */
  lemma WrappedKipIff(d: MemDesc, start: int, size: int)
    requires d.Valid() && IsSize(size) && 0 <= start < WORD && start + size > WORD
    ensures TestsKip(d, start, size) <==> d.Reserved() && d.Low() <= start && start + size - WORD - 1 <= d.High()
  {
    assert (start + size - 1) % WORD == start + size - 1 - WORD;
  }

  /** A descriptor holds on to the wrapped candidate right behind it. */
  lemma DescriptorCatches(d: MemDesc, size: int)
    requires d.Valid() && d.Reserved() && IsSize(size)
    requires After(d) != 0 && After(d) + size > WORD && After(d) + size - WORD - 1 <= d.High()
    ensures TestsKip(d, After(d), size)
  {
    WrappedKipIff(d, After(d), size);
  }

  /** Once moved right behind such a descriptor, the first in the way there, the search never ends. */
  lemma {:induction false} CaughtNeverEnds(m: Layout, size: int, k: nat, i: nat)
    requires i < |m.descs| && m.descs[i].Valid() && m.descs[i].Reserved() && IsSize(size)
    requires After(m.descs[i]) + size > WORD && After(m.descs[i]) + size - WORD - 1 <= m.descs[i].High()
    requires At(m, size, k) == Moved(After(m.descs[i])) && After(m.descs[i]) != 0
    requires forall j :: 0 <= j < i ==> !TestsKip(m.descs[j], After(m.descs[i]), size)
    ensures !Ends(m, size)
  {
    DescriptorCatches(m.descs[i], size);
    assert KipHit(m.descs, After(m.descs[i]), size) == i;
    TurnAbsorbs(m, size);
    assert Iterate(Turn(m, size), k + 1) == Next(m, size, At(m, size, k));
    ReturnNeverHalts(Turn(m, size), k, k + 1);
  }

  /** With the I/O APIC's page reserved and the memory below it in use, a request for 256MB hangs. */
  lemma RequestHangs()
    ensures var m := Layout([Block(0, 0xFEC0_0000)], [MemDesc(0x3F_B000, 0x3F_B003, false, OtherKind)]);
      m.Valid() && m.descs[0].Low() == 0xFEC0_0000 && !Ends(m, 0x1000_0000)
  {
    var m, size := Layout([Block(0, 0xFEC0_0000)], [MemDesc(0x3F_B000, 0x3F_B003, false, OtherKind)]), 0x1000_0000;
    assert At(m, size, 0) == Candidate(0);
    assert After(m.descs[0]) == 0xFF00_0000;
    assert At(m, size, 1) == Candidate(0xFEC0_0000);
    assert At(m, size, 2) == Moved(0xFF00_0000);
    CaughtNeverEnds(m, size, 2, 0);
  }
}
