/** Host memory of the virtual machines over every run of the resource monitor's allocator, and the
    allocator as it updates its machines in place. */
module VmMemory {
  import opened VmSearch

  const MAX_VM := 16

  /** What the allocator knows of one machine. */
  datatype VmState = VmState(inUse: bool, block: Block)

  datatype Option<+T> = None | Some(value: T)

  // ---------- Runs of the allocator ----------

  datatype Op =
    | Allocate
    | InitMm(id: nat, size: int)
    | Deallocate(id: nat)

  function BlocksOf(vs: seq<VmState>): (bs: seq<Block>)
    ensures |bs| == |vs| && forall i :: 0 <= i < |vs| ==> bs[i] == vs[i].block
  {
    seq(|vs|, i requires 0 <= i < |vs| => vs[i].block)
  }

  /** The first free machine, or the number of machines. */
  function FirstFree(vs: seq<VmState>): (i: nat)
    ensures i <= |vs| && (forall j :: 0 <= j < i ==> vs[j].inUse) && (i < |vs| ==> !vs[i].inUse)
  {
    if vs == [] || !vs[0].inUse then 0 else 1 + FirstFree(vs[1..])
  }

  /** The call returns: the monitor's own memory needs no search. */
  ghost predicate Returns(m: Layout, id: nat, sz: int) {
    id == 0 || Ends(m, sz)
  }

  /** Where init_mm puts a machine of (rounded) size `sz`, if it does. */
  ghost function InitBase(m: Layout, maxPhys: int, id: nat, sz: int): (r: Option<int>)
    requires Returns(m, id, sz)
  {
    BaseOf(sz, maxPhys, if id == 0 then Taken(0) else Final(m, sz))
  }

  function BaseOf(sz: int, maxPhys: int, p: Probe): Option<int> {
    if Accepted(sz, maxPhys, p) then Some(p.start) else None
  }

  /** The state after init_mm of a size in bytes, which is rounded up to superpages as a word. */
  ghost function Initialised(ds: seq<MemDesc>, maxPhys: int, s: seq<VmState>, id: nat, size: int): seq<VmState>
    requires id < |s| && Returns(Layout(BlocksOf(s), ds), id, RoundUp(size))
  {
    match InitBase(Layout(BlocksOf(s), ds), maxPhys, id, RoundUp(size))
    case None => s
    case Some(base) => s[id := s[id].(block := Block(base, RoundUp(size)))]
  }

  ghost predicate Step(ds: seq<MemDesc>, maxPhys: int, s: seq<VmState>, op: Op, s': seq<VmState>) {
    match op
    case Allocate =>
      var i := FirstFree(s);
      s' == if i < |s| then s[i := s[i].(inUse := true)] else s
    case InitMm(id, size) =>
      && id < |s| && 0 <= size < WORD && Returns(Layout(BlocksOf(s), ds), id, RoundUp(size))
      && s' == Initialised(ds, maxPhys, s, id, size)
    case Deallocate(id) =>
      id < |s| && s' == s[id := s[id].(inUse := false)]
  }

  ghost predicate StepAt(ds: seq<MemDesc>, maxPhys: int, states: seq<seq<VmState>>, ops: seq<Op>, k: nat)
    requires |states| == |ops| + 1 && k < |ops|
  {
    Step(ds, maxPhys, states[k], ops[k], states[k + 1])
  }

  /** A run: the monitor's own memory is set up first, and never again. */
  ghost predicate IsRun(ds: seq<MemDesc>, maxPhys: int, states: seq<seq<VmState>>, ops: seq<Op>) {
    && |states| == |ops| + 1 && 0 <= maxPhys < WORD && (forall i :: 0 <= i < |ds| ==> ds[i].Valid())
    && |states[0]| == MAX_VM && (forall i :: 0 <= i < MAX_VM ==> states[0][i].block == Block(0, 0))
    && (forall k :: 0 <= k < |ops| ==> StepAt(ds, maxPhys, states, ops, k))
    && (forall k :: 0 <= k < |ops| && ops[k].InitMm? ==> (ops[k].id == 0 <==> k == 0))
  }

  /** A request for nothing, or for more than whole superpages can hold, becomes one for nothing. */
  lemma RoundsToZeroIff(size: int)
    requires 0 <= size < WORD
    ensures RoundUp(size) == 0 <==> size == 0 || size > WORD - MB4
    ensures RoundUp(size) != 0 ==> size <= RoundUp(size) < size + MB4
  {
  }

  // ---------- Disjoint blocks ----------

  predicate Apart(a: Block, b: Block) {
    a.len == 0 || b.Misses(a.base, a.len)
  }

  ghost predicate AllApart(s: seq<VmState>) {
    && (forall i :: 0 <= i < |s| ==> s[i].block.Valid())
    && (forall i, j :: 0 <= i < j < |s| ==> Apart(s[i].block, s[j].block))
  }

  /** The operation accepts no candidate that wraps. */
  ghost predicate Unwrapped(ds: seq<MemDesc>, maxPhys: int, s: seq<VmState>, op: Op) {
    op.InitMm? && Returns(Layout(BlocksOf(s), ds), op.id, RoundUp(op.size)) ==>
      var r := InitBase(Layout(BlocksOf(s), ds), maxPhys, op.id, RoundUp(op.size));
      r.Some? ==> r.value + RoundUp(op.size) <= WORD
  }

  /** An accepted candidate that does not wrap misses every machine and reserved descriptor. */
  lemma {:induction false} FinalFree(m: Layout, maxPhys: int, sz: int)
    requires m.Valid() && maxPhys < WORD && 0 <= sz < WORD && sz % MB4 == 0 && Ends(m, sz)
    requires Accepted(sz, maxPhys, Final(m, sz)) && Final(m, sz).start + sz <= WORD
    ensures var start := Final(m, sz).start; Block(start, sz).Valid() && (sz > 0 ==> m.Free(sz, start))
  {
    FinalCleared(m, sz);
    TakenFree(m, maxPhys, sz, Final(m, sz));
  }

  lemma {:induction false} TakenFree(m: Layout, maxPhys: int, sz: int, p: Probe)
    requires m.Valid() && maxPhys < WORD && 0 <= sz < WORD && sz % MB4 == 0 && p.InRange()
    requires Accepted(sz, maxPhys, p) && p.start + sz <= WORD && Cleared(m, sz, p.start)
    ensures Block(p.start, sz).Valid() && (sz > 0 ==> m.Free(sz, p.start))
  {
    LastByteInside(p.start, sz, maxPhys);
    if sz > 0 { ClearedIsFree(m, sz, p.start); }
  }

  lemma LastByteInside(start: int, sz: int, maxPhys: int)
    requires 0 <= start < WORD && 0 <= sz && start + sz <= WORD && (start + sz - 1) % WORD < maxPhys < WORD
    ensures start + sz < WORD
  {
  }

  lemma {:induction false} InitBaseApart(m: Layout, maxPhys: int, id: nat, sz: int)
    requires m.Valid() && 0 <= maxPhys < WORD && 0 <= sz < WORD && sz % MB4 == 0 && Returns(m, id, sz)
    requires InitBase(m, maxPhys, id, sz).Some? && InitBase(m, maxPhys, id, sz).value + sz <= WORD
    ensures var b := Block(InitBase(m, maxPhys, id, sz).value, sz);
      && b.Valid() && (id == 0 ==> b.base == 0 && sz > 0)
      && (id != 0 && sz > 0 ==> m.Free(sz, b.base))
  {
    if id != 0 { FinalFree(m, maxPhys, sz); }
  }

  lemma {:induction false} InitApart(ds: seq<MemDesc>, maxPhys: int, s: seq<VmState>, id: nat, size: int)
    requires AllApart(s) && id < |s| && 0 <= size < WORD && 0 <= maxPhys < WORD && forall i :: 0 <= i < |ds| ==> ds[i].Valid()
    requires Returns(Layout(BlocksOf(s), ds), id, RoundUp(size)) && Unwrapped(ds, maxPhys, s, InitMm(id, size))
    requires id == 0 ==> forall i :: 0 < i < |s| ==> s[i].block.len == 0
    ensures AllApart(Initialised(ds, maxPhys, s, id, size))
  {
    var m, sz := Layout(BlocksOf(s), ds), RoundUp(size);
    if InitBase(m, maxPhys, id, sz).Some? {
      InitBaseApart(m, maxPhys, id, sz);
      PlacedApart(s, id, Block(InitBase(m, maxPhys, id, sz).value, sz));
    }
  }

  lemma PlacedApart(s: seq<VmState>, id: nat, b: Block)
    requires AllApart(s) && id < |s| && b.Valid()
    requires b.len == 0 || forall i :: 0 <= i < |s| && i != id ==> s[i].block.Misses(b.base, b.len)
    ensures AllApart(s[id := s[id].(block := b)])
  {
    var s' := s[id := s[id].(block := b)];
    forall i, j | 0 <= i < j < |s'| ensures Apart(s'[i].block, s'[j].block) {
      assert Apart(s[i].block, s[j].block);
    }
  }

  lemma {:induction false} StepApart(ds: seq<MemDesc>, maxPhys: int, s: seq<VmState>, op: Op, s': seq<VmState>)
    requires AllApart(s) && Step(ds, maxPhys, s, op, s') && Unwrapped(ds, maxPhys, s, op)
    requires 0 <= maxPhys < WORD && forall i :: 0 <= i < |ds| ==> ds[i].Valid()
    requires op.InitMm? && op.id == 0 ==> forall i :: 0 < i < |s| ==> s[i].block.len == 0
    ensures AllApart(s') && |s'| == |s|
  {
    if op.InitMm? { InitApart(ds, maxPhys, s, op.id, op.size); }
  }

  /** As long as no accepted candidate wraps, the machines own pairwise disjoint host blocks. */
  lemma {:induction false} RunKeepsApart(ds: seq<MemDesc>, maxPhys: int, states: seq<seq<VmState>>, ops: seq<Op>, k: nat)
    requires IsRun(ds, maxPhys, states, ops) && k < |states|
    requires forall n :: 0 <= n < k ==> Unwrapped(ds, maxPhys, states[n], ops[n])
    ensures |states[k]| == MAX_VM && AllApart(states[k])
  {
    if k > 0 {
      RunKeepsApart(ds, maxPhys, states, ops, k - 1);
      assert StepAt(ds, maxPhys, states, ops, k - 1);
      StepApart(ds, maxPhys, states[k - 1], ops[k - 1], states[k]);
    }
  }

  // ---------- Translations ----------

  /** Guest-physical to host address: the sum is a word. */
  function ToHost(b: Block, paddr: nat): Option<int> {
    if paddr < b.len then Some((paddr + b.base) % WORD) else None
  }

  /** No guest address of one machine has the host address of one of the other. */
  ghost predicate NeverMeet(a: Block, b: Block) {
    forall p: nat, q: nat :: ToHost(a, p).Some? && ToHost(b, q).Some? ==> ToHost(a, p) != ToHost(b, q)
  }

  ghost predicate Isolated(s: seq<VmState>) {
    forall i, j :: 0 <= i < |s| && 0 <= j < |s| && i != j ==> NeverMeet(s[i].block, s[j].block)
  }

  lemma ApartNeverMeet(a: Block, b: Block)
    requires a.Valid() && b.Valid() && Apart(a, b)
    ensures NeverMeet(a, b) && NeverMeet(b, a)
  {
    forall p: nat, q: nat | ToHost(a, p).Some? && ToHost(b, q).Some? ensures ToHost(a, p) != ToHost(b, q) {
      HostIs(a, p);
      HostIs(b, q);
    }
  }

  lemma HostIs(b: Block, p: nat)
    requires b.Valid() && p < b.len
    ensures ToHost(b, p) == Some(p + b.base)
  {
  }

  lemma ApartIsolated(s: seq<VmState>)
    requires AllApart(s)
    ensures Isolated(s)
  {
    forall i, j | 0 <= i < |s| && 0 <= j < |s| && i != j ensures NeverMeet(s[i].block, s[j].block) {
      if i < j { ApartNeverMeet(s[i].block, s[j].block); } else { ApartNeverMeet(s[j].block, s[i].block); }
    }
  }

  /** The set-up of the monitor's own memory succeeded. */
  predicate MonitorOwns(states: seq<seq<VmState>>) {
    |states| > 1 && |states[1]| > 0 && states[1][0].block.len > 0
  }

  /** The monitor keeps the memory it was given first. */
  lemma {:induction false} MonitorKept(ds: seq<MemDesc>, maxPhys: int, states: seq<seq<VmState>>, ops: seq<Op>, k: nat)
    requires IsRun(ds, maxPhys, states, ops) && 1 <= k < |states|
    ensures |states[k]| == |states[1]| == MAX_VM && states[k][0].block == states[1][0].block
  {
    assert StepAt(ds, maxPhys, states, ops, k - 1);
    if k > 1 { MonitorKept(ds, maxPhys, states, ops, k - 1); }
  }

  lemma MonitorAtZero(ds: seq<MemDesc>, maxPhys: int, states: seq<seq<VmState>>, ops: seq<Op>)
    requires IsRun(ds, maxPhys, states, ops) && |ops| > 0
    ensures |states[1]| == MAX_VM && states[1][0].block.base == 0
  {
    assert StepAt(ds, maxPhys, states, ops, 0);
  }

  /** A block that wraps holds address 0, as the monitor's does. */
  lemma WrappedMeets(a: Block, b: Block)
    requires 0 <= a.base < WORD && a.base + a.len > WORD && b.base == 0 < b.len
    ensures !NeverMeet(a, b)
  {
    assert ToHost(a, WORD - a.base) == Some(0) == ToHost(b, 0);
  }

  lemma {:induction false} WrappedBlock(ds: seq<MemDesc>, maxPhys: int, s: seq<VmState>, id: nat, size: int)
    requires id < |s| && 0 <= size < WORD && Returns(Layout(BlocksOf(s), ds), id, RoundUp(size))
    requires !Unwrapped(ds, maxPhys, s, InitMm(id, size))
    ensures var b := Initialised(ds, maxPhys, s, id, size)[id].block; id != 0 && 0 <= b.base < WORD < b.base + b.len
  {
    InitRange(Layout(BlocksOf(s), ds), maxPhys, id, RoundUp(size));
  }

  lemma {:induction false} WrapsAt(ds: seq<MemDesc>, maxPhys: int, states: seq<seq<VmState>>, ops: seq<Op>, k: nat)
    requires IsRun(ds, maxPhys, states, ops) && k < |ops| && !Unwrapped(ds, maxPhys, states[k], ops[k])
    ensures ops[k].InitMm? && 0 < ops[k].id < |states[k + 1]|
    ensures var b := states[k + 1][ops[k].id].block; 0 <= b.base < WORD < b.base + b.len
  {
    assert StepAt(ds, maxPhys, states, ops, k);
    WrappedBlock(ds, maxPhys, states[k], ops[k].id, ops[k].size);
  }

  /** Accepting a wrapped candidate puts a machine on top of the monitor. */
  lemma {:induction false} WrappedBreaks(ds: seq<MemDesc>, maxPhys: int, states: seq<seq<VmState>>, ops: seq<Op>, k: nat)
    requires IsRun(ds, maxPhys, states, ops) && k < |ops| && MonitorOwns(states)
    requires !Unwrapped(ds, maxPhys, states[k], ops[k])
    ensures !Isolated(states[k + 1])
  {
    MonitorAtZero(ds, maxPhys, states, ops);
    MonitorKept(ds, maxPhys, states, ops, k + 1);
    WrapsAt(ds, maxPhys, states, ops, k);
    WrappedMeets(states[k + 1][ops[k].id].block, states[k + 1][0].block);
  }

  lemma {:induction false} InitRange(m: Layout, maxPhys: int, id: nat, sz: int)
    requires Returns(m, id, sz)
    ensures var r := InitBase(m, maxPhys, id, sz); r.Some? ==> 0 <= r.value < WORD && (id == 0 ==> r.value == 0)
  {
    if id != 0 { FinalCleared(m, sz); }
  }

  /** In every state of a run machines are isolated exactly if the run accepts no wrapped candidate. */
  lemma {:induction false} UnwrappedIsolates(ds: seq<MemDesc>, maxPhys: int, states: seq<seq<VmState>>, ops: seq<Op>)
    requires IsRun(ds, maxPhys, states, ops) && MonitorOwns(states)
    ensures (forall k :: 0 <= k < |states| ==> Isolated(states[k])) <==>
            (forall k :: 0 <= k < |ops| ==> Unwrapped(ds, maxPhys, states[k], ops[k]))
  {
    if forall k :: 0 <= k < |ops| ==> Unwrapped(ds, maxPhys, states[k], ops[k]) {
      forall k | 0 <= k < |states| ensures Isolated(states[k]) {
        RunKeepsApart(ds, maxPhys, states, ops, k);
        ApartIsolated(states[k]);
      }
    } else {
      var k :| 0 <= k < |ops| && !Unwrapped(ds, maxPhys, states[k], ops[k]);
      WrappedBreaks(ds, maxPhys, states, ops, k);
    }
  }

  /** Known before the call: `n` turns of the search for the request come to a wrapped candidate that
      init_mm would accept. */
  predicate Overruns(ds: seq<MemDesc>, maxPhys: int, s: seq<VmState>, op: Op, n: nat) {
    op.InitMm? && op.id != 0 && TakenWrapped(RoundUp(op.size), maxPhys, At(Layout(BlocksOf(s), ds), RoundUp(op.size), n))
  }

  lemma {:induction false} OverrunsIff(ds: seq<MemDesc>, maxPhys: int, s: seq<VmState>, op: Op, n: nat)
    requires n >= TURNS && 0 <= maxPhys < WORD && (op.InitMm? ==> 0 <= op.size < WORD)
    ensures Overruns(ds, maxPhys, s, op, n) <==> !Unwrapped(ds, maxPhys, s, op)
  {
    if op.InitMm? {
      var m, sz := Layout(BlocksOf(s), ds), RoundUp(op.size);
      EndsInTimeIff(m, sz, n);
      if Returns(m, op.id, sz) { InitRange(m, maxPhys, op.id, sz); }
      TakenCleared(m, sz, n);
      AcceptedWraps(sz, maxPhys, At(m, sz, n));
    }
  }

  lemma AcceptedWraps(sz: int, maxPhys: int, p: Probe)
    requires 0 <= sz < WORD && p.InRange()
    ensures TakenWrapped(sz, maxPhys, p) <==> Accepted(sz, maxPhys, p) && p.start + sz > WORD
  {
  }

  /** In every state of a run machines are isolated exactly if none of its requests, when it was made,
      could be seen to overrun. */
  lemma {:induction false} IsolationIff(ds: seq<MemDesc>, maxPhys: int, states: seq<seq<VmState>>, ops: seq<Op>, n: nat)
    requires IsRun(ds, maxPhys, states, ops) && MonitorOwns(states) && n >= TURNS
    ensures (forall k :: 0 <= k < |states| ==> Isolated(states[k])) <==>
            (forall k :: 0 <= k < |ops| ==> !Overruns(ds, maxPhys, states[k], ops[k], n))
  {
    UnwrappedIsolates(ds, maxPhys, states, ops);
    forall k | 0 <= k < |ops| ensures Overruns(ds, maxPhys, states[k], ops[k], n) <==> !Unwrapped(ds, maxPhys, states[k], ops[k]) {
      assert StepAt(ds, maxPhys, states, ops, k);
      OverrunsIff(ds, maxPhys, states[k], ops[k], n);
    }
  }

  // ---------- Runs with room ----------

  /** With room for the request init_mm returns and accepts no candidate that wraps. */
  lemma {:induction false} RoomyReturns(ds: seq<MemDesc>, maxPhys: int, s: seq<VmState>, id: nat, size: int)
    requires AllApart(s) && 0 <= size < WORD && RoundUp(size) > 0 && 0 <= maxPhys < WORD
    requires (forall i :: 0 <= i < |ds| ==> ds[i].Valid()) && Roomy(Layout(BlocksOf(s), ds), RoundUp(size))
    ensures Returns(Layout(BlocksOf(s), ds), id, RoundUp(size)) && Unwrapped(ds, maxPhys, s, InitMm(id, size))
  {
    var m, sz := Layout(BlocksOf(s), ds), RoundUp(size);
    RoomyRight(m, sz, maxPhys);
    var k := FinalAt(m, sz);
    RoomyInside(m, sz, k);
  }

  ghost predicate HasRoom(ds: seq<MemDesc>, s: seq<VmState>, op: Op) {
    op.InitMm? && op.id != 0 && RoundUp(op.size) > 0 ==> Roomy(Layout(BlocksOf(s), ds), RoundUp(op.size))
  }

  lemma {:induction false} RoomyUnwrapped(ds: seq<MemDesc>, maxPhys: int, s: seq<VmState>, op: Op)
    requires AllApart(s) && 0 <= maxPhys < WORD && (forall i :: 0 <= i < |ds| ==> ds[i].Valid())
    requires HasRoom(ds, s, op) && (op.InitMm? ==> 0 <= op.size < WORD)
    ensures Unwrapped(ds, maxPhys, s, op)
  {
    if op.InitMm? && Returns(Layout(BlocksOf(s), ds), op.id, RoundUp(op.size)) {
      if op.id != 0 && RoundUp(op.size) > 0 {
        RoomyReturns(ds, maxPhys, s, op.id, op.size);
      } else {
        InitRange(Layout(BlocksOf(s), ds), maxPhys, op.id, RoundUp(op.size));
      }
    }
  }

  lemma {:induction false} RoomyAt(ds: seq<MemDesc>, maxPhys: int, states: seq<seq<VmState>>, ops: seq<Op>, k: nat)
    requires IsRun(ds, maxPhys, states, ops) && k < |ops| && HasRoom(ds, states[k], ops[k])
    requires forall n :: 0 <= n < k ==> Unwrapped(ds, maxPhys, states[n], ops[n])
    ensures Unwrapped(ds, maxPhys, states[k], ops[k])
  {
    RunKeepsApart(ds, maxPhys, states, ops, k);
    assert StepAt(ds, maxPhys, states, ops, k);
    RoomyUnwrapped(ds, maxPhys, states[k], ops[k]);
  }

  lemma {:induction false} RoomyRunUnwrapped(ds: seq<MemDesc>, maxPhys: int, states: seq<seq<VmState>>, ops: seq<Op>, k: nat)
    requires IsRun(ds, maxPhys, states, ops) && k < |states|
    requires forall n :: 0 <= n < k ==> HasRoom(ds, states[n], ops[n])
    ensures forall n :: 0 <= n < k ==> Unwrapped(ds, maxPhys, states[n], ops[n])
  {
    if k > 0 {
      RoomyRunUnwrapped(ds, maxPhys, states, ops, k - 1);
      RoomyAt(ds, maxPhys, states, ops, k - 1);
    }
  }

  /** A run whose requests all find room when they are made keeps the machines isolated in every state. */
  lemma {:induction false} RoomyRunIsolated(ds: seq<MemDesc>, maxPhys: int, states: seq<seq<VmState>>, ops: seq<Op>, k: nat)
    requires IsRun(ds, maxPhys, states, ops) && k < |states|
    requires forall n :: 0 <= n < k ==> HasRoom(ds, states[n], ops[n])
    ensures Isolated(states[k])
  {
    RoomyRunUnwrapped(ds, maxPhys, states, ops, k);
    RunKeepsApart(ds, maxPhys, states, ops, k);
    ApartIsolated(states[k]);
  }

  /** Behind the physical memory and behind every reserved descriptor `limit` bytes fit. */
  predicate Headroom(ds: seq<MemDesc>, maxPhys: int, limit: int) {
    maxPhys + limit <= WORD && forall i :: 0 <= i < |ds| ==> ds[i].Reserved() ==> After(ds[i]) + limit <= WORD
  }

  predicate EndsBelow(s: seq<VmState>, maxPhys: int) {
    forall i :: 0 <= i < |s| ==> s[i].block.base + s[i].block.len <= maxPhys
  }

  lemma {:induction false} BelowStays(ds: seq<MemDesc>, maxPhys: int, s: seq<VmState>, op: Op, s': seq<VmState>)
    requires EndsBelow(s, maxPhys) && 0 <= maxPhys < WORD && Step(ds, maxPhys, s, op, s') && Unwrapped(ds, maxPhys, s, op)
    ensures EndsBelow(s', maxPhys)
  {
    if op.InitMm? { InitRange(Layout(BlocksOf(s), ds), maxPhys, op.id, RoundUp(op.size)); }
  }

  lemma {:induction false} SmallRunRoomy(ds: seq<MemDesc>, maxPhys: int, states: seq<seq<VmState>>, ops: seq<Op>, limit: int, k: nat)
    requires IsRun(ds, maxPhys, states, ops) && k < |states| && Headroom(ds, maxPhys, limit)
    requires forall n :: 0 <= n < |ops| && ops[n].InitMm? ==> RoundUp(ops[n].size) <= limit
    ensures EndsBelow(states[k], maxPhys) && forall n :: 0 <= n < k ==> HasRoom(ds, states[n], ops[n])
  {
    if k > 0 {
      SmallRunRoomy(ds, maxPhys, states, ops, limit, k - 1);
      RoomyRunUnwrapped(ds, maxPhys, states, ops, k - 1);
      RoomyAt(ds, maxPhys, states, ops, k - 1);
      assert StepAt(ds, maxPhys, states, ops, k - 1);
      BelowStays(ds, maxPhys, states[k - 1], ops[k - 1], states[k]);
    }
  }

  /** With headroom for the largest request a run keeps its machines isolated, and the search for any
      further request of that size ends. */
  lemma {:induction false} SmallRunIsolated(ds: seq<MemDesc>, maxPhys: int, states: seq<seq<VmState>>, ops: seq<Op>, limit: int, k: nat)
    requires IsRun(ds, maxPhys, states, ops) && k < |states| && Headroom(ds, maxPhys, limit)
    requires forall n :: 0 <= n < |ops| && ops[n].InitMm? ==> RoundUp(ops[n].size) <= limit
    ensures Isolated(states[k])
    ensures forall sz :: IsSize(sz) && sz <= limit ==> Ends(Layout(BlocksOf(states[k]), ds), sz)
  {
    SmallRunRoomy(ds, maxPhys, states, ops, limit, k);
    RoomyRunIsolated(ds, maxPhys, states, ops, k);
    RoomyRunUnwrapped(ds, maxPhys, states, ops, k);
    RunKeepsApart(ds, maxPhys, states, ops, k);
    forall sz | IsSize(sz) && sz <= limit ensures Ends(Layout(BlocksOf(states[k]), ds), sz) {
      RoomyRight(Layout(BlocksOf(states[k]), ds), sz, maxPhys);
    }
  }

  /** In such a run a range whose endpoints translate lies wholly in its owner's block. */
  lemma RangesStayInside(ds: seq<MemDesc>, maxPhys: int, states: seq<seq<VmState>>, ops: seq<Op>, k: nat, i: nat, p: nat, q: nat)
    requires IsRun(ds, maxPhys, states, ops) && k < |states| && i < MAX_VM
    requires forall n :: 0 <= n < k ==> Unwrapped(ds, maxPhys, states[n], ops[n])
    ensures |states[k]| == MAX_VM
    ensures var b := states[k][i].block;
      p <= q && ToHost(b, q).Some? ==>
        && ToHost(b, p).Some? && ToHost(b, q).value - ToHost(b, p).value == q - p
        && b.base <= ToHost(b, p).value && ToHost(b, q).value < b.base + b.len
  {
    RunKeepsApart(ds, maxPhys, states, ops, k);
  }

  // ---------- A run that breaks isolation ----------

  /** All of the address space is ordinary memory. */
  function Ram(): (ds: seq<MemDesc>)
    ensures |ds| == 1 && ds[0].Valid() && !ds[0].Reserved() && ds[0].High() == WORD - 1
  {
    [MemDesc(0, 0x3F_FFFF, false, Conventional)]
  }

  lemma {:induction false} SkipsVm(m: Layout, size: int, k: nat, s: int, i: nat)
    requires At(m, size, k) == Candidate(s) && i < |m.vms| && TestsVm(m.vms[i], s, size)
    requires forall j :: 0 <= j < i ==> !TestsVm(m.vms[j], s, size)
    ensures At(m, size, k + 1) == Candidate(RoundUp((m.vms[i].base + m.vms[i].len) % WORD))
  {
    assert VmHit(m.vms, s, size) == i;
  }

  lemma {:induction false} TakesIt(m: Layout, size: int, k: nat, s: int)
    requires At(m, size, k) == Candidate(s) && forall j :: 0 <= j < |m.vms| ==> !TestsVm(m.vms[j], s, size)
    requires forall j :: 0 <= j < |m.descs| ==> !m.descs[j].Reserved()
    ensures Ends(m, size) && Final(m, size) == Taken(s)
  {
    assert VmHit(m.vms, s, size) == |m.vms| && KipHit(m.descs, s, size) == |m.descs|;
    FinalIs(m, size, k + 1);
  }

  /** A machine of its own at the given place, the others as before. */
  function With(s: seq<VmState>, id: nat, base: int, len: int): seq<VmState>
    requires id < |s|
  {
    s[id := s[id].(block := Block(base, len))]
  }

  lemma {:induction false} SecondMachine(s: seq<VmState>)
    requires |s| == MAX_VM && s[0].block == Block(0, MB4) && forall i :: 0 < i < MAX_VM ==> s[i].block.len == 0
    ensures Step(Ram(), WORD - 1, s, InitMm(1, 0xFF00_0000), With(s, 1, MB4, 0xFF00_0000))
  {
    var m, size := Layout(BlocksOf(s), Ram()), 0xFF00_0000;
    SkipsVm(m, size, 0, 0, 0);
    TakesIt(m, size, 1, MB4);
  }

  lemma {:induction false} ThirdMachine(s: seq<VmState>)
    requires |s| == MAX_VM && s[0].block == Block(0, MB4) && s[1].block == Block(MB4, 0xFF00_0000)
    requires forall i :: 1 < i < MAX_VM ==> s[i].block.len == 0
    ensures Step(Ram(), WORD - 1, s, InitMm(2, MB4), With(s, 2, 0xFF40_0000, MB4))
  {
    var m, size := Layout(BlocksOf(s), Ram()), MB4;
    SkipsVm(m, size, 0, 0, 0);
    SkipsVm(m, size, 1, MB4, 1);
    TakesIt(m, size, 2, 0xFF40_0000);
  }

  lemma {:induction false} FourthSearch(m: Layout)
    requires |m.vms| == MAX_VM && m.descs == Ram() && m.vms[0] == Block(0, MB4) && m.vms[1] == Block(MB4, 0xFF00_0000)
    requires m.vms[2] == Block(0xFF40_0000, MB4) && forall i :: 2 < i < MAX_VM ==> m.vms[i].len == 0
    ensures Ends(m, 4 * MB4) && Final(m, 4 * MB4) == Taken(0xFF40_0000)
  {
    var size := 4 * MB4;
    SkipsVm(m, size, 0, 0, 0);
    SkipsVm(m, size, 1, MB4, 1);
    TakesIt(m, size, 2, 0xFF40_0000);
  }

  lemma {:induction false} FourthMachine(s: seq<VmState>)
    requires |s| == MAX_VM && s[0].block == Block(0, MB4) && s[1].block == Block(MB4, 0xFF00_0000)
    requires s[2].block == Block(0xFF40_0000, MB4) && forall i :: 2 < i < MAX_VM ==> s[i].block.len == 0
    ensures Step(Ram(), WORD - 1, s, InitMm(3, 4 * MB4), With(s, 3, 0xFF40_0000, 4 * MB4))
  {
    FourthSearch(Layout(BlocksOf(s), Ram()));
  }

  lemma {:induction false} FirstMachine(s: seq<VmState>)
    requires |s| == MAX_VM
    ensures Step(Ram(), WORD - 1, s, InitMm(0, MB4), With(s, 0, 0, MB4))
  {
  }

  /** The state after the first `k` of four requests. */
  function Requested(k: nat): (s: seq<VmState>)
    requires k <= 4
    ensures |s| == MAX_VM
  {
    seq(MAX_VM, i requires 0 <= i < MAX_VM => VmState(false,
      if i == 0 && k > 0 then Block(0, MB4)
      else if i == 1 && k > 1 then Block(MB4, 0xFF00_0000)
      else if i == 2 && k > 2 then Block(0xFF40_0000, MB4)
      else if i == 3 && k > 3 then Block(0xFF40_0000, 4 * MB4)
      else Block(0, 0)))
  }

  function Request(k: nat): Op
    requires k < 4
  {
    InitMm(k, if k == 1 then 0xFF00_0000 else if k == 3 then 4 * MB4 else MB4)
  }

  ghost predicate Granted(k: nat)
    requires k < 4
  {
    Step(Ram(), WORD - 1, Requested(k), Request(k), Requested(k + 1))
  }

  lemma {:induction false} AllGranted(k: nat)
    requires k < 4
    ensures Granted(k)
  {
    var s := Requested(k);
    if k == 0 {
      FirstMachine(s);
      assert With(s, 0, 0, MB4) == Requested(1);
    } else if k == 1 {
      SecondMachine(s);
      assert With(s, 1, MB4, 0xFF00_0000) == Requested(2);
    } else if k == 2 {
      ThirdMachine(s);
      assert With(s, 2, 0xFF40_0000, MB4) == Requested(3);
    } else {
      FourthMachine(s);
      assert With(s, 3, 0xFF40_0000, 4 * MB4) == Requested(4);
    }
  }

  lemma {:induction false} RequestsRun(states: seq<seq<VmState>>, ops: seq<Op>)
    requires |states| == 5 && |ops| == 4
    requires (forall k :: 0 <= k < 5 ==> states[k] == Requested(k)) && (forall k :: 0 <= k < 4 ==> ops[k] == Request(k))
    ensures IsRun(Ram(), WORD - 1, states, ops)
  {
    var top := WORD - 1;
    forall k | 0 <= k < 4 ensures StepAt(Ram(), top, states, ops, k) {
      AllGranted(k);
    }
  }

  /** Four requests after which the last machine shares memory with the third and with the monitor. */
  lemma {:induction false} RunBreaksIsolation(states: seq<seq<VmState>>, ops: seq<Op>)
    requires |states| == 5 && forall k :: 0 <= k < 5 ==> states[k] == Requested(k)
    requires ops == [InitMm(0, MB4), InitMm(1, 0xFF00_0000), InitMm(2, MB4), InitMm(3, 4 * MB4)]
    ensures IsRun(Ram(), WORD - 1, states, ops) && |states[4]| == MAX_VM
    ensures !NeverMeet(states[4][3].block, states[4][2].block) && !NeverMeet(states[4][3].block, states[4][0].block)
  {
    RequestsRun(states, ops);
    var s := Requested(4);
    WrappedMeets(s[3].block, s[0].block);
    assert ToHost(s[3].block, 0) == ToHost(s[2].block, 0);
  }

  // ---------- The allocator ----------

  /** The turns of a search up to its end. */
  ghost predicate IsTrace(m: Layout, size: int, path: seq<Probe>) {
    && |path| > 0 && path[0] == Candidate(0) && !path[|path| - 1].Active()
    && forall k :: 0 <= k < |path| - 1 ==> TraceAt(m, size, path, k)
  }

  ghost predicate TraceAt(m: Layout, size: int, path: seq<Probe>, k: nat)
    requires k < |path| - 1
  {
    path[k + 1] == Next(m, size, path[k])
  }

  lemma {:induction false} TraceOf(m: Layout, size: int) returns (path: seq<Probe>)
    requires Ends(m, size)
    ensures IsTrace(m, size, path) && path[|path| - 1] == Final(m, size)
  {
    var e := FinalAt(m, size);
    path := PathOf(Turn(m, size), e);
    forall k | 0 <= k < |path| - 1 ensures TraceAt(m, size, path, k) {
      assert PathAt(Turn(m, size), path, k);
    }
  }

  ghost predicate PathAt(f: Probe -> Probe, path: seq<Probe>, k: nat)
    requires k < |path| - 1
  {
    path[k + 1] == f(path[k])
  }

  lemma {:induction false} PathOf(f: Probe -> Probe, e: nat) returns (path: seq<Probe>)
    ensures |path| == e + 1 && path[0] == Candidate(0) && path[e] == Iterate(f, e)
    ensures forall k :: 0 <= k < e ==> PathAt(f, path, k)
  {
    if e == 0 {
      path := [Candidate(0)];
    } else {
      var init := PathOf(f, e - 1);
      path := init + [f(init[e - 1])];
      forall k | 0 <= k < e ensures PathAt(f, path, k) {
        if k < e - 1 { assert PathAt(f, init, k); }
      }
    }
  }

  /** The search is over nowhere but at the end of its trace. */
  lemma {:induction false} TraceEnd(m: Layout, size: int, path: seq<Probe>, k: nat)
    requires IsTrace(m, size, path) && k < |path| && !path[k].Active()
    ensures path[k] == path[|path| - 1]
    decreases |path| - k
  {
    if k < |path| - 1 {
      assert TraceAt(m, size, path, k);
      TraceEnd(m, size, path, k + 1);
    }
  }

  /** What a turn of the outer loop has come to. */
  ghost predicate Outcome(p: Probe, full: bool, found: bool, start: int) {
    !(full && found) && p == if full then NoRoom else if found then Taken(start) else Candidate(start)
  }

  lemma {:induction false} PastVm(m: Layout, size: int, path: seq<Probe>, k: nat, s: int)
    requires IsTrace(m, size, path) && k < |path| && path[k] == Candidate(s) && VmHit(m.vms, s, size) < |m.vms|
    ensures var b := m.vms[VmHit(m.vms, s, size)];
      k + 1 < |path| && Outcome(path[k + 1], false, false, RoundUp((b.base + b.len) % WORD))
  {
    assert TraceAt(m, size, path, k);
  }

  /** The inner loop is at a candidate: it moved, or no machine is in the way. */
  predicate InLoop(m: Layout, size: int, p: Probe, s: int, moved: bool) {
    if moved then p == Moved(s) else p == Candidate(s) && VmHit(m.vms, s, size) == |m.vms|
  }

  lemma {:induction false} PastDesc(m: Layout, size: int, path: seq<Probe>, k: nat, s: int, moved: bool)
    requires IsTrace(m, size, path) && k < |path| && InLoop(m, size, path[k], s, moved)
    requires KipHit(m.descs, s, size) < |m.descs|
    ensures var next := After(m.descs[KipHit(m.descs, s, size)]);
      && k + 1 < |path|
      && if next == 0 then Outcome(path[k + 1], true, false, 0) else InLoop(m, size, path[k + 1], next, true)
  {
    assert TraceAt(m, size, path, k);
  }

  lemma {:induction false} PastLoop(m: Layout, size: int, path: seq<Probe>, k: nat, s: int, moved: bool)
    requires IsTrace(m, size, path) && k < |path| && InLoop(m, size, path[k], s, moved)
    requires KipHit(m.descs, s, size) == |m.descs|
    ensures k + 1 < |path| && Outcome(path[k + 1], false, !moved, s)
  {
    assert TraceAt(m, size, path, k);
  }

  /** The inner loop of the search: skip past each reserved descriptor in the way. */
  method SkipDescriptors(ghost m: Layout, size: int, from: int, descs: seq<MemDesc>, ghost path: seq<Probe>, ghost k: nat)
    returns (full: bool, found: bool, start: int, ghost n: nat)
    requires m.descs == descs && forall i :: 0 <= i < |descs| ==> descs[i].Valid()
    requires IsTrace(m, size, path) && k < |path| && InLoop(m, size, path[k], from, false)
    ensures k < n < |path| && Outcome(path[n], full, found, start)
    ensures exists j :: k < j < |path| && Outcome(path[j], full, found, start)
  {
    start, found, n := from, true, k;
    var conflict, next := KipConflict(descs, start, size);
    while conflict
      invariant k <= n < |path| && InLoop(m, size, path[n], start, !found)
      invariant conflict <==> KipHit(descs, start, size) < |descs|
      invariant conflict ==> next == (descs[KipHit(descs, start, size)].High() + 1) % WORD
      decreases |path| - n
    {
      PastDesc(m, size, path, n, start, !found);
      start, found, n := RoundUp(next), false, n + 1;
      if start == 0 {
        return true, false, 0, n;
      }
      conflict, next := KipConflict(descs, start, size);
    }
    PastLoop(m, size, path, n, start, !found);
    full, n := false, n + 1;
  }

  /** Does the test of some reserved descriptor report a conflict?  `next` is the address after the
      first one that does. */
  method KipConflict(ds: seq<MemDesc>, start: int, size: int) returns (conflict: bool, next: int)
    requires forall i :: 0 <= i < |ds| ==> ds[i].Valid()
    ensures conflict <==> KipHit(ds, start, size) < |ds|
    ensures conflict ==> next == (ds[KipHit(ds, start, size)].High() + 1) % WORD
  {
    next := 0;
    var end := (size - 1 + start) % WORD;
    for i := 0 to |ds|
      invariant forall j :: 0 <= j < i ==> !TestsKip(ds[j], start, size)
    {
      var d := ds[i];
      if d.isVirtual || d.kind == Conventional { continue; }
      if d.kind == Shared && d.Low() == 0 && (d.High() + 1) % WORD == 0 { continue; }
      next := (d.High() + 1) % WORD;
      if start < d.Low() && end >= d.Low() { return true, next; }
      if start < d.High() && end >= d.High() { return true, next; }
      if start >= d.Low() && end <= d.High() { return true, next; }
    }
    conflict := false;
  }

  class Vm {
    const spaceId: nat
    var inUse: bool
    var haddrBase: int
    var paddrLen: int
    var vaddrOffset: int
    var wedgePaddr: int
    var wedgeVaddr: int

    constructor (id: nat)
      ensures spaceId == id && !inUse && haddrBase == 0 && paddrLen == 0 && vaddrOffset == 0
    {
      spaceId, inUse, haddrBase, paddrLen, vaddrOffset := id, false, 0, 0, 0;
      wedgePaddr, wedgeVaddr := 0, 0;
    }

    function Memory(): Block
      reads this
    {
      Block(haddrBase, paddrLen)
    }

    function State(): VmState
      reads this
    {
      VmState(inUse, Memory())
    }
  }

  class VmAllocator {
    const vms: seq<Vm>
    const descs: seq<MemDesc>
    const maxPhys: int

    ghost predicate Valid()
      reads vms
    {
      && |vms| == MAX_VM && 0 <= maxPhys < WORD
      && (forall i :: 0 <= i < |vms| ==> vms[i].spaceId == i && vms[i].Memory().IsWords())
      && (forall i, j :: 0 <= i < j < |vms| ==> vms[i] != vms[j])
      && (forall i :: 0 <= i < |descs| ==> descs[i].Valid())
    }

    ghost function States(): (vs: seq<VmState>)
      reads vms
      ensures |vs| == |vms| && forall i :: 0 <= i < |vms| ==> vs[i] == vms[i].State()
    {
      seq(|vms|, i requires 0 <= i < |vms| reads vms => vms[i].State())
    }

    ghost function InUse(): Layout
      reads vms
    {
      Layout(BlocksOf(States()), descs)
    }

    /** The first machine, by number, whose test reports a conflict. */
    method VmConflict(start: int, size: int) returns (id: int)
      requires Valid()
      ensures id == if VmHit(InUse().vms, start, size) < |vms| then VmHit(InUse().vms, start, size) else -1
    {
      ghost var bs := InUse().vms;
      var end := (start + size) % WORD;
      for i := 0 to |vms|
        invariant forall j :: 0 <= j < i ==> !TestsVm(bs[j], start, size)
      {
        if vms[i].paddrLen == 0 { continue; }
        if end <= vms[i].haddrBase || start >= (vms[i].haddrBase + vms[i].paddrLen) % WORD { continue; }
        return i;
      }
      return -1;
    }

    /** One turn of the outer loop. */
    method TryCandidate(size: int, from: int, ghost path: seq<Probe>, ghost k: nat)
      returns (full: bool, found: bool, start: int, ghost n: nat)
      requires Valid() && IsTrace(InUse(), size, path) && k < |path| && path[k] == Candidate(from)
      ensures k < n < |path| && Outcome(path[n], full, found, start)
      ensures exists j :: k < j < |path| && Outcome(path[j], full, found, start)
    {
      ghost var m := InUse();
      var id := VmConflict(from, size);
      if id != -1 {
        // Go on behind the machine that is in the way.
        PastVm(m, size, path, k, from);
        start := RoundUp((vms[id].haddrBase + vms[id].paddrLen) % WORD);
        full, found, n := false, false, k + 1;
      } else {
        // A candidate that moved is validated against the machines again.
        full, found, start, n := SkipDescriptors(m, size, from, descs, path, k);
      }
    }

    /** The search of init_mm, whenever it ends. */
    method FindBlock(size: int) returns (found: bool, start: int)
      requires Valid() && Ends(InUse(), size)
      ensures Final(InUse(), size) == if found then Taken(start) else NoRoom
    {
      ghost var path := TraceOf(InUse(), size);
      ghost var k: nat := 0;
      var full := false;
      start, found := 0, false;
      while !found && !full
        invariant k < |path| && Outcome(path[k], full, found, start)
        decreases |path| - k
      {
        full, found, start, k := TryCandidate(size, start, path, k);
      }
      TraceEnd(InUse(), size, path, k);
    }

    /** The first available machine becomes allocated. */
    method AllocateVm() returns (vm: Vm?)
      requires Valid()
      modifies vms
      ensures Valid() && Step(descs, maxPhys, old(States()), Allocate, States())
      ensures vm == null <==> FirstFree(old(States())) == MAX_VM
      ensures vm != null ==> vm == vms[FirstFree(old(States()))]
    {
      for i := 0 to MAX_VM
        invariant forall j :: 0 <= j < i ==> vms[j].inUse
      {
        if !vms[i].inUse {
          vms[i].inUse := true;
          assert States() == old(States())[i := old(States())[i].(inUse := true)];
          return vms[i];
        }
      }
      assert FirstFree(States()) == MAX_VM;
      return null;
    }

    method DeallocateVm(id: nat)
      requires Valid() && id < MAX_VM
      modifies vms[id]
      ensures Valid() && Step(descs, maxPhys, old(States()), Deallocate(id), States())
    {
      vms[id].inUse := false;
      assert States() == old(States())[id := old(States())[id].(inUse := false)];
    }

    /** The place for machine `id`: address 0 for the monitor, a search for the others. */
    method PlaceFor(id: nat, sz: int) returns (ok: bool, start: int)
      requires Valid() && id < MAX_VM && Returns(InUse(), id, sz)
      ensures InitBase(InUse(), maxPhys, id, sz) == if ok then Some(start) else None
      ensures ok ==> 0 <= start < WORD
    {
      start, ok := 0, id == 0;
      InitRange(InUse(), maxPhys, id, sz);
      if !ok {
        ok, start := FindBlock(sz);
      }
      ghost var p := if ok then Taken(start) else NoRoom;
      assert InitBase(InUse(), maxPhys, id, sz) == BaseOf(sz, maxPhys, p);
      if !ok || (start + sz - 1) % WORD >= maxPhys {
        ok := false;
      }
    }

    /** Find host memory for machine `id`, if the search for it ends. */
    method InitMm(id: nat, size: int, vaddrOffset: int, wedgePaddr: int) returns (ok: bool)
      requires Valid() && id < MAX_VM && 0 <= size < WORD && Returns(InUse(), id, RoundUp(size))
      modifies vms[id]
      ensures Valid() && Step(descs, maxPhys, old(States()), Op.InitMm(id, size), States())
      ensures ok <==> InitBase(old(InUse()), maxPhys, id, RoundUp(size)).Some?
      ensures ok ==> vms[id].Memory() == Block(InitBase(old(InUse()), maxPhys, id, RoundUp(size)).value, RoundUp(size))
      ensures ok ==> vms[id].vaddrOffset == vaddrOffset && vms[id].wedgePaddr == wedgePaddr && vms[id].wedgeVaddr == 0
      ensures !ok ==> unchanged(vms[id])
    {
      var sz := RoundUp(size);
      ghost var s := States();
      var start;
      ok, start := PlaceFor(id, sz);
      if !ok {
        return;
      }
      vms[id].paddrLen := sz;
      vms[id].vaddrOffset := vaddrOffset;
      vms[id].haddrBase := start;
      vms[id].wedgePaddr := wedgePaddr;
      vms[id].wedgeVaddr := 0;
      assert States() == s[id := s[id].(block := Block(start, sz))];
    }
  }
}
