/** The pager's device remap table: reference-counted windows onto device pages. */
module RemapTable {

  const TABLE_SIZE := 8192   // a 32MB window in 4KB pages
  const REF_LIMIT := 0x1000  // the reference count is a 12-bit field

  datatype Option<+T> = None | Some(value: T)

  // ---------- What the table means ----------

  datatype Binding = Binding(window: nat, refs: nat)

  /** The pages with references, each with its window. */
  type Live = map<nat, Binding>

  predicate Used(live: Live, w: nat) {
    exists p :: p in live && live[p].window == w
  }

  ghost predicate Lowest(live: Live, w: nat) {
    w < TABLE_SIZE && !Used(live, w) && forall v :: 0 <= v < w ==> Used(live, v)
  }

  lemma LowestExists(live: Live, w: nat)
    requires w < TABLE_SIZE && !Used(live, w)
    ensures exists v :: Lowest(live, v)
  {
    var v := 0;
    while Used(live, v)
      invariant v <= w && forall u :: 0 <= u < v ==> Used(live, u)
      decreases w - v
    {
      v := v + 1;
    }
    assert Lowest(live, v);
  }

  /** The lowest window that no page uses. */
  ghost function FreeWindow(live: Live): (r: Option<nat>)
    ensures r.Some? ==> Lowest(live, r.value)
    ensures r.None? ==> forall v :: 0 <= v < TABLE_SIZE ==> Used(live, v)
  {
    if w: nat :| w < TABLE_SIZE && !Used(live, w) then
      LowestExists(live, w);
      var v :| Lowest(live, v);
      Some(v)
    else None
  }

  datatype Event =
    | Request(page: nat, granted: bool)  // by request_device or get_device; `granted` is sigma0's answer
    | Unmap(page: nat, full: bool)

  /** One more reference; a count that reaches the field's limit is lost, and the page with it. */
  function AddRef(live: Live, p: nat): Live
    requires p in live
  {
    if live[p].refs + 1 == REF_LIMIT then live - {p}
    else live[p := live[p].(refs := live[p].refs + 1)]
  }

  function DropRef(live: Live, p: nat): Live
    requires p in live && live[p].refs > 0
  {
    if live[p].refs == 1 then live - {p}
    else live[p := live[p].(refs := live[p].refs - 1)]
  }

  /** The window an event yields, if it is a request that succeeds. */
  ghost function Yields(live: Live, e: Event): Option<nat> {
    match e
    case Request(p, granted) =>
      if p in live then Some(live[p].window)
      else if granted then FreeWindow(live)
      else None
    case Unmap(_, _) => None
  }

  ghost function Apply(live: Live, e: Event): Live
    requires Sound(live)
  {
    match e
    case Request(p, _) =>
      if Yields(live, e).None? then live
      else if p in live then AddRef(live, p)
      else live[p := Binding(Yields(live, e).value, 1)]
    case Unmap(p, full) =>
      if full && p in live then DropRef(live, p) else live
  }

  /** Counts are positive and fit, windows are in range, and pages have distinct windows. */
  predicate Sound(live: Live) {
    && (forall p :: p in live ==> 0 < live[p].refs < REF_LIMIT && live[p].window < TABLE_SIZE)
    && (forall p, q :: p in live && q in live && live[p].window == live[q].window ==> p == q)
  }

  lemma ApplySound(live: Live, e: Event)
    requires Sound(live)
    ensures Sound(Apply(live, e))
  {
    var live' := Apply(live, e);
    if e.Request? && e.page !in live && Yields(live, e).Some? {
      var w := Yields(live, e).value;
      assert !Used(live, w);
    }
  }

  // ---------- Runs ----------

  ghost function RunOf(es: seq<Event>): (live: Live)
    ensures Sound(live)
  {
    if es == [] then map[]
    else
      var last := |es| - 1;
      ApplySound(RunOf(es[..last]), es[last]);
      Apply(RunOf(es[..last]), es[last])
  }

  /** What an event adds to the references of `p`: a successful request one, a full unmap that finds
      the page takes one away. */
  ghost function Owes(live: Live, e: Event, p: nat): int {
    if e.page == p && Yields(live, e).Some? then 1
    else if e.page == p && e.Unmap? && e.full && p in live then -1
    else 0
  }

  /** Successful requests for `p` minus full unmaps that found it. */
  ghost function Outstanding(es: seq<Event>, p: nat): int {
    if es == [] then 0
    else
      var last := |es| - 1;
      Outstanding(es[..last], p) + Owes(RunOf(es[..last]), es[last], p)
  }

  function Refs(live: Live, p: nat): nat {
    if p in live then live[p].refs else 0
  }

  /** No page of the run has more references than a count can hold, up to event `k`. */
  ghost predicate WithinLimit(es: seq<Event>, p: nat) {
    forall k :: 0 <= k <= |es| ==> FitsAt(es, p, k)
  }

  ghost predicate FitsAt(es: seq<Event>, p: nat, k: nat)
    requires k <= |es|
  {
    Outstanding(es[..k], p) < REF_LIMIT
  }

  /** A count follows its references unless it would outgrow its field. */
  lemma ApplyCounts(live: Live, e: Event, p: nat)
    requires Sound(live) && Refs(live, p) + Owes(live, e, p) < REF_LIMIT
    ensures Refs(Apply(live, e), p) == Refs(live, p) + Owes(live, e, p)
  {
  }

  lemma {:induction false} RunSnoc(es: seq<Event>, p: nat)
    requires es != []
    ensures var init, last := es[..|es| - 1], es[|es| - 1];
      RunOf(es) == Apply(RunOf(init), last) && Outstanding(es, p) == Outstanding(init, p) + Owes(RunOf(init), last, p)
  {
  }

  lemma {:induction false} PrefixFits(es: seq<Event>, p: nat, n: nat)
    requires WithinLimit(es, p) && n <= |es|
    ensures WithinLimit(es[..n], p)
  {
    forall k | 0 <= k <= n ensures FitsAt(es[..n], p, k) {
      assert FitsAt(es, p, k);
      assert es[..n][..k] == es[..k];
    }
  }

  lemma {:induction false} WholeFits(es: seq<Event>, p: nat)
    requires WithinLimit(es, p)
    ensures Outstanding(es, p) < REF_LIMIT
  {
    assert FitsAt(es, p, |es|);
    assert es[..|es|] == es;
  }

  lemma {:induction false} CountsExact(es: seq<Event>, p: nat)
    requires WithinLimit(es, p)
    ensures Refs(RunOf(es), p) == Outstanding(es, p)
  {
    if es != [] {
      var init := es[..|es| - 1];
      PrefixFits(es, p, |es| - 1);
      CountsExact(init, p);
      RunSnoc(es, p);
      WholeFits(es, p);
      ApplyCounts(RunOf(init), es[|es| - 1], p);
    }
  }

  lemma {:induction false} PrefixExact(es: seq<Event>, p: nat, k: nat)
    requires WithinLimit(es, p) && k <= |es|
    ensures Refs(RunOf(es[..k]), p) == Outstanding(es[..k], p)
  {
    PrefixFits(es, p, k);
    CountsExact(es[..k], p);
  }

  /** Reference counts are exact throughout a run just when no page exceeds the count's width. */
  lemma {:induction false} CountsExactIffWithinLimit(es: seq<Event>, p: nat)
    ensures WithinLimit(es, p) <==> forall k :: 0 <= k <= |es| ==> ExactAt(es, p, k)
  {
    if WithinLimit(es, p) {
      forall k | 0 <= k <= |es| ensures ExactAt(es, p, k) { PrefixExact(es, p, k); }
    } else {
      var k: nat :| k <= |es| && !FitsAt(es, p, k);
      assert Refs(RunOf(es[..k]), p) < REF_LIMIT;
      assert !ExactAt(es, p, k);
    }
  }

  /** After `k` events the page's count is the number of its outstanding references. */
  ghost predicate ExactAt(es: seq<Event>, p: nat, k: nat)
    requires k <= |es|
  {
    Refs(RunOf(es[..k]), p) == Outstanding(es[..k], p)
  }

  /** Request `i` succeeded, and at no time since were all requests for its page undone. */
  ghost predicate Holding(es: seq<Event>, i: nat) {
    && i < |es| && es[i].Request? && Yields(RunOf(es[..i]), es[i]).Some?
    && forall k :: i < k <= |es| ==> OwedAt(es, es[i].page, k)
  }

  ghost predicate OwedAt(es: seq<Event>, p: nat, k: nat)
    requires k <= |es|
  {
    Outstanding(es[..k], p) > 0
  }

  ghost function WindowOf(es: seq<Event>, i: nat): nat
    requires i < |es| && Yields(RunOf(es[..i]), es[i]).Some?
  {
    Yields(RunOf(es[..i]), es[i]).value
  }

  lemma ApplyKeepsWindow(live: Live, e: Event, p: nat)
    requires Sound(live) && p in Apply(live, e)
    ensures p in live ==> Apply(live, e)[p].window == live[p].window
    ensures e.page == p && Yields(live, e).Some? ==> Apply(live, e)[p].window == Yields(live, e).value
  {
  }

  ghost predicate HasWindow(live: Live, p: nat, w: nat) {
    p in live && live[p].window == w
  }

  /** What is live before and after each event. */
  ghost predicate IsHistory(es: seq<Event>, ls: seq<Live>) {
    |ls| == |es| + 1 && forall k :: 0 <= k < |es| ==> HistoryAt(es, ls, k)
  }

  ghost predicate HistoryAt(es: seq<Event>, ls: seq<Live>, k: nat)
    requires k < |es| && |ls| == |es| + 1
  {
    Sound(ls[k]) && ls[k + 1] == Apply(ls[k], es[k])
  }

  ghost predicate LiveAt(ls: seq<Live>, p: nat, k: nat)
    requires k < |ls|
  {
    p in ls[k]
  }

  /** One event leaves the window of a page that stays live, and opens the one it yields. */
  lemma HistoryStep(es: seq<Event>, ls: seq<Live>, k: nat, p: nat, w: nat)
    requires IsHistory(es, ls) && k < |es| && LiveAt(ls, p, k + 1)
    requires HasWindow(ls[k], p, w) || (es[k].page == p && Yields(ls[k], es[k]) == Some(w))
    ensures HasWindow(ls[k + 1], p, w)
  {
    assert HistoryAt(es, ls, k);
    ApplyKeepsWindow(ls[k], es[k], p);
  }

  lemma {:induction false} HistoryKeeps(es: seq<Event>, ls: seq<Live>, i: nat, k: nat, w: nat)
    requires IsHistory(es, ls) && i < k <= |es| && Yields(ls[i], es[i]) == Some(w)
    requires forall l :: i < l <= k ==> LiveAt(ls, es[i].page, l)
    ensures HasWindow(ls[k], es[i].page, w)
  {
    if i < k - 1 { HistoryKeeps(es, ls, i, k - 1, w); }
    HistoryStep(es, ls, k - 1, es[i].page, w);
  }

  lemma {:induction false} RunHistory(es: seq<Event>, ls: seq<Live>)
    requires |ls| == |es| + 1 && forall k :: 0 <= k <= |es| ==> ls[k] == RunOf(es[..k])
    ensures IsHistory(es, ls)
  {
    forall k | 0 <= k < |es| ensures HistoryAt(es, ls, k) {
      assert es[..k + 1][..k] == es[..k];
    }
  }

  lemma {:induction false} HeldIsLive(es: seq<Event>, i: nat, k: nat)
    requires Holding(es, i) && WithinLimit(es, es[i].page) && i < k <= |es|
    ensures es[i].page in RunOf(es[..k])
  {
    assert OwedAt(es, es[i].page, k);
    PrefixExact(es, es[i].page, k);
  }

  /** A page keeps its window as long as requests for it are outstanding. */
  lemma {:induction false} WindowKept(es: seq<Event>, i: nat, k: nat)
    requires Holding(es, i) && WithinLimit(es, es[i].page) && i < k <= |es|
    ensures HasWindow(RunOf(es[..k]), es[i].page, WindowOf(es, i))
  {
    var ls := seq(|es| + 1, l requires 0 <= l <= |es| => RunOf(es[..l]));
    RunHistory(es, ls);
    forall l | i < l <= k ensures LiveAt(ls, es[i].page, l) { HeldIsLive(es, i, l); }
    HistoryKeeps(es, ls, i, k, WindowOf(es, i));
  }

  lemma SoundWindows(live: Live, p: nat, q: nat, v: nat, w: nat)
    requires Sound(live) && HasWindow(live, p, v) && HasWindow(live, q, w)
    ensures v == w <==> p == q
  {
  }

  /** Two requests whose references are still held share a window iff they named the same page. */
  lemma {:induction false} SharedWindowIffSamePage(es: seq<Event>, i: nat, j: nat)
    requires Holding(es, i) && Holding(es, j) && WithinLimit(es, es[i].page) && WithinLimit(es, es[j].page)
    ensures WindowOf(es, i) == WindowOf(es, j) <==> es[i].page == es[j].page
  {
    WindowKept(es, i, |es|);
    WindowKept(es, j, |es|);
    SoundWindows(RunOf(es[..|es|]), es[i].page, es[j].page, WindowOf(es, i), WindowOf(es, j));
  }

  // ---------- Counts that are lost ----------

  ghost predicate AllFor(es: seq<Event>, p: nat) {
    forall i :: 0 <= i < |es| ==> es[i] == Request(p, true)
  }

  lemma FirstWindow(live: Live)
    requires live == map[]
    ensures FreeWindow(live) == Some(0)
  {
    assert !Used(live, 0);
  }

  lemma RequestAgain(live: Live, p: nat, n: nat)
    requires n < REF_LIMIT && live == if n == 0 then map[] else map[p := Binding(0, n)]
    ensures Yields(live, Request(p, true)) == Some(0)
    ensures Apply(live, Request(p, true)) == if n + 1 < REF_LIMIT then map[p := Binding(0, n + 1)] else map[]
  {
    if n == 0 { FirstWindow(live); }
  }

  /** Requests for one page are counted up to 4095; the next one loses the page and all its references. */
  lemma {:induction false} CountLost(es: seq<Event>, p: nat)
    requires AllFor(es, p) && |es| <= REF_LIMIT
    ensures Outstanding(es, p) == |es|
    ensures RunOf(es) == if 0 < |es| < REF_LIMIT then map[p := Binding(0, |es|)] else map[]
  {
    if es != [] {
      var init := es[..|es| - 1];
      CountLost(init, p);
      RunSnoc(es, p);
      RequestAgain(RunOf(init), p, |init|);
    }
  }

  lemma {:induction false} LostIsOwed(es: seq<Event>, p: nat, q: nat, k: nat)
    requires |es| == REF_LIMIT + 1 && AllFor(es[..REF_LIMIT], p) && es[REF_LIMIT] == Request(q, true) && p != q && 0 < k <= |es|
    ensures OwedAt(es, p, k)
  {
    if k <= REF_LIMIT {
      assert es[..REF_LIMIT][..k] == es[..k];
      CountLost(es[..k], p);
    } else {
      assert es[..k] == es;
      CountLost(es[..REF_LIMIT], p);
      RunSnoc(es, p);
    }
  }

  lemma {:induction false} NoneForOther(es: seq<Event>, p: nat, q: nat)
    requires AllFor(es, p) && p != q
    ensures Outstanding(es, q) == 0
  {
    if es != [] { NoneForOther(es[..|es| - 1], p, q); }
  }

  lemma {:induction false} OtherIsOwed(es: seq<Event>, p: nat, q: nat)
    requires |es| == REF_LIMIT + 1 && AllFor(es[..REF_LIMIT], p) && es[REF_LIMIT] == Request(q, true) && p != q
    ensures OwedAt(es, q, |es|)
  {
    CountLost(es[..REF_LIMIT], p);
    FirstWindow(RunOf(es[..REF_LIMIT]));
    NoneForOther(es[..REF_LIMIT], p, q);
    RunSnoc(es, q);
    assert es[..|es|] == es;
  }

  lemma {:induction false} LostYields(es: seq<Event>, p: nat, q: nat)
    requires |es| == REF_LIMIT + 1 && AllFor(es[..REF_LIMIT], p) && es[REF_LIMIT] == Request(q, true)
    ensures es[0] == Request(p, true) && Yields(RunOf(es[..0]), es[0]) == Some(0) == Yields(RunOf(es[..REF_LIMIT]), es[REF_LIMIT])
  {
    assert es[..REF_LIMIT][0] == es[0] && es[..0] == [];
    FirstWindow(RunOf(es[..0]));
    CountLost(es[..REF_LIMIT], p);
    FirstWindow(RunOf(es[..REF_LIMIT]));
  }

  /** After 4096 requests for one page, a request for another gets the same window, though none of
      the requests has been undone. */
  lemma {:induction false} LostCountShares(es: seq<Event>, p: nat, q: nat)
    requires |es| == REF_LIMIT + 1 && AllFor(es[..REF_LIMIT], p) && es[REF_LIMIT] == Request(q, true) && p != q
    ensures Holding(es, 0) && Holding(es, REF_LIMIT) && es[0].page != es[REF_LIMIT].page
    ensures WindowOf(es, 0) == WindowOf(es, REF_LIMIT) == 0
  {
    LostYields(es, p, q);
    forall k | 0 < k <= |es| ensures OwedAt(es, p, k) { LostIsOwed(es, p, q, k); }
    OtherIsOwed(es, p, q);
  }

  // ---------- The table ----------

  datatype Slot = Slot(phys: nat, ref: nat)

  /** The slots with references are exactly the live pages' windows. */
  predicate Represents(t: seq<Slot>, live: Live) {
    && (forall i :: 0 <= i < |t| && t[i].ref != 0 ==> t[i].phys in live && live[t[i].phys] == Binding(i, t[i].ref))
    && (forall p :: p in live ==> live[p].window < |t| && t[live[p].window] == Slot(p, live[p].refs))
  }

  class Table {
    const slots: array<Slot>
    // High-water mark: no slot above it has references.
    var maxUsed: nat
    ghost var live: Live

    ghost predicate Valid()
      reads this, slots
    {
      && slots.Length == TABLE_SIZE && maxUsed < TABLE_SIZE
      && Sound(live) && Represents(slots[..], live)
      && forall i :: maxUsed < i < TABLE_SIZE ==> slots[i].ref == 0
    }

    constructor ()
      ensures Valid() && live == map[] && fresh(slots)
    {
      slots := new Slot[TABLE_SIZE](_ => Slot(0, 0));
      maxUsed := 0;
      live := map[];
    }

    /** The slot that holds references to `page`, or the table size. */
    method Find(page: nat) returns (w: nat)
      requires Valid()
      ensures w < TABLE_SIZE ==> page in live && live[page].window == w
      ensures w >= TABLE_SIZE ==> w == TABLE_SIZE && page !in live
    {
      for idx := 0 to maxUsed + 1
        invariant forall i :: 0 <= i < idx ==> slots[i].ref == 0 || slots[i].phys != page
      {
        if slots[idx].ref > 0 && slots[idx].phys == page {
          return idx;
        }
      }
      w := TABLE_SIZE;
    }

    /** The first slot without references.  The scan reads one element past the table; `beyond` is
        what it finds there. */
    method FindFree(beyond: Slot) returns (w: nat)
      requires Valid()
      ensures w < TABLE_SIZE ==> FreeWindow(live) == Some(w)
      ensures w >= TABLE_SIZE ==> w == TABLE_SIZE && FreeWindow(live) == None
    {
      w := TABLE_SIZE;
      for idx := 0 to TABLE_SIZE + 1
        invariant w == TABLE_SIZE
        invariant forall i :: 0 <= i < idx && i < TABLE_SIZE ==> slots[i].ref != 0
      {
        var ref := if idx < TABLE_SIZE then slots[idx].ref else beyond.ref;
        if ref == 0 {
          w := idx;
          break;
        }
      }
      forall v: nat | v < TABLE_SIZE ensures Used(live, v) <==> slots[v].ref != 0 {
        UsedIffReferenced(slots[..], live, v);
      }
    }

    /** A reference to `page`: its window if it has one, else a free window if sigma0 grants the
        mapping. */
    method MapPage(page: nat, granted: bool, beyond: Slot) returns (w: Option<nat>)
      requires Valid()
      modifies this, slots
      ensures Valid()
      ensures live == Apply(old(live), Request(page, granted))
      ensures w == Yields(old(live), Request(page, granted))
    {
      var idx := Find(page);
      if idx == TABLE_SIZE {
        w := ClaimWindow(page, granted, beyond);
      } else {
        assert slots[..] == slots[..][idx := Slot(page, slots[idx].ref)];
        TakeReference(page, granted, idx, slots[..]);
        w := Some(idx);
      }
    }

    /** The first reference to a page takes a free window. */
    method ClaimWindow(page: nat, granted: bool, beyond: Slot) returns (w: Option<nat>)
      requires Valid() && page !in live
      modifies this, slots
      ensures Valid()
      ensures live == Apply(old(live), Request(page, granted))
      ensures w == Yields(old(live), Request(page, granted))
    {
      ghost var t := slots[..];
      var idx := FindFree(beyond);
      if idx == TABLE_SIZE {
        return None;
      }
      if maxUsed < idx {
        maxUsed := idx;
      }
      if !granted {
        return None;
      }
      slots[idx] := slots[idx].(phys := page);
      assert slots[..] == t[idx := Slot(page, t[idx].ref)];
      TakeReference(page, granted, idx, t);
      return Some(idx);
    }

    /** Count one more reference in slot `idx`, which holds the page's number. */
    method TakeReference(page: nat, granted: bool, idx: nat, ghost t: seq<Slot>)
      requires slots.Length == |t| == TABLE_SIZE && idx <= maxUsed < TABLE_SIZE && Sound(live) && Represents(t, live)
      requires slots[..] == t[idx := Slot(page, t[idx].ref)] && Yields(live, Request(page, granted)) == Some(idx)
      requires forall i :: maxUsed < i < TABLE_SIZE ==> slots[i].ref == 0
      modifies this`live, slots
      ensures Valid() && live == Apply(old(live), Request(page, granted))
    {
      ghost var e := Request(page, granted);
      slots[idx] := slots[idx].(ref := (slots[idx].ref + 1) % REF_LIMIT);
      assert slots[..] == t[idx := Slot(page, (t[idx].ref + 1) % REF_LIMIT)];
      RepresentsRequest(t, live, e, idx);
      ApplySound(live, e);
      live := Apply(live, e);
    }

    /** Move the high-water mark down to the last slot with references. */
    method LowerMark()
      requires slots.Length == TABLE_SIZE && maxUsed < TABLE_SIZE
      requires forall i :: maxUsed < i < TABLE_SIZE ==> slots[i].ref == 0
      modifies this`maxUsed
      ensures maxUsed <= old(maxUsed) && forall i :: maxUsed < i < TABLE_SIZE ==> slots[i].ref == 0
      ensures slots[old(maxUsed)].ref != 0 ==> maxUsed == old(maxUsed)
    {
      var idx := maxUsed;
      while idx > 0 && slots[idx].ref == 0
        invariant 0 <= idx <= maxUsed
        invariant forall i :: idx < i < TABLE_SIZE ==> slots[i].ref == 0
        invariant slots[maxUsed].ref != 0 ==> idx == maxUsed
      {
        idx := idx - 1;
      }
      if slots[idx].ref != 0 {
        maxUsed := idx;
      }
    }

    /** Drop a reference to `page`, or, when `full` is false, only some access rights. */
    method UnmapPage(page: nat, full: bool)
      requires Valid()
      modifies this, slots
      ensures Valid()
      ensures live == Apply(old(live), Unmap(page, full))
      ensures maxUsed == old(maxUsed)
    {
      var w := Find(page);
      if w == TABLE_SIZE {
        return;
      }
      if w == maxUsed {
        LowerMark();
      }
      if full {
        DropReference(page, w);
      }
    }

    method DropReference(page: nat, w: nat)
      requires Valid() && page in live && live[page].window == w
      modifies this`live, slots
      ensures Valid() && live == Apply(old(live), Unmap(page, true))
    {
      ghost var t, e := slots[..], Unmap(page, true);
      slots[w] := slots[w].(ref := slots[w].ref - 1);
      if slots[w].ref == 0 {
        slots[w] := slots[w].(phys := 0);
      }
      assert slots[..] == t[w := Slot(if t[w].ref == 1 then 0 else page, t[w].ref - 1)];
      RepresentsUnmap(t, live, page, w);
      ApplySound(live, e);
      live := Apply(live, e);
    }

    /** request_device: a refused mapping is replaced by a page of the guest's own memory, when the
        requested range translates and sigma0 hands that page over. */
    method RequestDevice(area: nat, addr: nat, firstGrant: bool, inGuest: bool, fakeGrant: bool, beyond: Slot)
      returns (window: Option<nat>)
      requires Valid()
      modifies this, slots
      ensures Valid()
      ensures var e := Request(addr / 0x1000, firstGrant || (inGuest && fakeGrant));
        && live == Apply(old(live), e)
        && (window.Some? <==> Yields(old(live), e).Some?)
        && (window.Some? ==> window.value == area + 0x1000 * Yields(old(live), e).value + addr % 0x1000)
    {
      var w := MapPage(addr / 0x1000, firstGrant || (inGuest && fakeGrant), beyond);
      window := if w.Some? then Some(area + 0x1000 * w.value + addr % 0x1000) else None;
    }

    /** get_device: a refused mapping is a failure. */
    method GetDevice(area: nat, addr: nat, granted: bool, beyond: Slot) returns (window: nat)
      requires Valid() && area > 0
      modifies this, slots
      ensures Valid()
      ensures var e := Request(addr / 0x1000, granted);
        && live == Apply(old(live), e)
        && window == match Yields(old(live), e)
                     case None => 0
                     case Some(w) => area + 0x1000 * w + addr % 0x1000
    {
      var w := MapPage(addr / 0x1000, granted, beyond);
      window := if w.Some? then area + 0x1000 * w.value + addr % 0x1000 else 0;
    }
  }

  lemma RepresentsAgain(t: seq<Slot>, live: Live, p: nat, w: nat)
    requires Sound(live) && Represents(t, live) && p in live && live[p].window == w < |t|
    ensures Represents(t[w := Slot(p, (t[w].ref + 1) % REF_LIMIT)], AddRef(live, p))
  {
    var t' := t[w := Slot(p, (t[w].ref + 1) % REF_LIMIT)];
    var live' := AddRef(live, p);
    forall q | q in live' ensures live'[q].window < |t'| && t'[live'[q].window] == Slot(q, live'[q].refs) {
      if q != p { assert q in live && live[q].window != w; }
    }
  }

  lemma RepresentsNew(t: seq<Slot>, live: Live, p: nat, w: nat)
    requires Sound(live) && Represents(t, live) && p !in live && w < |t| && t[w].ref == 0
    ensures Represents(t[w := Slot(p, 1)], live[p := Binding(w, 1)])
  {
  }

  /** A request's effect on the slots. */
  lemma RepresentsRequest(t: seq<Slot>, live: Live, e: Event, w: nat)
    requires Sound(live) && Represents(t, live) && e.Request? && w < |t| == TABLE_SIZE && Yields(live, e) == Some(w)
    ensures Represents(t[w := Slot(e.page, (t[w].ref + 1) % REF_LIMIT)], Apply(live, e))
    ensures e.page in live ==> t[w].phys == e.page
  {
    if e.page in live {
      RepresentsAgain(t, live, e.page, w);
    } else {
      UsedIffReferenced(t, live, w);
      RepresentsNew(t, live, e.page, w);
    }
  }

  lemma RepresentsUnmap(t: seq<Slot>, live: Live, p: nat, w: nat)
    requires Sound(live) && Represents(t, live) && p in live && live[p].window == w < |t|
    ensures Represents(t[w := Slot(if t[w].ref == 1 then 0 else p, t[w].ref - 1)], DropRef(live, p))
  {
    var t' := t[w := Slot(if t[w].ref == 1 then 0 else p, t[w].ref - 1)];
    var live' := DropRef(live, p);
    forall q | q in live' ensures live'[q].window < |t'| && t'[live'[q].window] == Slot(q, live'[q].refs) {
      if q != p { assert q in live && live[q].window != w; }
    }
  }

  lemma UsedIffReferenced(t: seq<Slot>, live: Live, v: nat)
    requires Sound(live) && Represents(t, live) && v < |t|
    ensures Used(live, v) <==> t[v].ref != 0
  {
    if t[v].ref != 0 {
      assert live[t[v].phys].window == v;
    }
  }
}
