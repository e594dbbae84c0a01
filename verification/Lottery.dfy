/** The energy-aware variant of the scheduler: a lottery weighted by power consumption. */
module Lottery {

  // Tickets, powers and their sums are 32-bit words.
  const WORD := 0x1_0000_0000

  datatype Account = Account(runnable: bool, ticket: nat, eticket: nat, apower: nat, vpower: nat)

  datatype Policy = ActivePower | VirtualPower | Time

  function Weighted(ticket: nat, power: nat): nat {
    (1 + (100 * ticket) % WORD / (power / 1000 + 1)) % WORD
  }

  /** A weight is never zero: hundred tickets are an even number of them. */
  lemma WeightedPositive(ticket: nat, power: nat)
    ensures 0 < Weighted(ticket, power) == 1 + (100 * ticket) % WORD / (power / 1000 + 1) < WORD
  {
    var x, d := (100 * ticket) % WORD, power / 1000 + 1;
    EvenWord(50 * ticket);
    QuotientAtMost(x, d);
    OneMore(x / d);
  }

  lemma EvenWord(n: nat)
    ensures (2 * n) % WORD <= WORD - 2
  {
    var q, r := 2 * n / WORD, (2 * n) % WORD;
    assert r == 2 * (n - q * (WORD / 2));
  }

  lemma OneMore(q: nat)
    requires q <= WORD - 2
    ensures (1 + q) % WORD == 1 + q
  {
  }

  lemma QuotientAtMost(x: nat, d: nat)
    requires d > 0
    ensures x / d <= x
  {
    var q, r := x / d, x % d;
    assert q * d + r == x;
    TimesAtLeast(q, d);
  }

  lemma TimesAtLeast(q: nat, d: nat)
    requires d > 0
    ensures q * d >= q
  {
  }

  lemma WordAdd(a: nat, b: nat)
    ensures (a % WORD + b) % WORD == (a + b) % WORD
  {
  }

  function Eticket(p: Policy, a: Account): nat {
    match p
    case ActivePower => Weighted(a.ticket, a.apower)
    case VirtualPower => Weighted(a.ticket, a.vpower)
    case Time => a.ticket
  }

  /** What each context has at stake: nothing unless it can run. */
  function Stake(p: Policy, a: Account): nat {
    if a.runnable then Eticket(p, a) else 0
  }

  function Stakes(p: Policy, xs: seq<Account>): (r: seq<nat>)
    ensures |r| == |xs| && forall i :: 0 <= i < |xs| ==> r[i] == Stake(p, xs[i])
  {
    seq(|xs|, i requires 0 <= i < |xs| => Stake(p, xs[i]))
  }

  function Sum(s: seq<nat>): nat {
    if s == [] then 0 else Sum(s[..|s| - 1]) + s[|s| - 1]
  }

  lemma SumStep(s: seq<nat>, i: nat)
    requires i < |s|
    ensures Sum(s[..i + 1]) == Sum(s[..i]) + s[i]
  {
    assert s[..i + 1][..i] == s[..i];
  }

  lemma {:induction false} SumMonotone(s: seq<nat>, i: nat, j: nat)
    requires i <= j <= |s|
    ensures Sum(s[..i]) <= Sum(s[..j])
    decreases j - i
  {
    if i < j { SumStep(s, i); SumMonotone(s, i + 1, j); }
  }

  lemma {:induction false} SumBounds(s: seq<nat>, i: nat)
    requires i < |s|
    ensures Sum(s[..i]) + s[i] == Sum(s[..i + 1]) <= Sum(s)
  {
    assert s[..|s|] == s;
    SumStep(s, i);
    SumMonotone(s, i + 1, |s|);
  }

  /** The draw falls among the tickets of context `i`. */
  predicate Owns(s: seq<nat>, draw: nat, i: nat) {
    i < |s| && Sum(s[..i]) <= draw < Sum(s[..i + 1])
  }

  // ---------- Proportional shares ----------

  lemma OwnerUnique(s: seq<nat>, draw: nat, i: nat, j: nat)
    requires Owns(s, draw, i) && Owns(s, draw, j)
    ensures i == j
  {
    if i < j { SumMonotone(s, i + 1, j); } else if j < i { SumMonotone(s, j + 1, i); }
  }

  /** Every draw below the sum has exactly one owner, and the owner has something at stake. */
  lemma {:induction false} OwnerExists(s: seq<nat>, draw: nat) returns (i: nat)
    requires draw < Sum(s)
    ensures Owns(s, draw, i) && s[i] > 0 && forall j :: Owns(s, draw, j) ==> j == i
  {
    i := 0;
    while i < |s| && Sum(s[..i + 1]) <= draw
      invariant i <= |s| && Sum(s[..i]) <= draw
    {
      i := i + 1;
    }
    assert s[..|s|] == s;
    SumStep(s, i);
    forall j | Owns(s, draw, j) ensures j == i { OwnerUnique(s, draw, i, j); }
  }

  function Interval(lo: nat, hi: nat): (r: set<nat>)
    requires lo <= hi
    ensures |r| == hi - lo && forall d :: d in r <==> lo <= d < hi
    decreases hi
  {
    if lo == hi then {} else Interval(lo, hi - 1) + {hi - 1}
  }

  /** The draws that context `i` wins. */
  ghost function Wins(s: seq<nat>, i: nat): set<nat> {
    set d: nat | d < Sum(s) && Owns(s, d, i)
  }

  /** A context wins exactly as many of the draws as it has tickets. */
  lemma {:induction false} WinsExactly(s: seq<nat>, i: nat)
    requires i < |s|
    ensures |Wins(s, i)| == s[i]
  {
    SumBounds(s, i);
    assert Wins(s, i) == Interval(Sum(s[..i]), Sum(s[..i + 1]));
  }

  // ---------- The draw in word arithmetic ----------

  /** The running sum of tickets up to context `i`, as a word, exceeds the draw. */
  predicate Exceeds(s: seq<nat>, draw: nat, i: nat)
    requires i < |s|
  {
    draw < Sum(s[..i + 1]) % WORD
  }

  /** It does so first at context `i`. */
  predicate Picks(s: seq<nat>, draw: nat, i: nat) {
    i < |s| && Exceeds(s, draw, i) && forall j :: 0 <= j < i ==> !Exceeds(s, draw, j)
  }

  /** The draws, below the sum as a word, that pick context `i`. */
  ghost function WordWins(s: seq<nat>, i: nat): set<nat> {
    set d: nat | d < Sum(s) % WORD && Picks(s, d, i)
  }

  lemma {:induction false} PicksOwner(s: seq<nat>, draw: nat, i: nat)
    requires Sum(s) < WORD && draw < Sum(s)
    ensures Picks(s, draw, i) <==> Owns(s, draw, i)
  {
    forall j | 0 <= j < |s| ensures Exceeds(s, draw, j) <==> draw < Sum(s[..j + 1]) { SumBounds(s, j); }
    if Owns(s, draw, i) {
      forall j | 0 <= j < i ensures !Exceeds(s, draw, j) { SumMonotone(s, j + 1, i); }
    }
    assert Picks(s, draw, i) && i > 0 ==> !Exceeds(s, draw, i - 1);
  }

  lemma {:induction false} SmallSumWins(s: seq<nat>, i: nat)
    requires Sum(s) < WORD && i < |s|
    ensures |WordWins(s, i)| == s[i]
  {
    forall d: nat | d < Sum(s) ensures Picks(s, d, i) <==> Owns(s, d, i) { PicksOwner(s, d, i); }
    assert WordWins(s, i) == Wins(s, i);
    WinsExactly(s, i);
  }

  /** All draws that pick one of the first `n` contexts. */
  ghost function WinsBelow(s: seq<nat>, n: nat): set<nat> {
    set d: nat | d < Sum(s) % WORD && PicksBelow(s, d, n)
  }

  ghost predicate PicksBelow(s: seq<nat>, draw: nat, n: nat) {
    exists i :: 0 <= i < n && Picks(s, draw, i)
  }

  lemma {:induction false} WinsAdd(s: seq<nat>, n: nat)
    requires n < |s|
    ensures |WinsBelow(s, n + 1)| == |WinsBelow(s, n)| + |WordWins(s, n)|
  {
    var a, b := WinsBelow(s, n), WordWins(s, n);
    assert a !! b;
    assert WinsBelow(s, n + 1) == a + b;
  }

  lemma {:induction false} WinsSum(s: seq<nat>, n: nat)
    requires n <= |s| && forall i :: 0 <= i < n ==> |WordWins(s, i)| == s[i]
    ensures |WinsBelow(s, n)| == Sum(s[..n])
  {
    if n == 0 {
      assert WinsBelow(s, 0) == {};
    } else {
      WinsSum(s, n - 1);
      WinsAdd(s, n - 1);
      SumStep(s, n - 1);
    }
  }

  lemma SubsetSmaller(a: set<nat>, b: set<nat>)
    requires a <= b
    ensures |a| <= |b|
  {
    assert b == a + (b - a);
  }

  /** The lottery is exactly proportional just when the ticket sum fits a word. */
  lemma {:induction false} ProportionalIff(s: seq<nat>)
    ensures (forall i :: 0 <= i < |s| ==> |WordWins(s, i)| == s[i]) <==> Sum(s) < WORD
  {
    if Sum(s) < WORD {
      forall i | 0 <= i < |s| ensures |WordWins(s, i)| == s[i] { SmallSumWins(s, i); }
    } else if forall i :: 0 <= i < |s| ==> |WordWins(s, i)| == s[i] {
      WinsSum(s, |s|);
      assert s[..|s|] == s;
      SubsetSmaller(WinsBelow(s, |s|), Interval(0, Sum(s) % WORD));
    }
  }

  /** When the tickets of two contexts outgrow a word the first wins every draw, the second none. */
  lemma {:induction false} SecondNeverWins(s: seq<nat>)
    requires |s| == 2 && s[0] < WORD && s[1] < WORD && Sum(s) >= WORD
    ensures |WordWins(s, 0)| == s[0] + s[1] - WORD && WordWins(s, 1) == {}
  {
    SumTwo(s);
    var esum := s[0] + s[1] - WORD;
    assert Sum(s) % WORD == esum < s[0];
    FirstTakesAll(s, esum);
    assert WordWins(s, 0) == Interval(0, esum);
  }

  lemma SumTwo(s: seq<nat>)
    requires |s| == 2
    ensures Sum(s[..1]) == s[0] && Sum(s) == s[0] + s[1]
  {
    assert s[..0] == [] && s[..2] == s;
    SumStep(s, 0);
    SumStep(s, 1);
  }

  lemma {:induction false} FirstTakesAll(s: seq<nat>, esum: nat)
    requires |s| > 0 && esum <= Sum(s[..1]) % WORD
    ensures forall d: nat, i: nat :: d < esum ==> (Picks(s, d, i) <==> i == 0)
  {
    forall d: nat, i: nat | d < esum ensures Picks(s, d, i) <==> i == 0 {
      assert Exceeds(s, d, 0);
    }
  }

  lemma Outgrown(a: Account)
    requires a == Account(true, 0x200_0000, 0, 0, 0)
    ensures Stake(ActivePower, a) == 3355443201
  {
  }

  /** Two such contexts, both able to run. */
  lemma {:induction false} TicketsOutgrowWord(xs: seq<Account>)
    requires |xs| == 2 && forall i :: 0 <= i < 2 ==> xs[i] == Account(true, 0x200_0000, 0, 0, 0)
    ensures var s := Stakes(ActivePower, xs); |WordWins(s, 1)| == 0 < s[1]
  {
    var s := Stakes(ActivePower, xs);
    Outgrown(xs[0]);
    Outgrown(xs[1]);
    SumBounds(s, 0);
    SumBounds(s, 1);
    SecondNeverWins(s);
  }

  /** Under the two power policies every context that can run can win. */
  lemma {:induction false} EveryRunnableCanWin(p: Policy, xs: seq<Account>, i: nat)
    requires p != Time && i < |xs| && xs[i].runnable && Sum(Stakes(p, xs)) < WORD
    ensures WordWins(Stakes(p, xs), i) != {}
  {
    StakePositive(p, xs[i]);
    SmallSumWins(Stakes(p, xs), i);
  }

  lemma StakePositive(p: Policy, a: Account)
    requires p != Time
    ensures Stake(p, a) > 0 <==> a.runnable
  {
    WeightedPositive(a.ticket, a.apower);
    WeightedPositive(a.ticket, a.vpower);
  }

  /** Under the power policies the sum is zero exactly when no context can run. */
  lemma {:induction false} SumZeroIff(p: Policy, xs: seq<Account>)
    requires p != Time
    ensures Sum(Stakes(p, xs)) == 0 <==> forall i :: 0 <= i < |xs| ==> !xs[i].runnable
  {
    var s := Stakes(p, xs);
    forall i | 0 <= i < |xs| && xs[i].runnable ensures Sum(s) > 0 {
      StakePositive(p, xs[i]);
      SumBounds(s, i);
    }
    if Sum(s) > 0 {
      var i := OwnerExists(s, 0);
      assert Stake(p, xs[i]) > 0;
    }
  }

  // ---------- The in-place scheduler ----------

  /** The cap in percent; a power of all ones wraps the divisor to zero, which the original does not guard. */
  function Cap(cpower: nat, apower: nat): nat {
    if (apower + 1) % WORD == 0 then 0 else (cpower * 100) % WORD / ((apower + 1) % WORD)
  }

  /** The processor's power cap refuses to run anything in this round. */
  predicate Capped(cpower: nat, apower: nat, capDraw: nat) {
    cpower != 0 && Cap(cpower, apower) < 100 && capDraw % 100 > Cap(cpower, apower)
  }

  class Energy {
    const accounts: array<Account>
    const policy: Policy
    var scheduled: nat
    var apower: nat
    var cpower: nat

    constructor (xs: array<Account>, p: Policy)
      ensures accounts == xs && policy == p && scheduled == 0 && apower == 0 && cpower == 0
    {
      accounts, policy, scheduled, apower, cpower := xs, p, 0, 0, 0;
    }

    ghost function Shares(): seq<nat>
      reads this, accounts
    {
      Stakes(policy, accounts[..])
    }

    /** Recompute the tickets of the contexts that can run; the others keep theirs. */
    method AssignTickets() returns (esum: nat)
      modifies accounts
      ensures esum == Sum(old(Shares())) % WORD && Shares() == old(Shares())
      ensures forall i :: 0 <= i < accounts.Length ==> var x := old(accounts[i]);
        accounts[i] == if x.runnable then x.(eticket := Eticket(policy, x)) else x
    {
      ghost var shares := Shares();
      esum := 0;
      for i := 0 to accounts.Length
        invariant esum == Sum(shares[..i]) % WORD
        invariant forall j :: 0 <= j < accounts.Length ==> var x := old(accounts[j]);
          accounts[j] == if j < i && x.runnable then x.(eticket := Eticket(policy, x)) else x
      {
        SumStep(shares, i);
        WordAdd(Sum(shares[..i]), shares[i]);
        if accounts[i].runnable {
          accounts[i] := accounts[i].(eticket := Eticket(policy, accounts[i]));
          esum := (esum + accounts[i].eticket) % WORD;
        }
      }
      assert shares[..accounts.Length] == shares;
      assert Shares() == shares;
    }

    /** The context the draw picks; the last one stays scheduled when the sums wrap past it. */
    method Draw(lottery: nat)
      requires forall i :: 0 <= i < accounts.Length && accounts[i].runnable ==> accounts[i].eticket == Eticket(policy, accounts[i])
      modifies this`scheduled
      ensures (forall i :: !Picks(Shares(), lottery, i)) ==> scheduled == old(scheduled)
      ensures (exists i :: Picks(Shares(), lottery, i)) ==> Picks(Shares(), lottery, scheduled) && accounts[scheduled].runnable
    {
      ghost var shares := Shares();
      var winner := 0;
      for i := 0 to accounts.Length
        invariant winner == Sum(shares[..i]) % WORD && winner <= lottery && scheduled == old(scheduled)
        invariant forall j :: 0 <= j < i ==> !Exceeds(shares, lottery, j)
      {
        SumStep(shares, i);
        WordAdd(Sum(shares[..i]), shares[i]);
        if accounts[i].runnable {
          winner := (winner + accounts[i].eticket) % WORD;
          if lottery < winner {
            scheduled := i;
            assert Shares() == shares && Picks(shares, lottery, i);
            return;
          }
        }
      }
    }

    /** One reschedule; `capDraw` and `draw` are the two random numbers. */
    method Select(capDraw: nat, draw: nat)
      modifies this`scheduled, accounts
      ensures Shares() == old(Shares()) && forall i :: 0 <= i < accounts.Length ==> accounts[i].runnable == old(accounts[i].runnable)
      ensures var esum := Sum(Shares()) % WORD;
        if esum == 0 || Capped(cpower, apower, capDraw) then scheduled == 0
        else if exists i :: Picks(Shares(), draw % esum, i) then Picks(Shares(), draw % esum, scheduled) && accounts[scheduled].runnable
        else scheduled == old(scheduled)
    {
      var esum := AssignTickets();
      if cpower != 0 {
        var cap := Cap(cpower, apower);
        if cap < 100 {
          if capDraw % 100 > cap {
            esum := 0;
          }
        }
      }
      if esum != 0 {
        Draw(draw % esum);
      } else {
        scheduled := 0;
      }
    }
  }
}
