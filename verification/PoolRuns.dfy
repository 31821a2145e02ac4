/** Whole histories of the lending pool: conservation of satoshis, height
    bookkeeping, and what depositing and redeeming at once is worth. */
module PoolRuns {
  import opened Arith
  import opened MapSum
  import opened PoolModel
  import opened PoolTheorems

  // ----- runs --------------------------------------------------------------

  ghost function RunPool(p: Pool, calls: seq<Call>): (q: Pool)
    requires Inv(p)
    ensures Inv(q)
    decreases |calls|
  {
    if calls == [] then p
    else
      ApplyKeepsInv(p, calls[0]);
      RunPool(Apply(p, calls[0]).0, calls[1..])
  }

  /** As long as shares are outstanding after every call, the rate at the end
      of a run is at least the rate at its start. */
  lemma {:induction false} RunRateNeverFalls(p: Pool, calls: seq<Call>)
    requires Inv(p)
    requires forall i :: 0 < i <= |calls| ==> RunPool(p, calls[..i]).shares > 0
    ensures ExchangeRate(p) <= ExchangeRate(RunPool(p, calls))
    decreases |calls|
  {
    if calls != [] {
      hide Apply, ExchangeRate;
      ApplyKeepsInv(p, calls[0]);
      var q := Apply(p, calls[0]).0;
      forall i | 0 <= i < |calls|
        ensures RunPool(q, calls[1..][..i]) == RunPool(p, calls[..i + 1])
      {
        assert calls[..i + 1][1..] == calls[1..][..i];
      }
      assert calls[1..][..0] == [];
      assert RunPool(q, []).shares > 0;
      OneCall(p, calls[0]);
      RunRateNeverFalls(q, calls[1..]);
    }
  }

  lemma OneCall(p: Pool, call: Call)
    requires Inv(p) && Apply(p, call).0.shares > 0
    ensures ExchangeRate(p) <= ExchangeRate(Apply(p, call).0)
  {
    RateNeverFalls(p, call);
  }

  // ----- conservation ------------------------------------------------------

  /** Everything that ever moved. */
  datatype Ledger = Ledger(
    deposited: nat,
    withdrawn: nat,
    borrowed: nat,
    principalRepaid: nat,
    principalOverwritten: nat,
    interestAccrued: nat,
    interestPaid: nat,
    interestOverwritten: nat
  )

  const NOTHING := Ledger(0, 0, 0, 0, 0, 0, 0, 0)

  ghost function RecordAccrual(l: Ledger, p: Pool, height: nat): Ledger {
    if SaturatingSub(height, p.lastUpdate) == 0 then l
    else l.(interestAccrued := l.interestAccrued + Sum(Interests(p.borrowers, height)))
  }

  /** Book an operation on an already accrued pool. */
  function RecordOp(l: Ledger, p: Pool, op: Op): Ledger
    requires Inv(p)
  {
    match op
    case DoDeposit(_, sats) => l.(deposited := l.deposited + sats)
    case DoWithdraw(who, shares) =>
      var r := WithdrawCheck(p, who, shares);
      if r.Err? then l else l.(withdrawn := l.withdrawn + r.value)
    case DoBorrow(who, sats, collateral) =>
      if BorrowCheck(p, sats, collateral).Err? then l
      else
        var booked := l.(borrowed := l.borrowed + sats);
        if who !in p.borrowers then booked
        else booked.(principalOverwritten := l.principalOverwritten + p.borrowers[who].principal,
                     interestOverwritten := l.interestOverwritten + p.borrowers[who].accrued)
    case DoRepay(who, sats) =>
      if who !in p.borrowers then l
      else
        var s := SplitPayment(p.borrowers[who], sats);
        l.(principalRepaid := l.principalRepaid + s.principal, interestPaid := l.interestPaid + s.interest)
    case DoAccrue => l
  }

  ghost function Record(l: Ledger, p: Pool, call: Call): Ledger
    requires Inv(p)
  {
    AccrueKeepsInv(p, call.height);
    RecordOp(RecordAccrual(l, p, call.height), Accrue(p, call.height), call.op)
  }

  ghost function RunLedger(l: Ledger, p: Pool, calls: seq<Call>): Ledger
    requires Inv(p)
    decreases |calls|
  {
    if calls == [] then l
    else
      ApplyKeepsInv(p, calls[0]);
      RunLedger(Record(l, p, calls[0]), Apply(p, calls[0]).0, calls[1..])
  }

  /** The books balance: interest enters the deposits once when it accrues and
      once more when it is paid; borrowed principal is repaid, open, or lost
      sight of by an overwritten position; accrued interest likewise. */
  ghost predicate Balanced(l: Ledger, p: Pool) {
    && p.deposits + l.withdrawn == l.deposited + l.interestAccrued + l.interestPaid
    && p.borrows + l.principalRepaid == l.borrowed
    && l.borrowed == Sum(Principals(p)) + l.principalRepaid + l.principalOverwritten
    && l.interestAccrued == Sum(AccruedMap(p)) + l.interestPaid + l.interestOverwritten
  }

  /** The satoshis the pool really holds: what came in less what went out. */
  function CashHeld(l: Ledger): int {
    l.deposited + l.principalRepaid + l.interestPaid - l.withdrawn - l.borrowed
  }

  lemma AccrualBalanced(l: Ledger, p: Pool, height: nat)
    requires Balanced(l, p)
    ensures Balanced(RecordAccrual(l, p, height), Accrue(p, height))
  {
    AccrueMaps(p, height);
    if SaturatingSub(height, p.lastUpdate) > 0 {
      SumPlus(AccruedMap(p), Interests(p.borrowers, height), AccruedMap(Accrue(p, height)));
    }
  }

  lemma SameBorrowers(p: Pool, q: Pool)
    requires q.borrowers == p.borrowers
    ensures Principals(q) == Principals(p) && AccruedMap(q) == AccruedMap(p)
  {
  }

  lemma BorrowBalanced(l: Ledger, p: Pool, who: string, sats: nat, collateral: nat, height: nat)
    requires Inv(p) && Balanced(l, p)
    ensures Balanced(RecordOp(l, p, DoBorrow(who, sats, collateral)), Borrow(p, who, sats, collateral, height).0)
  {
    var (q, r) := Borrow(p, who, sats, collateral, height);
    if r.Ok? {
      SumUpdate(Principals(p), who, sats);
      SumUpdate(AccruedMap(p), who, 0);
      assert Principals(q) == Principals(p)[who := sats];
      assert AccruedMap(q) == AccruedMap(p)[who := 0];
    }
  }

  lemma RepayBalanced(l: Ledger, p: Pool, who: string, sats: nat, height: nat)
    requires Inv(p) && Balanced(l, p)
    ensures Balanced(RecordOp(l, p, DoRepay(who, sats)), Repay(p, who, sats, height).0)
  {
    if who in p.borrowers {
      var q := Repay(p, who, sats, height).0;
      var b := q.borrowers[who];
      RepayExact(p, who, sats, height);
      SumUpdate(Principals(p), who, b.principal);
      SumUpdate(AccruedMap(p), who, b.accrued);
      assert Principals(q) == Principals(p)[who := b.principal];
      assert AccruedMap(q) == AccruedMap(p)[who := b.accrued];
    }
  }

  lemma ApplyBalanced(l: Ledger, p: Pool, call: Call)
    requires Inv(p) && Balanced(l, p)
    ensures Balanced(Record(l, p, call), Apply(p, call).0)
  {
    AccrueKeepsInv(p, call.height);
    AccrualBalanced(l, p, call.height);
    var m, q := RecordAccrual(l, p, call.height), Accrue(p, call.height);
    match call.op {
      case DoDeposit(who, sats) => SameBorrowers(q, Deposit(q, who, sats, call.height).0);
      case DoWithdraw(who, shares) =>
        InvBounds(q, who);
        SameBorrowers(q, Withdraw(q, who, shares, call.height).0);
      case DoBorrow(who, sats, collateral) => BorrowBalanced(m, q, who, sats, collateral, call.height);
      case DoRepay(who, sats) => RepayBalanced(m, q, who, sats, call.height);
      case DoAccrue =>
    }
  }

  lemma {:induction false} RunBalanced(l: Ledger, p: Pool, calls: seq<Call>)
    requires Inv(p) && Balanced(l, p)
    ensures Balanced(RunLedger(l, p, calls), RunPool(p, calls))
    decreases |calls|
  {
    if calls != [] {
      hide Apply, Record, Balanced;
      ApplyKeepsInv(p, calls[0]);
      ApplyBalanced(l, p, calls[0]);
      RunBalanced(Record(l, p, calls[0]), Apply(p, calls[0]).0, calls[1..]);
    }
  }

  lemma EmptyPoolInv(genesis: nat)
    ensures Inv(EmptyPool(genesis)) && Balanced(NOTHING, EmptyPool(genesis))
  {
    assert ShareMap(EmptyPool(genesis)) == map[];
    assert Principals(EmptyPool(genesis)) == map[];
    assert AccruedMap(EmptyPool(genesis)) == map[];
  }

  /** Every reachable pool: backed, covered and balanced; borrows exceed the
      open principals by exactly the principals that were overwritten, and what
      the liquidity check calls available exceeds the cash held by exactly all
      interest that ever accrued.  The deposits exceed the cash and all open
      debt by the interest booked twice and the debt lost sight of. */
  lemma EveryRun(genesis: nat, calls: seq<Call>)
    ensures Inv(EmptyPool(genesis))
    ensures var p, l := RunPool(EmptyPool(genesis), calls), RunLedger(NOTHING, EmptyPool(genesis), calls);
            && Balanced(l, p)
            && Sum(Claims(p)) <= p.deposits
            && p.borrows == Sum(Principals(p)) + l.principalOverwritten
            && p.deposits - p.borrows == CashHeld(l) + l.interestAccrued
            && p.deposits == CashHeld(l) + Sum(Principals(p)) + Sum(AccruedMap(p))
                             + l.interestPaid + l.principalOverwritten + l.interestOverwritten
            && ExchangeRate(p) >= SCALE
  {
    EmptyPoolInv(genesis);
    RunBalanced(NOTHING, EmptyPool(genesis), calls);
    var p := RunPool(EmptyPool(genesis), calls);
    ClaimsCovered(p);
    RateFacts(p);
  }

  // ----- cash --------------------------------------------------------------

  /** What a call takes out of an accrued pool, as can be told before it. */
  function Draws(p: Pool, op: Op): nat {
    match op
    case DoWithdraw(who, shares) =>
      if who in p.lenders && shares <= SharesOf(p, who) && SatsFor(p, shares) + p.borrows <= p.deposits
      then SatsFor(p, shares) else 0
    case DoBorrow(_, sats, collateral) =>
      if 3 * sats <= 2 * collateral + 1 && sats + p.borrows <= p.deposits then sats else 0
    case _ => 0
  }

  lemma CashMoves(l: Ledger, p: Pool, op: Op)
    requires Inv(p)
    ensures CashHeld(RecordOp(l, p, op)) >= CashHeld(l) - Draws(p, op)
    ensures op.DoWithdraw? || op.DoBorrow? ==> CashHeld(RecordOp(l, p, op)) == CashHeld(l) - Draws(p, op)
    ensures Draws(p, op) > 0 ==> op.DoWithdraw? || op.DoBorrow?
  {
    hide SatsFor;
  }

  /** After any history a withdrawal or a loan leaves less than no cash exactly
      when what it takes, what is lent out and all interest that ever accrued
      exceed the deposits; no other call overdraws a pool that holds cash. */
  lemma OverdrawsIff(genesis: nat, calls: seq<Call>, call: Call)
    ensures Inv(EmptyPool(genesis))
    ensures var p, l := RunPool(EmptyPool(genesis), calls), RunLedger(NOTHING, EmptyPool(genesis), calls);
            var a, m := Accrue(p, call.height), RecordAccrual(l, p, call.height);
            CashHeld(l) >= 0 || call.op.DoWithdraw? || call.op.DoBorrow? ==>
              (CashHeld(Record(l, p, call)) < 0
               <==> Draws(a, call.op) + a.borrows + m.interestAccrued > a.deposits)
  {
    EmptyPoolInv(genesis);
    RunBalanced(NOTHING, EmptyPool(genesis), calls);
    OverdrawnAfter(RunLedger(NOTHING, EmptyPool(genesis), calls), RunPool(EmptyPool(genesis), calls), call);
  }

  lemma OverdrawnAfter(l: Ledger, p: Pool, call: Call)
    requires Inv(p) && Balanced(l, p)
    ensures var a, m := Accrue(p, call.height), RecordAccrual(l, p, call.height);
            CashHeld(l) >= 0 || call.op.DoWithdraw? || call.op.DoBorrow? ==>
              (CashHeld(Record(l, p, call)) < 0
               <==> Draws(a, call.op) + a.borrows + m.interestAccrued > a.deposits)
  {
    hide Draws, RecordOp, Inv;
    AccrueKeepsInv(p, call.height);
    AccrualBalanced(l, p, call.height);
    CashMoves(RecordAccrual(l, p, call.height), Accrue(p, call.height), call.op);
  }

  // ----- refused calls -----------------------------------------------------

  /** The run with every refused call replaced by the accrual it amounts to. */
  ghost function WithoutRefusals(p: Pool, calls: seq<Call>): seq<Call>
    requires Inv(p)
    decreases |calls|
  {
    if calls == [] then []
    else
      ApplyKeepsInv(p, calls[0]);
      var (q, r) := Apply(p, calls[0]);
      [if r.Ok? then calls[0] else Call(DoAccrue, calls[0].height)] + WithoutRefusals(q, calls[1..])
  }

  /** Refused calls leave no other trace than their accrual, neither in the pool
      nor in its books. */
  lemma {:induction false} RefusalsOnlyAccrue(l: Ledger, p: Pool, calls: seq<Call>)
    requires Inv(p)
    ensures RunPool(p, WithoutRefusals(p, calls)) == RunPool(p, calls)
    ensures RunLedger(l, p, WithoutRefusals(p, calls)) == RunLedger(l, p, calls)
    decreases |calls|
  {
    if calls != [] {
      var c := calls[0];
      ApplyKeepsInv(p, c);
      RefusedCall(l, p, c);
      hide Apply, Record, Inv;
      RefusalsOnlyAccrue(Record(l, p, c), Apply(p, c).0, calls[1..]);
      var kept := WithoutRefusals(p, calls);
      assert kept[1..] == WithoutRefusals(Apply(p, c).0, calls[1..]);
    }
  }

  lemma RefusedCall(l: Ledger, p: Pool, call: Call)
    requires Inv(p)
    ensures Apply(p, call).1.Err? ==>
              && Apply(p, Call(DoAccrue, call.height)).0 == Apply(p, call).0
              && Record(l, p, Call(DoAccrue, call.height)) == Record(l, p, call)
  {
    FailureOnlyAccrues(p, call);
    AccrueKeepsInv(p, call.height);
    RefusedBooksNothing(RecordAccrual(l, p, call.height), Accrue(p, call.height), call);
  }

  lemma RefusedBooksNothing(l: Ledger, a: Pool, call: Call)
    requires Inv(a)
    ensures match call.op
            case DoWithdraw(who, shares) => Withdraw(a, who, shares, call.height).1.Err? ==> RecordOp(l, a, call.op) == l
            case DoBorrow(who, sats, c) => Borrow(a, who, sats, c, call.height).1.Err? ==> RecordOp(l, a, call.op) == l
            case DoRepay(who, sats) => Repay(a, who, sats, call.height).1.Err? ==> RecordOp(l, a, call.op) == l
            case _ => true
  {
  }

  // ----- heights -----------------------------------------------------------

  /** Every open position was last brought up to date with the pool. */
  ghost predicate Synced(p: Pool) {
    forall k :: k in p.borrowers ==> p.borrowers[k].lastUpdate == p.lastUpdate
  }

  /** A loan the pool would grant or a debt it would take a payment on, as can
      be told before the call. */
  predicate OpensOrPays(p: Pool, op: Op) {
    match op
    case DoBorrow(_, sats, collateral) => 3 * sats <= 2 * collateral + 1 && sats + p.borrows <= p.deposits
    case DoRepay(who, _) => who in p.borrowers
    case _ => false
  }

  /** Heights that do not go back keep the positions in step with the pool, and
      at an earlier height exactly a grantable loan or a payable debt breaks it. */
  lemma SyncedIff(p: Pool, call: Call)
    requires Inv(p) && Synced(p)
    ensures Synced(Apply(p, call).0) <==> call.height >= p.lastUpdate || !OpensOrPays(p, call.op)
    ensures call.height >= p.lastUpdate ==> Apply(p, call).0.lastUpdate == call.height
  {
    AccrueKeepsInv(p, call.height);
    var a := Accrue(p, call.height);
    var (q, r) := Apply(p, call);
    assert Synced(a);
    if call.op.DoBorrow? {
      BorrowAcceptedIff(a, call.op.who, call.op.sats, call.op.collateral, call.height);
    }
    if (call.op.DoBorrow? || call.op.DoRepay?) && r.Ok? {
      assert q.borrowers[call.op.who].lastUpdate == call.height;
    } else {
      assert q.borrowers == a.borrowers;
    }
  }

  /** Fed with non-decreasing heights, as the yield daemon feeds it, a pool stays
      in step with all of its positions. */
  lemma {:induction false} RunSynced(p: Pool, calls: seq<Call>)
    requires Inv(p) && Synced(p) && NonDecreasing(p.lastUpdate, Heights(calls))
    ensures Synced(RunPool(p, calls))
    ensures calls != [] ==> RunPool(p, calls).lastUpdate == calls[|calls| - 1].height
    decreases |calls|
  {
    if calls != [] {
      hide Apply, Synced;
      ApplyKeepsInv(p, calls[0]);
      SyncedIff(p, calls[0]);
      RunSynced(Apply(p, calls[0]).0, calls[1..]);
    }
  }

  function Heights(calls: seq<Call>): seq<nat>
    decreases |calls|
  {
    if calls == [] then [] else [calls[0].height] + Heights(calls[1..])
  }

  ghost function AccrueAll(p: Pool, heights: seq<nat>): Pool
    decreases |heights|
  {
    if heights == [] then p else AccrueAll(Accrue(p, heights[0]), heights[1..])
  }

  predicate NonDecreasing(from: nat, heights: seq<nat>)
    decreases |heights|
  {
    heights != [] ==> from <= heights[0] && NonDecreasing(heights[0], heights[1..])
  }

  /** Interest is linear in the blocks elapsed, up to one floor. */
  lemma InterestSplits(b: Borrower, mid: nat, end: nat)
    requires b.lastUpdate <= mid <= end
    ensures var b' := b.(lastUpdate := mid);
            Interest(b, mid) + Interest(b', end) <= Interest(b, end) <= Interest(b, mid) + Interest(b', end) + 1
  {
    var c := b.principal * b.rateBps;
    assert c * (end - b.lastUpdate) == c * (mid - b.lastUpdate) + c * (end - mid);
    FloorAdd(c * (mid - b.lastUpdate), c * (end - mid), INTEREST_DIVISOR);
  }

  lemma InterestOfNothing(b: Borrower)
    ensures Interest(b, b.lastUpdate) == 0
  {
  }

  lemma AccrueOne(p: Pool, k: string, height: nat)
    requires Synced(p) && k in p.borrowers && p.lastUpdate <= height
    ensures var q := Accrue(p, height);
            && Synced(q) && q.lastUpdate == height && k in q.borrowers
            && q.borrowers[k] == AccruePosition(p.borrowers[k], height)
  {
    InterestOfNothing(p.borrowers[k]);
  }

  /** Accruing in n steps never charges more than accruing once, and falls
      short by less than n satoshis. */
  lemma {:induction false} SteppedInterest(p: Pool, k: string, heights: seq<nat>)
    requires Synced(p) && k in p.borrowers && heights != [] && NonDecreasing(p.lastUpdate, heights)
    ensures p.lastUpdate <= heights[|heights| - 1] && k in AccrueAll(p, heights).borrowers
    ensures var b, b' := p.borrowers[k], AccrueAll(p, heights).borrowers[k];
            var once := Interest(b, heights[|heights| - 1]);
            b'.accrued - b.accrued <= once < b'.accrued - b.accrued + |heights|
    decreases |heights|
  {
    var h, rest := heights[0], heights[1..];
    var q, b := Accrue(p, h), p.borrowers[k];
    AccrueOne(p, k, h);
    if rest == [] {
      assert AccrueAll(p, heights) == q;
    } else {
      SteppedInterest(q, k, rest);
      var end := heights[|heights| - 1];
      assert rest[|rest| - 1] == end;
      InterestSplits(b, h, end);
      assert Interest(q.borrowers[k], end) == Interest(b.(lastUpdate := h), end);
    }
  }

  // ----- depositing and redeeming at once ----------------------------------

  /** The floors of a round trip: `r` and `r2` are the rates before and after,
      `s` the minted shares. */
  lemma RoundTripFloors(t: nat, total: nat, x: nat, r: nat, s: nat, r2: nat, out: nat)
    requires total > 0 && r > 0
    requires r == t * SCALE / total && s == x * SCALE / r
    requires r2 == (t + x) * SCALE / (total + s) && out == s * r2 / SCALE
    ensures out * SCALE <= x * SCALE + r
    ensures out * SCALE > x * SCALE - r - SCALE
  {
    DivBounds(t * SCALE, total);
    DivBounds(x * SCALE, r);
    DivBounds((t + x) * SCALE, total + s);
    DivBounds(s * r2, SCALE);
    RoundTripAlgebra(t * SCALE, total, x * SCALE, r, s, r2);
  }

  lemma RoundTripAlgebra(tm: int, total: int, xm: int, r: int, s: int, r2: int)
    requires total > 0 && r > 0 && s >= 0
    requires r * total <= tm < r * total + total
    requires s * r <= xm < s * r + r
    requires r2 * (total + s) <= tm + xm < r2 * (total + s) + (total + s)
    ensures xm - r < s * r2 <= xm + r
  {
    var e := r2 - r;
    var wide, tall := e * total, e * s;
    assert wide + tall == r2 * (total + s) - r * total - s * r by {
      assert r2 * (total + s) == r * total + r * s + e * total + e * s;
    }
    assert s * r2 == s * r + tall;
    if e < 0 {
      MulMonotone(e, -1, total);
      MulMonotone(e, -1, s);
      assert false;
    } else if e == 0 {
      assert tall == 0;
    } else {
      MulMonotone(1, e, total);
      MulMonotone(1, e, s);
    }
  }

  lemma RateOf(p: Pool)
    requires p.shares > 0
    ensures ExchangeRate(p) == p.deposits * SCALE / p.shares
  {
  }

  /** A deposit into a pool without shares mints one share a satoshi. */
  lemma MintAtPar(sats: nat)
    ensures sats * SCALE / SCALE == sats
  {
    DivUnique(sats * SCALE, SCALE, sats);
  }

  /** The rate of the pool is not rounded. */
  predicate RateIsExact(p: Pool)
    requires p.shares > 0
  {
    p.deposits * SCALE % p.shares == 0
  }

  /** All shares are worth exactly all deposits when the rate is not rounded. */
  lemma DrainsIff(p: Pool)
    requires p.shares > 0
    ensures SatsFor(p, p.shares) == p.deposits <==> RateIsExact(p)
  {
    var rate := ExchangeRate(p);
    DivBounds(p.deposits * SCALE, p.shares);
    DivBounds(p.shares * rate, SCALE);
    if RateIsExact(p) {
      assert p.shares * rate == p.deposits * SCALE;
      MintAtPar(p.deposits);
    }
  }

  /** Satoshis that belong to no share. */
  predicate Stranded(p: Pool) {
    p.shares == 0 && p.deposits > 0
  }

  /** Satoshis are stranded exactly when the owner of all shares redeems them,
      the pool has their price unlent, and its rate is rounded; they stay
      stranded exactly until someone deposits. */
  lemma StrandsIff(p: Pool, call: Call)
    requires Inv(p)
    ensures var a := Accrue(p, call.height);
            p.shares > 0 ==>
              (Stranded(Apply(p, call).0)
               <==> && call.op.DoWithdraw?
                    && call.op.who in p.lenders
                    && call.op.shares == p.lenders[call.op.who].shares == p.shares
                    && SatsFor(a, p.shares) + p.borrows <= a.deposits
                    && !RateIsExact(a))
    ensures Stranded(p) ==> (Stranded(Apply(p, call).0) <==> !(call.op.DoDeposit? && call.op.sats > 0))
  {
    AccrueKeepsInv(p, call.height);
    AccrueMaps(p, call.height);
    var a := Accrue(p, call.height);
    if call.op.DoWithdraw? {
      WithdrawStrandsIff(a, call.op.who, call.op.shares, call.height);
    } else if call.op.DoDeposit? {
      MintAtPar(call.op.sats);
    }
  }

  lemma WithdrawStrandsIff(p: Pool, who: string, shares: nat, height: nat)
    requires Inv(p)
    ensures var q := Withdraw(p, who, shares, height).0;
            && (p.shares > 0 ==>
                  (Stranded(q)
                   <==> && who in p.lenders && shares == SharesOf(p, who) == p.shares
                        && SatsFor(p, p.shares) + p.borrows <= p.deposits
                        && !RateIsExact(p)))
            && (p.shares == 0 ==> q.shares == 0 && q.deposits == p.deposits)
  {
    hide SatsFor, Inv, RateIsExact;
    InvBounds(p, who);
    WithdrawAcceptedIff(p, who, shares, height);
    if p.shares > 0 {
      DrainsIff(p);
    } else {
      NothingForNothing(p);
    }
  }

  lemma NothingForNothing(p: Pool)
    ensures SatsFor(p, 0) == 0
  {
  }

  /** All shares of a pool are worth all of its deposits, up to two floors. */
  lemma SoleOwner(p: Pool)
    requires p.shares > 0
    ensures SatsFor(p, p.shares) * SCALE <= p.deposits * SCALE
    ensures p.deposits * SCALE - p.shares - SCALE < SatsFor(p, p.shares) * SCALE
    ensures p.shares == p.deposits || p.shares == 1 ==> SatsFor(p, p.shares) == p.deposits
  {
    var rate := ExchangeRate(p);
    DivBounds(p.deposits * SCALE, p.shares);
    DivBounds(p.shares * rate, SCALE);
    if p.shares == p.deposits {
      DivUnique(p.deposits * SCALE, p.shares, SCALE);
      MintAtPar(p.deposits);
    } else if p.shares == 1 {
      MintAtPar(p.deposits);
    }
  }

  /** What the minted shares are worth right after the deposit. */
  lemma DepositThenPrice(p: Pool, who: string, sats: nat, height: nat)
    requires Inv(p)
    ensures var (q, minted) := Deposit(p, who, sats, height);
            var out, rate := SatsFor(q, minted.value), ExchangeRate(p);
            && (p.shares > 0 ==> sats * SCALE - rate - SCALE < out * SCALE <= sats * SCALE + rate)
            && (p.shares == 0 ==> minted.value == sats)
            && (p.shares == 0 && sats > 0 ==>
                  && (p.deposits + sats) * SCALE - sats - SCALE < out * SCALE <= (p.deposits + sats) * SCALE
                  && (out == p.deposits + sats <==> (p.deposits + sats) * SCALE % sats == 0))
            && (p.shares == 0 && sats == 0 ==> out == 0)
            && (p.shares == 0 && (p.deposits == 0 || sats == 1) ==> out == p.deposits + sats)
  {
    hide ExchangeRate;
    RateFacts(p);
    var (q, minted) := Deposit(p, who, sats, height);
    if p.shares > 0 {
      RateOf(p);
      RateOf(q);
      RoundTripFloors(p.deposits, p.shares, sats, ExchangeRate(p), minted.value, ExchangeRate(q),
                      SatsFor(q, minted.value));
    } else {
      EmptyRate(p);
      MintAtPar(sats);
      if sats > 0 {
        SoleOwner(q);
        DrainsIff(q);
      }
    }
  }

  /** Depositing into a pool and redeeming the minted shares at the same height,
      when the pool has that much unlent.  With other shares outstanding this
      pays at most rate/10^6 sats more and less than rate/10^6 + 1 sats less than
      was put in.  Without them the depositor owns the whole pool and is paid
      all it holds, stranded satoshis included, up to two floors, and all of it
      exactly when the new rate is not rounded. */
  lemma RoundTrip(p: Pool, who: string, sats: nat, height: nat)
    requires Inv(p)
    ensures var a := Accrue(p, height);
            var (p1, minted) := Apply(p, Call(DoDeposit(who, sats), height));
            && minted.Ok? && Inv(p1)
            && (a.shares == 0 ==> minted.value == sats)
            && var (p2, r) := Apply(p1, Call(DoWithdraw(who, minted.value), height));
               && (r.Ok? <==> SatsFor(p1, minted.value) + p1.borrows <= p1.deposits)
               && (r.Ok? ==>
                 && (a.shares > 0 ==>
                       sats * SCALE - ExchangeRate(a) - SCALE < r.value * SCALE <= sats * SCALE + ExchangeRate(a))
                 && (a.shares == 0 && sats > 0 ==>
                       && (a.deposits + sats) * SCALE - sats - SCALE < r.value * SCALE <= (a.deposits + sats) * SCALE
                       && (r.value == a.deposits + sats <==> (a.deposits + sats) * SCALE % sats == 0))
                 && (a.shares == 0 && sats == 0 ==> r.value == 0)
                 && (a.shares == 0 && (a.deposits == 0 || sats == 1) ==> r.value == a.deposits + sats))
  {
    hide ExchangeRate;
    AccrueKeepsInv(p, height);
    var a := Accrue(p, height);
    ApplyKeepsInv(p, Call(DoDeposit(who, sats), height));
    var (p1, minted) := Deposit(a, who, sats, height);
    assert Accrue(p1, height) == p1;
    WithdrawAcceptedIff(p1, who, minted.value, height);
    DepositThenPrice(a, who, sats, height);
  }
}
