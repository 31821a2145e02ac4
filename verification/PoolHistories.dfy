/** Three reachable histories of the lending pool that go against what its
    documentation suggests: a stranded remainder that the next depositor takes,
    a falling exchange rate, and a payout beyond the cash held. */
module PoolHistories {
  import opened Arith
  import opened MapSum
  import opened PoolModel
  import opened PoolTheorems
  import opened PoolRuns

  /** One lender, one loan out of the first deposit, and a later height. */
  datatype Scenario = Scenario(
    lender: string, debtor: string, deposit: nat, loan: nat, collateral: nat, height: nat
  ) {
    predicate Granted() {
      loan <= deposit && 3 * loan <= 2 * collateral + 1 && height > 0
    }

    /** The pool was empty when the loan was made, so it bears 50 basis points. */
    function Interest(): nat {
      loan * 50 * height / INTEREST_DIVISOR
    }
  }

  // ----- runs, one call at a time ------------------------------------------

  /** A run goes on from where its first part ended. */
  lemma {:induction false} RunAppend(p: Pool, calls: seq<Call>, call: Call)
    requires Inv(p)
    ensures RunPool(p, calls + [call]) == Apply(RunPool(p, calls), call).0
    decreases |calls|
  {
    if calls == [] {
      ApplyKeepsInv(p, call);
      assert [] + [call] == [call] && [call][1..] == [];
    } else {
      hide Apply, Inv;
      ApplyKeepsInv(p, calls[0]);
      RunAppend(Apply(p, calls[0]).0, calls[1..], call);
      assert (calls + [call])[0] == calls[0] && (calls + [call])[1..] == calls[1..] + [call];
    }
  }

  lemma SumOne(k: string, n: nat)
    ensures Sum(map[k := n]) == n
  {
    SumRemove(map[k := n], k);
    assert map[k := n] - {k} == map[];
  }

  // ----- the common start --------------------------------------------------

  function Deposited(s: Scenario): Pool {
    Pool(s.deposit, 0, s.deposit, 0, map[s.lender := Lender(s.deposit, 0)], map[])
  }

  function Lent(s: Scenario): Pool {
    Deposited(s).(borrows := s.loan, borrowers := map[s.debtor := Borrower(s.loan, 0, 50, 0, s.collateral)])
  }

  function Opened(s: Scenario): Pool {
    Lent(s).(
      deposits := s.deposit + s.Interest(),
      lastUpdate := s.height,
      borrowers := map[s.debtor := Borrower(s.loan, s.Interest(), 50, s.height, s.collateral)])
  }

  function Opening(s: Scenario): seq<Call> {
    [Call(DoDeposit(s.lender, s.deposit), 0)]
    + [Call(DoBorrow(s.debtor, s.loan, s.collateral), 0)]
    + [Call(DoAccrue, s.height)]
  }

  lemma DepositStep(s: Scenario, p: Pool)
    requires p == EmptyPool(0) && Inv(p)
    ensures Apply(p, Call(DoDeposit(s.lender, s.deposit), 0)).0 == Deposited(s)
  {
    hide Inv, Deposit, Deposited, SharesFor, EmptyPool, Interests, Sum;
    AtPar(s, p);
    assert Accrue(p, 0) == p;
  }

  lemma AtPar(s: Scenario, p: Pool)
    requires p == EmptyPool(0) && Inv(p)
    ensures Deposit(p, s.lender, s.deposit, 0).0 == Deposited(s)
  {
    MintAtPar(s.deposit);
  }

  lemma LoanStep(s: Scenario)
    requires s.Granted() && Inv(Deposited(s))
    ensures Apply(Deposited(s), Call(DoBorrow(s.debtor, s.loan, s.collateral), 0)).0 == Lent(s)
  {
    BorrowAcceptedIff(Deposited(s), s.debtor, s.loan, s.collateral, 0);
    if s.deposit > 0 {
      DivUnique(0, s.deposit, 0);
    }
  }

  lemma AccrualStep(s: Scenario)
    requires s.Granted() && Inv(Lent(s))
    ensures Apply(Lent(s), Call(DoAccrue, s.height)).0 == Opened(s)
  {
    var bs := Lent(s).borrowers;
    assert Interests(bs, s.height) == map[s.debtor := s.Interest()];
    SumOne(s.debtor, s.Interest());
  }

  lemma OpeningRunsFrom(p: Pool, s: Scenario)
    requires s.Granted() && Inv(p)
    requires p == EmptyPool(0)
    ensures Inv(Opened(s)) && RunPool(p, Opening(s)) == Opened(s)
  {
    var c0 := Call(DoDeposit(s.lender, s.deposit), 0);
    var c1, c2 := Call(DoBorrow(s.debtor, s.loan, s.collateral), 0), Call(DoAccrue, s.height);
    DepositStep(s, p);
    hide Apply, Inv, Deposited, Lent, Opened, EmptyPool;
    ApplyKeepsInv(p, c0);
    LoanStep(s);
    ApplyKeepsInv(Deposited(s), c1);
    AccrualStep(s);
    ApplyKeepsInv(Lent(s), c2);
    assert [] + [c0] == [c0];
    RunAppend(p, [], c0);
    RunAppend(p, [c0], c1);
    RunAppend(p, [c0] + [c1], c2);
  }

  lemma OpeningRuns(s: Scenario)
    requires s.Granted()
    ensures Inv(EmptyPool(0)) && Inv(Opened(s))
    ensures RunPool(EmptyPool(0), Opening(s)) == Opened(s)
  {
    hide *;
    EmptyPoolInv(0);
    OpeningRunsFrom(EmptyPool(0), s);
  }

  // ----- the loan is repaid and the lender leaves --------------------------

  function Settled(s: Scenario): Pool {
    Opened(s).(
      deposits := s.deposit + 2 * s.Interest(),
      borrows := 0,
      borrowers := map[s.debtor := Borrower(0, 0, 50, s.height, s.collateral)])
  }

  function Settling(s: Scenario): seq<Call> {
    Opening(s) + [Call(DoRepay(s.debtor, s.loan + s.Interest()), s.height)]
  }

  /** Repaying in full books the interest a second time. */
  lemma SettlingRuns(s: Scenario)
    requires s.Granted()
    ensures Inv(EmptyPool(0)) && Inv(Settled(s))
    ensures RunPool(EmptyPool(0), Settling(s)) == Settled(s)
  {
    OpeningRuns(s);
    var call := Call(DoRepay(s.debtor, s.loan + s.Interest()), s.height);
    ApplyKeepsInv(Opened(s), call);
    assert Apply(Opened(s), call).0 == Settled(s);
    RunAppend(EmptyPool(0), Opening(s), call);
  }

  function Leaving(s: Scenario): seq<Call> {
    Settling(s) + [Call(DoWithdraw(s.lender, s.deposit), s.height)]
  }

  /** The lender redeems everything; what the floored price leaves behind
      belongs to no share. */
  lemma LenderLeaves(s: Scenario, rate: nat, paid: nat)
    requires s.Granted() && s.deposit > 0
    requires rate == (s.deposit + 2 * s.Interest()) * SCALE / s.deposit && paid == s.deposit * rate / SCALE
    ensures Inv(EmptyPool(0)) && ExchangeRate(Settled(s)) == rate
    ensures var q := RunPool(EmptyPool(0), Leaving(s));
            && q.deposits + paid == s.deposit + 2 * s.Interest()
            && q.shares == 0 && q.borrows == 0 && q.lastUpdate == s.height
  {
    SettlingRuns(s);
    var p := Settled(s);
    SoleOwner(p);
    WithdrawAcceptedIff(p, s.lender, s.deposit, s.height);
    RunAppend(EmptyPool(0), Settling(s), Call(DoWithdraw(s.lender, s.deposit), s.height));
  }

  /** A loan of 500000 sats out of 10^9 earns 250 sats, booked twice; the rate
      of 1000000.5 is floored, so redeeming all shares leaves 500 sats behind.
      Whoever next puts in 1 sat redeems it for 501. */
  lemma StrandedSatsGoToNextDepositor(lender: string, debtor: string, next: string)
    ensures Inv(EmptyPool(0))
    ensures var p := RunPool(EmptyPool(0), Leaving(Scenario(lender, debtor, 1_000_000_000, 500_000, 750_000, 5256)));
            && p.shares == 0 && p.deposits == 500
            && var (p1, minted) := Apply(p, Call(DoDeposit(next, 1), 5256));
               && minted == PoolResult.Ok(1) && Inv(p1)
               && Apply(p1, Call(DoWithdraw(next, 1), 5256)).1 == PoolResult.Ok(501)
  {
    var s := Scenario(lender, debtor, 1_000_000_000, 500_000, 750_000, 5256);
    LenderLeaves(s, 1_000_000, 1_000_000_000);
    NextDepositor(RunPool(EmptyPool(0), Leaving(s)), next);
  }

  lemma NextDepositor(p: Pool, next: string)
    requires Inv(p) && p.shares == 0 && p.borrows == 0
    ensures var (p1, minted) := Apply(p, Call(DoDeposit(next, 1), p.lastUpdate));
            && minted == PoolResult.Ok(1) && Inv(p1)
            && Apply(p1, Call(DoWithdraw(next, 1), p.lastUpdate)).1 == PoolResult.Ok(p.deposits + 1)
  {
    RoundTrip(p, next, 1, p.lastUpdate);
    DepositThenPrice(p, next, 1, p.lastUpdate);
    assert Accrue(p, p.lastUpdate) == p;
  }

  /** A loan of the whole million for a year earns 5000 sats, booked twice; when
      the lender redeems all shares the quoted rate falls from 1.01 back to 1. */
  lemma RateFalls(lender: string, debtor: string)
    ensures Inv(EmptyPool(0))
    ensures var s := Scenario(lender, debtor, 1_000_000, 1_000_000, 1_500_000, 52_560);
            && ExchangeRate(RunPool(EmptyPool(0), Settling(s))) == 1_010_000
            && ExchangeRate(RunPool(EmptyPool(0), Leaving(s))) == 1_000_000
  {
    var s := Scenario(lender, debtor, 1_000_000, 1_000_000, 1_500_000, 52_560);
    SettlingRuns(s);
    LenderLeaves(s, 1_010_000, 1_010_000);
  }

  // ----- the lender leaves before the loan is repaid -----------------------

  lemma PartOfTheSharesRedeemed(s: Scenario)
    requires s.deposit == 1_000_000 && s.loan == 500_000 && s.collateral == 750_000 && s.height == 52_560
    ensures s.Interest() == 2500 && Inv(Opened(s))
    ensures var q := Apply(Opened(s), Call(DoWithdraw(s.lender, 501_246), 52_560)).0;
            q.deposits == 500_001 && q.borrows == 500_000 && q.borrowers == Opened(s).borrowers
  {
    OpeningRuns(s);
    var p := Opened(s);
    assert SatsFor(p, 501_246) == 502_499;
    WithdrawAcceptedIff(p, s.lender, 501_246, 52_560);
    assert Accrue(p, 52_560) == p;
  }

  /** Half a million lent for a year: 2500 sats of unpaid interest count as
      available, and redeeming 501246 shares pays 502499 sats out of the 500000
      the pool holds. */
  lemma PayoutBeyondCash(lender: string, debtor: string)
    ensures Inv(EmptyPool(0))
    ensures var s := Scenario(lender, debtor, 1_000_000, 500_000, 750_000, 52_560);
            var calls := Opening(s) + [Call(DoWithdraw(lender, 501_246), 52_560)];
            CashHeld(RunLedger(NOTHING, EmptyPool(0), calls)) < 0
  {
    var s := Scenario(lender, debtor, 1_000_000, 500_000, 750_000, 52_560);
    var call := Call(DoWithdraw(lender, 501_246), 52_560);
    OpeningRuns(s);
    PartOfTheSharesRedeemed(s);
    assert Opened(s).borrowers == map[debtor := Borrower(500_000, 2500, 50, 52_560, 750_000)];
    hide Inv, Apply, Opened, Opening, Claims;
    RunAppend(EmptyPool(0), Opening(s), call);
    EveryRun(0, Opening(s) + [call]);
    var q := RunPool(EmptyPool(0), Opening(s) + [call]);
    SumAt(AccruedMap(q), debtor);
  }

  // ----- a second loan, at the rate the first one caused -------------------

  /** 10^7 sats deposited and eight tenths of them lent. */
  function Busy(lender: string, debtor: string): Scenario {
    Scenario(lender, debtor, 10_000_000, 8_000_000, 12_000_000, 52_560)
  }

  function LentTwice(lender: string, debtor: string, other: string): Pool {
    var p := Lent(Busy(lender, debtor));
    p.(borrows := 9_000_000, borrowers := p.borrowers[other := Borrower(1_000_000, 0, 500, 0, 1_500_000)])
  }

  function ChargedTwice(lender: string, debtor: string, other: string): Pool {
    LentTwice(lender, debtor, other).(
      deposits := 10_090_000,
      lastUpdate := 52_560,
      borrowers := map[debtor := Borrower(8_000_000, 40_000, 50, 52_560, 12_000_000),
                       other := Borrower(1_000_000, 50_000, 500, 52_560, 1_500_000)])
  }

  function LendingTwice(lender: string, debtor: string, other: string): seq<Call> {
    [Call(DoDeposit(lender, 10_000_000), 0)]
    + [Call(DoBorrow(debtor, 8_000_000, 12_000_000), 0)]
    + [Call(DoBorrow(other, 1_000_000, 1_500_000), 0)]
    + [Call(DoAccrue, 52_560)]
  }

  lemma SecondLoanStep(lender: string, debtor: string, other: string)
    requires Inv(Lent(Busy(lender, debtor)))
    ensures Apply(Lent(Busy(lender, debtor)), Call(DoBorrow(other, 1_000_000, 1_500_000), 0)).0
         == LentTwice(lender, debtor, other)
  {
    var p := Lent(Busy(lender, debtor));
    BorrowExact(p, other, 1_000_000, 1_500_000, 0);
    assert UtilisationBps(p.borrows, p.deposits) == 8_000;
  }

  lemma TwoPositionsAccrue(p: Pool, height: nat, j: string, k: string, x: Borrower, y: Borrower)
    requires j != k && p.borrowers == map[j := x, k := y] && height > p.lastUpdate
    ensures Accrue(p, height)
         == p.(deposits := p.deposits + Interest(x, height) + Interest(y, height),
               lastUpdate := height,
               borrowers := map[j := AccruePosition(x, height), k := AccruePosition(y, height)])
  {
    hide Interest, Sum;
    var one: map<string, nat> := map[j := Interest(x, height)];
    assert Interests(p.borrowers, height) == one[k := Interest(y, height)];
    SumOne(j, Interest(x, height));
    SumUpdate(one, k, Interest(y, height));
  }

  lemma TwoCharges(lender: string, debtor: string, other: string)
    requires debtor != other && Inv(LentTwice(lender, debtor, other))
    ensures Apply(LentTwice(lender, debtor, other), Call(DoAccrue, 52_560)).0 == ChargedTwice(lender, debtor, other)
  {
    hide Inv, Accrue;
    var x, y := Borrower(8_000_000, 0, 50, 0, 12_000_000), Borrower(1_000_000, 0, 500, 0, 1_500_000);
    var p := LentTwice(lender, debtor, other);
    assert p.borrowers == map[debtor := x, other := y];
    TwoPositionsAccrue(p, 52_560, debtor, other, x, y);
    YearsInterest(x, 40_000);
    YearsInterest(y, 50_000);
  }

  lemma YearsInterest(b: Borrower, c: nat)
    requires b.lastUpdate == 0 && b.principal * b.rateBps == c * 10_000
    ensures Interest(b, 52_560) == c
  {
    DivUnique(b.principal * b.rateBps * 52_560, INTEREST_DIVISOR, c);
  }

  lemma LendingTwiceFrom(p: Pool, lender: string, debtor: string, other: string)
    requires debtor != other && Inv(p) && p == EmptyPool(0)
    ensures RunPool(p, LendingTwice(lender, debtor, other)) == ChargedTwice(lender, debtor, other)
  {
    var s := Busy(lender, debtor);
    var c0, c1 := Call(DoDeposit(lender, s.deposit), 0), Call(DoBorrow(debtor, s.loan, s.collateral), 0);
    var c2, c3 := Call(DoBorrow(other, 1_000_000, 1_500_000), 0), Call(DoAccrue, 52_560);
    DepositStep(s, p);
    hide Apply, Inv, Deposited, Lent, LentTwice, ChargedTwice, EmptyPool;
    ApplyKeepsInv(p, c0);
    LoanStep(s);
    ApplyKeepsInv(Deposited(s), c1);
    SecondLoanStep(lender, debtor, other);
    ApplyKeepsInv(Lent(s), c2);
    TwoCharges(lender, debtor, other);
    assert [] + [c0] == [c0];
    RunAppend(p, [], c0);
    RunAppend(p, [c0], c1);
    RunAppend(p, [c0] + [c1], c2);
    RunAppend(p, [c0] + [c1] + [c2], c3);
  }

  lemma ChargedTwiceOwes(lender: string, debtor: string, other: string)
    requires debtor != other
    ensures var q := ChargedTwice(lender, debtor, other);
            && q.borrowers.Keys == {debtor, other}
            && q.borrowers[debtor] == Borrower(8_000_000, 40_000, 50, 52_560, 12_000_000)
            && q.borrowers[other] == Borrower(1_000_000, 50_000, 500, 52_560, 1_500_000)
            && q.deposits == 10_090_000 && q.borrows == 9_000_000
  {
  }

  /** With eight tenths lent out at 50 basis points, the next million bears 500;
      a year later the two owe 40000 and 50000 sats of interest. */
  lemma SecondLoanBearsItsRate(lender: string, debtor: string, other: string)
    requires debtor != other
    ensures Inv(EmptyPool(0))
    ensures var q := RunPool(EmptyPool(0), LendingTwice(lender, debtor, other));
            && q.borrowers.Keys == {debtor, other}
            && q.borrowers[debtor] == Borrower(8_000_000, 40_000, 50, 52_560, 12_000_000)
            && q.borrowers[other] == Borrower(1_000_000, 50_000, 500, 52_560, 1_500_000)
            && q.deposits == 10_090_000 && q.borrows == 9_000_000
  {
    hide *;
    EmptyPoolInv(0);
    LendingTwiceFrom(EmptyPool(0), lender, debtor, other);
    ChargedTwiceOwes(lender, debtor, other);
  }
}
