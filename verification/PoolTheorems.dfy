/** Properties of every run of the lending pool. */
module PoolTheorems {
  import opened Arith
  import opened MapSum
  import opened PoolModel
  import opened Wrappers

  // ----- the arithmetic of floored shares ----------------------------------

  /** The quoted rate never overstates what a share is backed by. */
  lemma RateFacts(p: Pool)
    requires p.shares <= p.deposits
    ensures SCALE <= ExchangeRate(p)
    ensures ExchangeRate(p) * p.shares <= p.deposits * SCALE
  {
    if p.shares > 0 {
      DivBounds(p.deposits * SCALE, p.shares);
      DivAtLeast(p.deposits * SCALE, p.shares, SCALE);
    }
  }

  /** Minted shares are backed at the old rate, and number at most one a sat. */
  lemma MintFacts(deposits: nat, total: nat, sats: nat, rate: nat, minted: nat)
    requires SCALE <= rate && rate * total <= deposits * SCALE
    requires minted == sats * SCALE / rate
    ensures rate * (total + minted) <= (deposits + sats) * SCALE
    ensures minted <= sats
  {
    DivBounds(sats * SCALE, rate);
    MulMonotone(SCALE, rate, sats);
    DivAtMost(sats * SCALE, rate, sats);
    assert rate * (total + minted) == rate * total + minted * rate;
  }

  /** Redeeming `s` of `total` shares leaves the others backed at the old rate. */
  lemma RedeemFacts(deposits: nat, total: nat, s: nat, rate: nat, out: nat)
    requires s <= total && SCALE <= rate && rate * total <= deposits * SCALE
    requires out == s * rate / SCALE
    ensures rate * (total - s) <= (deposits - out) * SCALE
    ensures total - s <= deposits - out
  {
    DivBounds(s * rate, SCALE);
    assert rate * (total - s) == rate * total - s * rate;
    MulMonotone(SCALE, rate, total - s);
  }

  lemma RateAtLeast(p: Pool, rate: nat)
    requires rate * p.shares <= p.deposits * SCALE
    ensures p.shares > 0 || rate == SCALE ==> rate <= ExchangeRate(p)
  {
    if p.shares > 0 {
      DivAtLeast(p.deposits * SCALE, p.shares, rate);
    }
  }

  lemma EmptyRate(p: Pool)
    ensures p.shares == 0 ==> ExchangeRate(p) == SCALE
  {
  }

  // ----- what each operation does ------------------------------------------

  /** The rate is the floor of deposits per share, in millionths. */
  lemma ExchangeRateExact(p: Pool)
    ensures p.shares == 0 ==> ExchangeRate(p) == 1_000_000
    ensures p.shares > 0 ==>
              ExchangeRate(p) * p.shares <= p.deposits * 1_000_000 < (ExchangeRate(p) + 1) * p.shares
  {
    if p.shares > 0 {
      DivBounds(p.deposits * SCALE, p.shares);
      MulSucc(ExchangeRate(p), p.shares);
    }
  }

  /** Utilisation is the floored share of the deposits lent out, in basis points
      and at most all of them. */
  lemma UtilisationExact(borrows: nat, deposits: nat)
    ensures var u := UtilisationBps(borrows, deposits);
            && (deposits == 0 ==> u == 0)
            && (borrows >= deposits > 0 ==> u == 10_000)
            && (borrows < deposits ==> u * deposits <= borrows * 10_000 < (u + 1) * deposits)
  {
    if deposits > 0 {
      DivBounds(borrows * 10_000, deposits);
      MulSucc(borrows * 10_000 / deposits, deposits);
      if borrows >= deposits {
        DivAtLeast(borrows * 10_000, deposits, 10_000);
      } else {
        DivAtMost(borrows * 10_000, deposits, 9_999);
      }
    }
  }

  /** The rate climbs 450 basis points over the first 8000 of utilisation and
      9500 over the last 2000, floored. */
  lemma CurveExact(u: nat)
    requires u <= 10_000
    ensures var rate := BorrowRateBps(u);
            if u <= 8_000 then (rate - 50) * 8_000 <= 450 * u < (rate - 49) * 8_000
            else (rate - 500) * 2_000 <= 9_500 * (u - 8_000) < (rate - 499) * 2_000
  {
  }

  /** A position is charged its own rate on its own principal for the blocks
      since it was last charged, floored to the satoshi. */
  lemma ChargeExact(b: Borrower, height: nat)
    ensures var after := AccruePosition(b, height);
            var c, blocks := after.accrued - b.accrued, if height > b.lastUpdate then height - b.lastUpdate else 0;
            && c >= 0
            && c * (10_000 * 52_560) <= b.principal * b.rateBps * blocks < (c + 1) * (10_000 * 52_560)
            && after == Borrower(b.principal, b.accrued + c, b.rateBps, height, b.collateral)
  {
    DivBounds(b.principal * b.rateBps * SaturatingSub(height, b.lastUpdate), INTEREST_DIVISOR);
    MulSucc(Interest(b, height), INTEREST_DIVISOR);
  }

  /** A deposit enters whole, and mints what it buys at the rate, floored. */
  lemma DepositExact(p: Pool, who: string, sats: nat, height: nat)
    requires Inv(p)
    ensures var (q, r) := Deposit(p, who, sats, height);
            var owned := if who in p.lenders then p.lenders[who].shares else 0;
            && r.Ok?
            && r.value * ExchangeRate(p) <= sats * 1_000_000 < (r.value + 1) * ExchangeRate(p)
            && q == p.(deposits := p.deposits + sats, shares := p.shares + r.value,
                       lenders := p.lenders[who := Lender(owned + r.value, height)])
  {
    InvBounds(p, who);
    DivBounds(sats * SCALE, ExchangeRate(p));
    MulSucc(SharesFor(p, sats), ExchangeRate(p));
  }

  /** The two refusals of a withdrawal, the third for its price, and otherwise
      the floored price of the shares, paid out of the deposits. */
  lemma WithdrawExact(p: Pool, who: string, shares: nat, height: nat) returns (price: nat)
    requires Inv(p)
    ensures price * 1_000_000 <= shares * ExchangeRate(p) < (price + 1) * 1_000_000
    ensures Withdraw(p, who, shares, height)
         == if who !in p.lenders then (p, Result<nat, PoolError>.Err(DepositNotFound(who)))
            else
              var owned, free := p.lenders[who].shares, p.deposits - p.borrows;
              if owned < shares then (p, Err(InsufficientLiquidity(shares, owned)))
              else if free < price then (p, Err(InsufficientLiquidity(price, free)))
              else (p.(deposits := p.deposits - price, shares := p.shares - shares,
                       lenders := p.lenders[who := Lender(owned - shares, height)]),
                    Ok(price))
  {
    InvBounds(p, who);
    price := SatsFor(p, shares);
    DivBounds(shares * ExchangeRate(p), SCALE);
    MulSucc(price, SCALE);
  }

  /** A loan needs half as much again in collateral, floored, and that much
      unlent; it bears the rate of the utilisation before it and replaces what
      the borrower had. */
  lemma BorrowExact(p: Pool, who: string, sats: nat, collateral: nat, height: nat)
    requires Inv(p)
    ensures var required, free := sats + sats / 2, p.deposits - p.borrows;
            var rate := BorrowRateBps(UtilisationBps(p.borrows, p.deposits));
            Borrow(p, who, sats, collateral, height) ==
            if collateral < required then (p, Result<nat, PoolError>.Err(InsufficientCollateral(required, collateral)))
            else if free < sats then (p, Err(InsufficientLiquidity(sats, free)))
            else (p.(borrows := p.borrows + sats,
                     borrowers := p.borrowers[who := Borrower(sats, 0, rate, height, collateral)]),
                  Ok(0))
  {
    DivUnique(sats * 15_000, 10_000, sats + sats / 2);
  }

  // ----- accrual -----------------------------------------------------------

  lemma AccrueMaps(p: Pool, height: nat)
    ensures ShareMap(Accrue(p, height)) == ShareMap(p)
    ensures Principals(Accrue(p, height)) == Principals(p)
    ensures Accrue(p, height).deposits >= p.deposits
  {
    assert Principals(Accrue(p, height)) == Principals(p);
  }

  lemma AccrueKeepsInv(p: Pool, height: nat)
    requires Inv(p)
    ensures Inv(Accrue(p, height))
  {
    AccrueMaps(p, height);
  }

  lemma AccrueRaisesRate(p: Pool, height: nat)
    requires Inv(p)
    ensures ExchangeRate(p) <= ExchangeRate(Accrue(p, height))
  {
    AccrueMaps(p, height);
    if p.shares > 0 {
      DivMonotone(p.deposits * SCALE, Accrue(p, height).deposits * SCALE, p.shares);
    }
  }

  // ----- one call ----------------------------------------------------------

  /** A call accrues first, whatever becomes of it. */
  ghost function Apply(p: Pool, call: Call): (Pool, PoolResult)
    requires Inv(p)
  {
    AccrueKeepsInv(p, call.height);
    var q := Accrue(p, call.height);
    match call.op
    case DoDeposit(who, sats) => Deposit(q, who, sats, call.height)
    case DoWithdraw(who, shares) => Withdraw(q, who, shares, call.height)
    case DoBorrow(who, sats, collateral) => Borrow(q, who, sats, collateral, call.height)
    case DoRepay(who, sats) => Repay(q, who, sats, call.height)
    case DoAccrue => (q, Ok(0))
  }

  lemma DepositKeepsInv(p: Pool, who: string, sats: nat, height: nat)
    requires Inv(p)
    ensures Inv(Deposit(p, who, sats, height).0)
    ensures ExchangeRate(p) <= ExchangeRate(Deposit(p, who, sats, height).0)
  {
    hide ExchangeRate;
    var q, minted, rate := Deposit(p, who, sats, height).0, SharesFor(p, sats), ExchangeRate(p);
    RateFacts(p);
    MintFacts(p.deposits, p.shares, sats, rate, minted);
    SumUpdate(ShareMap(p), who, SharesOf(p, who) + minted);
    assert ShareMap(q) == ShareMap(p)[who := SharesOf(p, who) + minted];
    assert Principals(q) == Principals(p);
    EmptyRate(p);
    RateAtLeast(q, rate);
  }

  lemma WithdrawKeepsInv(p: Pool, who: string, shares: nat, height: nat)
    requires Inv(p)
    ensures Inv(Withdraw(p, who, shares, height).0)
    ensures var q := Withdraw(p, who, shares, height).0;
            q.shares > 0 ==> ExchangeRate(p) <= ExchangeRate(q)
  {
    var (q, r) := Withdraw(p, who, shares, height);
    if r.Ok? {
      InvBounds(p, who);
      RateFacts(p);
      RedeemFacts(p.deposits, p.shares, shares, ExchangeRate(p), r.value);
      SumUpdate(ShareMap(p), who, p.lenders[who].shares - shares);
      assert ShareMap(q) == ShareMap(p)[who := p.lenders[who].shares - shares];
      assert Principals(q) == Principals(p);
      if q.shares > 0 {
        RateAtLeast(q, ExchangeRate(p));
      }
    }
  }

  lemma BorrowKeepsInv(p: Pool, who: string, sats: nat, collateral: nat, height: nat)
    requires Inv(p)
    ensures Inv(Borrow(p, who, sats, collateral, height).0)
    ensures ExchangeRate(p) == ExchangeRate(Borrow(p, who, sats, collateral, height).0)
  {
    var (q, r) := Borrow(p, who, sats, collateral, height);
    if r.Ok? {
      SumUpdate(Principals(p), who, sats);
      assert Principals(q) == Principals(p)[who := sats];
      assert ShareMap(q) == ShareMap(p);
    }
  }

  /** A payment never exceeds the open principal, so neither subtraction in
      `repay` saturates, and the debt falls by exactly the payment. */
  lemma RepayExact(p: Pool, who: string, sats: nat, height: nat)
    requires Inv(p) && who in p.borrowers
    ensures var s, b := SplitPayment(p.borrowers[who], sats), p.borrowers[who];
            var q := Repay(p, who, sats, height).0;
            && s.payment == s.interest + s.principal == Min(sats, b.TotalDebt())
            && s.principal <= b.principal
            && s.principal <= p.borrows
            && (s.principal > 0 ==> s.interest == b.accrued)
            && q.borrows == p.borrows - s.principal
            && q.borrowers[who].principal == b.principal - s.principal
            && q.borrowers[who].accrued == b.accrued - s.interest
            && q.borrowers[who].TotalDebt() == b.TotalDebt() - s.payment
  {
    SumAt(Principals(p), who);
  }

  /** A repayment reduces one position and the loans, and adds its interest part
      to the deposits; an unknown borrower is refused. */
  lemma RepayOutcome(p: Pool, who: string, sats: nat, height: nat)
    requires Inv(p)
    ensures Repay(p, who, sats, height)
         == if who !in p.borrowers then (p, Result<nat, PoolError>.Err(DepositNotFound(who)))
            else
              var b := p.borrowers[who];
              var debt := b.principal + b.accrued;
              var paid := if sats < debt then sats else debt;
              var interest := if paid < b.accrued then paid else b.accrued;
              var principal := paid - interest;
              (p.(deposits := p.deposits + interest, borrows := SaturatingSub(p.borrows, principal),
                  borrowers := p.borrowers[who := Borrower(b.principal - principal, b.accrued - interest, b.rateBps,
                                                           height, b.collateral)]),
               Ok(paid))
  {
    if who in p.borrowers {
      RepayExact(p, who, sats, height);
    }
  }

  lemma RepayKeepsInv(p: Pool, who: string, sats: nat, height: nat)
    requires Inv(p)
    ensures Inv(Repay(p, who, sats, height).0)
    ensures ExchangeRate(p) <= ExchangeRate(Repay(p, who, sats, height).0)
  {
    if who in p.borrowers {
      var q := Repay(p, who, sats, height).0;
      RepayExact(p, who, sats, height);
      SumUpdate(Principals(p), who, q.borrowers[who].principal);
      assert Principals(q) == Principals(p)[who := q.borrowers[who].principal];
      assert ShareMap(q) == ShareMap(p);
      if p.shares > 0 {
        DivMonotone(p.deposits * SCALE, q.deposits * SCALE, p.shares);
      }
    }
  }

  /** A loan is granted exactly when the collateral is worth one and a half
      times the loan, to the satoshi, and the pool holds that much unlent. */
  lemma BorrowAcceptedIff(p: Pool, who: string, sats: nat, collateral: nat, height: nat)
    requires Inv(p)
    ensures Borrow(p, who, sats, collateral, height).1.Ok?
            <==> 3 * sats <= 2 * collateral + 1 && sats + p.borrows <= p.deposits
  {
  }

  /** Shares are redeemed exactly when they are owned and their price is held
      unlent. */
  lemma WithdrawAcceptedIff(p: Pool, who: string, shares: nat, height: nat)
    requires Inv(p)
    ensures Withdraw(p, who, shares, height).1.Ok?
            <==> who in p.lenders && shares <= SharesOf(p, who) && SatsFor(p, shares) + p.borrows <= p.deposits
  {
  }

  /** The two-slope curve rises from 50 to 10000 basis points and meets 500 at
      the optimal utilisation, without a step down. */
  lemma RateCurve(u: nat, v: nat)
    requires u <= v <= 10_000
    ensures 50 == BorrowRateBps(0) <= BorrowRateBps(u) <= BorrowRateBps(v) <= BorrowRateBps(10_000) == 10_000
    ensures BorrowRateBps(8_000) == 500
  {
  }

  /** The quoted rate stays at or below 5% exactly while utilisation, floored to
      basis points, is at most 80%. */
  lemma GentleSlopeIff(borrows: nat, deposits: nat)
    ensures var rate := BorrowRateBps(UtilisationBps(borrows, deposits));
            && 50 <= rate <= 10_000
            && (rate <= 500 <==> deposits == 0 || borrows * 10_000 < 8_001 * deposits)
  {
    var u := UtilisationBps(borrows, deposits);
    RateCurve(u, u);
    if deposits > 0 {
      if borrows * 10_000 < 8_001 * deposits {
        DivAtMost(borrows * 10_000, deposits, 8_000);
      } else {
        DivAtLeast(borrows * 10_000, deposits, 8_001);
      }
    }
  }

  /** A refused call leaves the accrual applied and nothing else. */
  lemma FailureOnlyAccrues(p: Pool, call: Call)
    requires Inv(p)
    ensures Apply(p, call).1.Err? ==> Apply(p, call).0 == Accrue(p, call.height)
  {
  }

  lemma ApplyKeepsInv(p: Pool, call: Call)
    requires Inv(p)
    ensures Inv(Apply(p, call).0)
  {
    AccrueKeepsInv(p, call.height);
    var q := Accrue(p, call.height);
    match call.op {
      case DoDeposit(who, sats) => DepositKeepsInv(q, who, sats, call.height);
      case DoWithdraw(who, shares) => WithdrawKeepsInv(q, who, shares, call.height);
      case DoBorrow(who, sats, collateral) => BorrowKeepsInv(q, who, sats, collateral, call.height);
      case DoRepay(who, sats) => RepayKeepsInv(q, who, sats, call.height);
      case DoAccrue =>
    }
  }

  // ----- the exchange rate -------------------------------------------------

  /** While shares remain outstanding the quoted rate never falls. */
  lemma RateNeverFalls(p: Pool, call: Call)
    requires Inv(p)
    ensures var q := Apply(p, call).0;
            q.shares > 0 || !call.op.DoWithdraw? ==> ExchangeRate(p) <= ExchangeRate(q)
  {
    AccrueKeepsInv(p, call.height);
    AccrueRaisesRate(p, call.height);
    var q := Accrue(p, call.height);
    match call.op {
      case DoDeposit(who, sats) => DepositKeepsInv(q, who, sats, call.height);
      case DoWithdraw(who, shares) => WithdrawKeepsInv(q, who, shares, call.height);
      case DoBorrow(who, sats, collateral) => BorrowKeepsInv(q, who, sats, collateral, call.height);
      case DoRepay(who, sats) => RepayKeepsInv(q, who, sats, call.height);
      case DoAccrue =>
    }
  }

  /** The documented "monotonically non-decreasing" rate fails in exactly one
      case: the owner of all outstanding shares of an appreciated pool redeems
      them, and the pool has their price unlent.  The emptied pool quotes the
      initial rate again. */
  lemma RateFallsIff(p: Pool, call: Call)
    requires Inv(p)
    ensures Inv(Accrue(p, call.height))
    ensures var a := Accrue(p, call.height);
            ExchangeRate(Apply(p, call).0) < ExchangeRate(p)
            <==> && call.op.DoWithdraw?
                 && call.op.who in p.lenders
                 && call.op.shares == p.lenders[call.op.who].shares == p.shares > 0
                 && SatsFor(a, p.shares) + p.borrows <= a.deposits
                 && ExchangeRate(p) > SCALE
  {
    RateNeverFalls(p, call);
    ApplyKeepsInv(p, call);
    AccrueKeepsInv(p, call.height);
    AccrueMaps(p, call.height);
    RateFacts(p);
    var (q, r) := Apply(p, call);
    if call.op.DoWithdraw? {
      var a := Accrue(p, call.height);
      InvBounds(a, call.op.who);
      WithdrawAcceptedIff(a, call.op.who, call.op.shares, call.height);
      if r.Err? {
        AccrueRaisesRate(p, call.height);
      }
    }
  }

  // ----- claims ------------------------------------------------------------

  /** What every lender could redeem at the current rate. */
  function Claims(p: Pool): map<string, nat> {
    map k | k in p.lenders :: SatsFor(p, p.lenders[k].shares)
  }

  function Payout(shares: nat, rate: nat): nat {
    shares * rate / SCALE
  }

  /** Floored payouts are covered by the exact ones. */
  ghost predicate Covered(claims: int, shares: int, rate: int) {
    claims * SCALE <= shares * rate
  }

  lemma NothingCovered(rate: int)
    ensures Covered(0, 0, rate)
  {
  }

  lemma {:induction false} FlooredClaims(shares: map<string, nat>, claims: map<string, nat>, rate: nat)
    requires claims.Keys == shares.Keys
    requires forall k :: k in shares ==> claims[k] == Payout(shares[k], rate)
    ensures Covered(Sum(claims), Sum(shares), rate)
    decreases |shares|
  {
    hide Payout, Sum, Covered;
    if shares == map[] {
      SumEmpty(shares);
      SumEmpty(claims);
      NothingCovered(rate);
    } else {
      var k :| k in shares;
      SumRemove(shares, k);
      SumRemove(claims, k);
      FlooredClaims(shares - {k}, claims - {k}, rate);
      OneMoreClaim(Sum(claims - {k}), Sum(shares - {k}), shares[k], rate);
    }
  }

  lemma OneMoreClaim(claims: nat, shares: nat, share: nat, rate: nat)
    requires Covered(claims, shares, rate)
    ensures Covered(Payout(share, rate) + claims, share + shares, rate)
  {
    DivBounds(share * rate, SCALE);
    assert (share + shares) * rate == share * rate + shares * rate;
  }

  /** All floored claims together are covered by the recorded deposits. */
  lemma ClaimsCovered(p: Pool)
    requires Inv(p)
    ensures Sum(Claims(p)) <= p.deposits
  {
    hide ExchangeRate;
    FlooredClaims(ShareMap(p), Claims(p), ExchangeRate(p));
    RateFacts(p);
    Backed(Sum(Claims(p)), p.shares, ExchangeRate(p), p.deposits);
  }

  lemma Backed(claims: nat, shares: nat, rate: nat, deposits: nat)
    requires claims * SCALE <= shares * rate && rate * shares <= deposits * SCALE
    ensures claims <= deposits
  {
  }
}
