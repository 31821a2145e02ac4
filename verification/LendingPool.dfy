/** The lending pool object of src/yield_engine/lending_pool.rs.  Each method is
    proved to make the step `PoolModel` describes, and keeps the invariant under
    which no subtraction underflows and no division is by zero. */
module LendingPool {
  import opened Arith
  import opened MapSum
  import opened PoolModel
  import opened PoolTheorems
  import opened PoolRuns
  import opened Wrappers

  /** A position is charged its own rate on its own principal for the blocks
      since it was last charged, floored to the satoshi, and otherwise kept. */
  ghost predicate Charged(b: Borrower, after: Borrower, height: nat) {
    var c, blocks := after.accrued - b.accrued, if height > b.lastUpdate then height - b.lastUpdate else 0;
    && c >= 0
    && c * (10_000 * 52_560) <= b.principal * b.rateBps * blocks < (c + 1) * (10_000 * 52_560)
    && after == Borrower(b.principal, b.accrued + c, b.rateBps, height, b.collateral)
  }

  /** Deposits per share in millionths, floored; par without shares. */
  ghost predicate FlooredRate(rate: nat, deposits: nat, shares: nat) {
    if shares == 0 then rate == 1_000_000 else rate * shares <= deposits * 1_000_000 < (rate + 1) * shares
  }

  function Owed(bs: map<string, Borrower>): map<string, nat> {
    map k | k in bs :: bs[k].accrued
  }

  /** All positions at once: each is charged exactly, and the charges add up. */
  lemma ChargesExact(before: map<string, Borrower>, after: map<string, Borrower>, height: nat)
    requires after == map k | k in before :: AccruePosition(before[k], height)
    ensures Sum(Owed(after)) == Sum(Owed(before)) + Sum(Interests(before, height))
    ensures forall k :: k in after ==> Charged(before[k], after[k], height)
  {
    hide Interest;
    SumPlus(Owed(before), Interests(before, height), Owed(after));
    forall k | k in after
      ensures Charged(before[k], after[k], height)
    {
      ChargeExact(before[k], height);
    }
  }

  class LendingPool {
    var totalDeposits: nat
    var totalBorrows: nat
    var totalShares: nat
    var lastUpdate: nat
    var lenders: map<string, Lender>
    var borrowers: map<string, Borrower>

    ghost function Value(): Pool
      reads this
    {
      Pool(totalDeposits, totalBorrows, totalShares, lastUpdate, lenders, borrowers)
    }

    ghost predicate Valid()
      reads this
    {
      Inv(Value())
    }

    constructor (genesisHeight: nat)
      ensures Valid() && Value() == EmptyPool(genesisHeight)
      ensures totalDeposits == totalBorrows == totalShares == 0 && lastUpdate == genesisHeight
      ensures lenders == map[] && borrowers == map[]
    {
      totalDeposits, totalBorrows, totalShares := 0, 0, 0;
      lastUpdate := genesisHeight;
      lenders, borrowers := map[], map[];
      new;
      EmptyPoolInv(genesisHeight);
    }

    method GetExchangeRate() returns (rate: nat)
      requires Valid()
      ensures rate == ExchangeRate(Value()) && rate >= SCALE
      ensures FlooredRate(rate, totalDeposits, totalShares)
    {
      ExchangeRateExact(Value());
      RateFacts(Value());
      if totalShares == 0 {
        return SCALE;
      }
      rate := totalDeposits * SCALE / totalShares;
    }

    method GetBorrowRateBps() returns (rate: nat)
      ensures rate == BorrowRateBps(UtilisationBps(totalBorrows, totalDeposits))
      ensures 50 <= rate <= 10_000
      ensures rate <= 500 <==> totalDeposits == 0 || totalBorrows * 10_000 < 8_001 * totalDeposits
    {
      GentleSlopeIff(totalBorrows, totalDeposits);
      rate := BorrowRateBps(UtilisationBps(totalBorrows, totalDeposits));
    }

    method AccrueInterest(currentHeight: nat)
      requires Valid()
      modifies this
      ensures Valid() && Value() == Accrue(old(Value()), currentHeight)
      ensures currentHeight <= old(lastUpdate) ==> Value() == old(Value())
      ensures currentHeight > old(lastUpdate) ==>
                && lastUpdate == currentHeight && borrowers.Keys == old(borrowers).Keys
                && totalBorrows == old(totalBorrows) && totalShares == old(totalShares) && lenders == old(lenders)
                && totalDeposits + Sum(Owed(old(borrowers))) == old(totalDeposits) + Sum(Owed(borrowers))
                && forall k :: k in borrowers ==> Charged(old(borrowers)[k], borrowers[k], currentHeight)
    {
      hide Charged, Owed, Inv;
      AccrueKeepsInv(Value(), currentHeight);
      if SaturatingSub(currentHeight, lastUpdate) == 0 {
        return;
      }
      var newInterestTotal := AccruePositions(currentHeight);
      totalDeposits := totalDeposits + newInterestTotal;
      lastUpdate := currentHeight;
    }

    /** The loop of `accrue_interest`, which visits positions in any order. */
    method AccruePositions(currentHeight: nat) returns (newInterestTotal: nat)
      modifies this`borrowers
      ensures borrowers == map k | k in old(borrowers) :: AccruePosition(old(borrowers)[k], currentHeight)
      ensures newInterestTotal == Sum(Interests(old(borrowers), currentHeight))
      ensures borrowers.Keys == old(borrowers).Keys
      ensures Sum(Owed(borrowers)) == Sum(Owed(old(borrowers))) + newInterestTotal
      ensures forall k :: k in borrowers ==> Charged(old(borrowers)[k], borrowers[k], currentHeight)
    {
      hide Charged, Owed;
      ghost var before := borrowers;
      ghost var charged: map<string, nat> := map[];
      newInterestTotal := 0;
      var todo := borrowers.Keys;
      while todo != {}
        invariant todo <= before.Keys && borrowers.Keys == before.Keys
        invariant forall k :: k in before ==>
          borrowers[k] == if k in todo then before[k] else AccruePosition(before[k], currentHeight)
        invariant charged == map k | k in before && k !in todo :: Interest(before[k], currentHeight)
        invariant newInterestTotal == Sum(charged)
        decreases todo
      {
        var k :| k in todo;
        var pos := borrowers[k];
        var interestSats := Interest(pos, currentHeight);
        borrowers := borrowers[k := pos.(accrued := pos.accrued + interestSats, lastUpdate := currentHeight)];
        newInterestTotal := newInterestTotal + interestSats;
        SumUpdate(charged, k, interestSats);
        charged := charged[k := interestSats];
        todo := todo - {k};
      }
      assert charged == Interests(before, currentHeight);
      ChargesExact(before, borrowers, currentHeight);
    }

    method DepositSats(depositor: string, sats: nat, currentHeight: nat) returns (r: PoolResult)
      requires Valid()
      modifies this
      ensures Valid()
      ensures (Value(), r) == Apply(old(Value()), Call(DoDeposit(depositor, sats), currentHeight))
      ensures depositor in lenders && lenders[depositor].lastUpdate == currentHeight
    {
      hide Accrue, ExchangeRate, Charged, Owed, FlooredRate;
      AccrueInterest(currentHeight);
      DepositKeepsInv(Value(), depositor, sats, currentHeight);
      var rate := GetExchangeRate();
      var shares := sats * SCALE / rate;
      totalDeposits := totalDeposits + sats;
      totalShares := totalShares + shares;
      var pos := if depositor in lenders then lenders[depositor] else Lender(0, currentHeight);
      lenders := lenders[depositor := pos.(shares := pos.shares + shares, lastUpdate := currentHeight)];
      r := Ok(shares);
    }

    method WithdrawShares(depositor: string, shares: nat, currentHeight: nat) returns (r: PoolResult)
      requires Valid()
      modifies this
      ensures Valid()
      ensures (Value(), r) == Apply(old(Value()), Call(DoWithdraw(depositor, shares), currentHeight))
      ensures r.Ok? ==> depositor in lenders && lenders[depositor].lastUpdate == currentHeight
    {
      hide Accrue, Charged, Owed, FlooredRate;
      AccrueInterest(currentHeight);
      WithdrawKeepsInv(Value(), depositor, shares, currentHeight);
      InvBounds(Value(), depositor);
      var rate := GetExchangeRate();
      var satsOut := shares * rate / SCALE;
      if depositor !in lenders {
        return Err(DepositNotFound(depositor));
      }
      var pos := lenders[depositor];
      if pos.shares < shares {
        return Err(InsufficientLiquidity(shares, pos.shares));
      }
      var available: nat := totalDeposits - totalBorrows;
      if satsOut > available {
        return Err(InsufficientLiquidity(satsOut, available));
      }
      lenders := lenders[depositor := pos.(shares := pos.shares - shares, lastUpdate := currentHeight)];
      totalDeposits := totalDeposits - satsOut;
      totalShares := totalShares - shares;
      r := Ok(satsOut);
    }

    method BorrowSats(borrower: string, sats: nat, collateral: nat, currentHeight: nat) returns (r: PoolResult)
      requires Valid()
      modifies this
      ensures Valid()
      ensures (Value(), r) == Apply(old(Value()), Call(DoBorrow(borrower, sats, collateral), currentHeight))
      ensures r.Ok? ==> borrower in borrowers && borrowers[borrower].lastUpdate == currentHeight
    {
      hide Accrue, Charged, Owed, FlooredRate;
      AccrueInterest(currentHeight);
      BorrowKeepsInv(Value(), borrower, sats, collateral, currentHeight);
      var minCollateral := sats * 15_000 / 10_000;
      if collateral < minCollateral {
        return Err(InsufficientCollateral(minCollateral, collateral));
      }
      var available: nat := totalDeposits - totalBorrows;
      if sats > available {
        return Err(InsufficientLiquidity(sats, available));
      }
      var rate := GetBorrowRateBps();
      totalBorrows := totalBorrows + sats;
      borrowers := borrowers[borrower := Borrower(sats, 0, rate, currentHeight, collateral)];
      r := Ok(0);
    }

    method RepaySats(borrower: string, sats: nat, currentHeight: nat) returns (r: PoolResult)
      requires Valid()
      modifies this
      ensures Valid()
      ensures (Value(), r) == Apply(old(Value()), Call(DoRepay(borrower, sats), currentHeight))
      ensures r.Ok? ==> borrower in borrowers && borrowers[borrower].lastUpdate == currentHeight
    {
      hide Accrue, Charged, Owed, FlooredRate;
      AccrueInterest(currentHeight);
      RepayKeepsInv(Value(), borrower, sats, currentHeight);
      if borrower !in borrowers {
        return Err(DepositNotFound(borrower));
      }
      var pos := borrowers[borrower];
      var payment := Min(sats, pos.TotalDebt());
      var interestPaid := Min(payment, pos.accrued);
      var principalPaid := payment - interestPaid;
      borrowers := borrowers[borrower := pos.(
        accrued := pos.accrued - interestPaid,
        principal := SaturatingSub(pos.principal, principalPaid),
        lastUpdate := currentHeight)];
      totalBorrows := SaturatingSub(totalBorrows, principalPaid);
      totalDeposits := totalDeposits + interestPaid;
      r := Ok(payment);
    }
  }
}
