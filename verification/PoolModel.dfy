/** What each operation of src/yield_engine/lending_pool.rs does to the pool,
    on values.  Amounts are satoshis; shares are priced by a floored exchange
    rate scaled by 10^6. */
module PoolModel {
  import opened Arith
  import opened MapSum
  import opened Wrappers

  const SCALE: nat := 1_000_000
  const BLOCKS_PER_YEAR: nat := 52_560
  const INTEREST_DIVISOR: nat := 10_000 * BLOCKS_PER_YEAR

  datatype Lender = Lender(shares: nat, lastUpdate: nat)

  datatype Borrower = Borrower(principal: nat, accrued: nat, rateBps: nat, lastUpdate: nat, collateral: nat) {
    function TotalDebt(): nat {
      principal + accrued
    }
  }

  datatype Pool = Pool(
    deposits: nat,
    borrows: nat,
    shares: nat,
    lastUpdate: nat,
    lenders: map<string, Lender>,
    borrowers: map<string, Borrower>
  )

  datatype PoolError =
    | DepositNotFound(id: string)
    | InsufficientLiquidity(requested: nat, available: nat)
    | InsufficientCollateral(required: nat, supplied: nat)

  type PoolResult = Result<nat, PoolError>

  function EmptyPool(genesis: nat): Pool {
    Pool(0, 0, 0, genesis, map[], map[])
  }

  // ----- rates -------------------------------------------------------------

  function Min(a: nat, b: nat): nat {
    if a < b then a else b
  }

  function UtilisationBps(borrows: nat, deposits: nat): nat {
    if deposits == 0 then 0 else Min(borrows * 10_000 / deposits, 10_000)
  }

  function BorrowRateBps(utilisation: nat): nat {
    if utilisation <= 8_000 then 50 + utilisation * (500 - 50) / 8_000
    else 500 + (utilisation - 8_000) * (10_000 - 500) / (10_000 - 8_000)
  }

  function ExchangeRate(p: Pool): nat {
    if p.shares == 0 then SCALE else p.deposits * SCALE / p.shares
  }

  // ----- interest ----------------------------------------------------------

  function Interest(b: Borrower, height: nat): nat {
    b.principal * b.rateBps * SaturatingSub(height, b.lastUpdate) / INTEREST_DIVISOR
  }

  function AccruePosition(b: Borrower, height: nat): Borrower {
    b.(accrued := b.accrued + Interest(b, height), lastUpdate := height)
  }

  function Interests(bs: map<string, Borrower>, height: nat): map<string, nat> {
    map k | k in bs :: Interest(bs[k], height)
  }

  ghost function Accrue(p: Pool, height: nat): Pool {
    if SaturatingSub(height, p.lastUpdate) == 0 then p
    else p.(
      deposits := p.deposits + Sum(Interests(p.borrowers, height)),
      borrowers := map k | k in p.borrowers :: AccruePosition(p.borrowers[k], height),
      lastUpdate := height)
  }

  // ----- the invariant -----------------------------------------------------

  function ShareMap(p: Pool): map<string, nat> {
    map k | k in p.lenders :: p.lenders[k].shares
  }

  function Principals(p: Pool): map<string, nat> {
    map k | k in p.borrowers :: p.borrowers[k].principal
  }

  function AccruedMap(p: Pool): map<string, nat> {
    map k | k in p.borrowers :: p.borrowers[k].accrued
  }

  /** Shares are owned by someone, are backed sat for sat, and loans are backed
      by deposits and by open positions. */
  ghost predicate Inv(p: Pool) {
    && Sum(ShareMap(p)) == p.shares
    && p.shares <= p.deposits
    && p.borrows <= p.deposits
    && Sum(Principals(p)) <= p.borrows
  }

  function SharesOf(p: Pool, who: string): nat {
    if who in p.lenders then p.lenders[who].shares else 0
  }

  lemma InvBounds(p: Pool, who: string)
    requires Inv(p)
    ensures ExchangeRate(p) > 0
    ensures SharesOf(p, who) <= p.shares
  {
    if who in p.lenders {
      SumAt(ShareMap(p), who);
    }
    if p.shares > 0 {
      DivAtLeast(p.deposits * SCALE, p.shares, SCALE);
    }
  }

  // ----- operations after accrual ------------------------------------------

  function SharesFor(p: Pool, sats: nat): nat
    requires Inv(p)
  {
    InvBounds(p, "");
    sats * SCALE / ExchangeRate(p)
  }

  function SatsFor(p: Pool, shares: nat): nat {
    shares * ExchangeRate(p) / SCALE
  }

  function Deposit(p: Pool, who: string, sats: nat, height: nat): (Pool, PoolResult)
    requires Inv(p)
  {
    var minted := SharesFor(p, sats);
    (p.(deposits := p.deposits + sats,
        shares := p.shares + minted,
        lenders := p.lenders[who := Lender(SharesOf(p, who) + minted, height)]),
     Ok(minted))
  }

  /** The checks of `withdraw`, in its order. */
  function WithdrawCheck(p: Pool, who: string, shares: nat): PoolResult
    requires Inv(p)
  {
    if who !in p.lenders then Err(DepositNotFound(who))
    else if p.lenders[who].shares < shares then Err(InsufficientLiquidity(shares, p.lenders[who].shares))
    else if SatsFor(p, shares) > p.deposits - p.borrows
      then Err(InsufficientLiquidity(SatsFor(p, shares), p.deposits - p.borrows))
    else Ok(SatsFor(p, shares))
  }

  function Withdraw(p: Pool, who: string, shares: nat, height: nat): (Pool, PoolResult)
    requires Inv(p)
  {
    InvBounds(p, who);
    var r := WithdrawCheck(p, who, shares);
    if r.Err? then (p, r)
    else
      (p.(deposits := p.deposits - r.value,
          shares := p.shares - shares,
          lenders := p.lenders[who := Lender(p.lenders[who].shares - shares, height)]),
       r)
  }

  function BorrowCheck(p: Pool, sats: nat, collateral: nat): PoolResult
    requires Inv(p)
  {
    var required := sats * 15_000 / 10_000;
    if collateral < required then Err(InsufficientCollateral(required, collateral))
    else if sats > p.deposits - p.borrows then Err(InsufficientLiquidity(sats, p.deposits - p.borrows))
    else Ok(0)
  }

  /** An earlier position of the same borrower is overwritten. */
  function Borrow(p: Pool, who: string, sats: nat, collateral: nat, height: nat): (Pool, PoolResult)
    requires Inv(p)
  {
    var r := BorrowCheck(p, sats, collateral);
    if r.Err? then (p, r)
    else
      var rate := BorrowRateBps(UtilisationBps(p.borrows, p.deposits));
      (p.(borrows := p.borrows + sats,
          borrowers := p.borrowers[who := Borrower(sats, 0, rate, height, collateral)]),
       r)
  }

  datatype Split = Split(payment: nat, interest: nat, principal: nat)

  /** A payment is capped at the debt and covers interest first. */
  function SplitPayment(b: Borrower, sats: nat): Split {
    var payment := Min(sats, b.TotalDebt());
    var interest := Min(payment, b.accrued);
    Split(payment, interest, payment - interest)
  }

  function Repay(p: Pool, who: string, sats: nat, height: nat): (Pool, PoolResult) {
    if who !in p.borrowers then (p, Err(DepositNotFound(who)))
    else
      var b := p.borrowers[who];
      var s := SplitPayment(b, sats);
      (p.(borrows := SaturatingSub(p.borrows, s.principal),
          deposits := p.deposits + s.interest,
          borrowers := p.borrowers[who := b.(accrued := b.accrued - s.interest,
                                             principal := SaturatingSub(b.principal, s.principal),
                                             lastUpdate := height)]),
       Ok(s.payment))
  }

  // ----- calls and runs ----------------------------------------------------

  datatype Op =
    | DoDeposit(who: string, sats: nat)
    | DoWithdraw(who: string, shares: nat)
    | DoBorrow(who: string, sats: nat, collateral: nat)
    | DoRepay(who: string, sats: nat)
    | DoAccrue

  datatype Call = Call(op: Op, height: nat)
}
