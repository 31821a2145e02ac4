/** Whole histories of the validator registry: where every bonded satoshi and
    every credited reward went, and when bonds can leave. */
module RegistryRuns {
  import opened MapSum
  import opened Validators

  function BondAt(r: Registry, k: PubKey): nat {
    if k in r then r[k].bond else 0
  }

  function PendingAt(r: Registry, k: PubKey): nat {
    if k in r then r[k].pendingRewards else 0
  }

  datatype Ledger = Ledger(
    registered: nat, returned: nat, slashed: nat, removed: nat, overwritten: nat,
    credited: nat, claimed: nat, forfeited: nat
  )

  const NOTHING := Ledger(0, 0, 0, 0, 0, 0, 0, 0)

  ghost function Record(l: Ledger, r: Registry, op: Op): Ledger {
    match op
    case Register(k, bond, _) =>
      if RegisterCheck(r, bond).Err? then l
      else l.(registered := l.registered + bond, overwritten := l.overwritten + BondAt(r, k),
              forfeited := l.forfeited + PendingAt(r, k))
    case SlashBy(k, amount) =>
      l.(slashed := l.slashed + if amount <= BondAt(r, k) then amount else BondAt(r, k))
    case Unbond(_, _) => l
    case Exit(k, height) =>
      var check := ExitCheck(r, k, height);
      if check.Err? then l else l.(returned := l.returned + check.value)
    case Remove(k) => l.(removed := l.removed + BondAt(r, k), forfeited := l.forfeited + PendingAt(r, k))
    case Distribute(reward) => l.(credited := l.credited + Credited(r, reward))
    case Claim(k) => l.(claimed := l.claimed + PendingAt(r, k))
  }

  ghost function Replay(ops: seq<Op>): Registry {
    if ops == [] then map[] else After(Replay(ops[..|ops| - 1]), ops[|ops| - 1])
  }

  ghost function Books(ops: seq<Op>): Ledger {
    if ops == [] then NOTHING
    else Record(Books(ops[..|ops| - 1]), Replay(ops[..|ops| - 1]), ops[|ops| - 1])
  }

  // ----- conservation ------------------------------------------------------

  function Bonds(r: Registry): map<PubKey, nat> {
    map k | k in r :: r[k].bond
  }

  function Pendings(r: Registry): map<PubKey, nat> {
    map k | k in r :: r[k].pendingRewards
  }

  ghost predicate Balanced(l: Ledger, r: Registry) {
    && l.registered == Sum(Bonds(r)) + l.returned + l.slashed + l.removed + l.overwritten
    && l.credited == Sum(Pendings(r)) + l.claimed + l.forfeited
  }

  /** Replacing one entry moves both sums by the difference. */
  lemma EntryReplaced(r: Registry, k: PubKey, v: Validator)
    ensures Sum(Bonds(r[k := v])) + BondAt(r, k) == Sum(Bonds(r)) + v.bond
    ensures Sum(Pendings(r[k := v])) + PendingAt(r, k) == Sum(Pendings(r)) + v.pendingRewards
  {
    SumUpdate(Bonds(r), k, v.bond);
    SumUpdate(Pendings(r), k, v.pendingRewards);
    assert Bonds(r[k := v]) == Bonds(r)[k := v.bond];
    assert Pendings(r[k := v]) == Pendings(r)[k := v.pendingRewards];
  }

  lemma EntryRemoved(r: Registry, k: PubKey)
    ensures Sum(Bonds(r - {k})) + BondAt(r, k) == Sum(Bonds(r))
    ensures Sum(Pendings(r - {k})) + PendingAt(r, k) == Sum(Pendings(r))
  {
    if k in r {
      SumRemove(Bonds(r), k);
      SumRemove(Pendings(r), k);
    }
    assert Bonds(r - {k}) == Bonds(r) - {k};
    assert Pendings(r - {k}) == Pendings(r) - {k};
    assert k !in r ==> r - {k} == r;
  }

  /** A distribution adds to the pending rewards exactly what it credits. */
  lemma DistributionAdds(r: Registry, reward: nat)
    ensures Sum(Pendings(Distributed(r, reward))) == Sum(Pendings(r)) + Credited(r, reward)
    ensures Bonds(Distributed(r, reward)) == Bonds(r)
  {
    var total := TotalBond(r);
    if total > 0 {
      var d, shares := Distributed(r, reward), Shares(r, reward, total);
      var padded: map<PubKey, nat> := map k | k in r :: if k in shares then shares[k] else 0;
      SumPlus(Pendings(r), padded, Pendings(d));
      Padding(shares, padded);
    }
  }

  lemma {:induction false} Padding(m: map<PubKey, nat>, padded: map<PubKey, nat>)
    requires m.Keys <= padded.Keys
    requires forall k :: k in padded ==> padded[k] == if k in m then m[k] else 0
    ensures Sum(padded) == Sum(m)
    decreases |padded|
  {
    if padded != map[] {
      var k :| k in padded;
      SumRemove(padded, k);
      if k in m {
        SumRemove(m, k);
      } else {
        assert m - {k} == m;
      }
      Padding(m - {k}, padded - {k});
    } else {
      assert m == map[];
    }
  }

  lemma StepBalanced(l: Ledger, r: Registry, op: Op)
    requires Balanced(l, r)
    ensures Balanced(Record(l, r, op), After(r, op))
  {
    match op {
      case Register(k, bond, height) => EntryReplaced(r, k, Validator(bond, 0, 0, Active, height));
      case SlashBy(k, amount) => if k in r { EntryReplaced(r, k, Slash(r[k], amount)); }
      case Unbond(k, height) => if k in r { EntryReplaced(r, k, r[k].(status := Unbonding(height))); }
      case Exit(k, height) => if k in r { EntryReplaced(r, k, r[k].(status := Exited, bond := 0)); }
      case Remove(k) => EntryRemoved(r, k);
      case Distribute(reward) => DistributionAdds(r, reward);
      case Claim(k) => if k in r { EntryReplaced(r, k, r[k].(pendingRewards := 0)); }
    }
  }

  /** Over every history, registered bonds are held, returned, slashed, removed
      or overwritten, and credited rewards are pending, claimed or forfeited. */
  lemma {:induction false} EveryRunBalanced(ops: seq<Op>)
    ensures Balanced(Books(ops), Replay(ops))
  {
    if ops == [] {
      assert Bonds(map[]) == map[] && Pendings(map[]) == map[];
    } else {
      hide Record, After, Balanced;
      EveryRunBalanced(ops[..|ops| - 1]);
      StepBalanced(Books(ops[..|ops| - 1]), Replay(ops[..|ops| - 1]), ops[|ops| - 1]);
    }
  }

  // ----- the committee -----------------------------------------------------

  /** At most 100 active validators, each with at least the minimum bond. */
  ghost predicate CommitteeOk(r: Registry) {
    && |ActiveKeys(r)| <= MAX_VALIDATORS
    && forall k :: k in r && r[k].status == Active ==> r[k].bond >= MIN_BOND_SATS
  }

  lemma SubsetSize<T>(a: set<T>, b: set<T>)
    requires a <= b
    ensures |a| <= |b|
  {
    assert b == a + (b - a);
  }

  lemma StepCommittee(r: Registry, op: Op)
    requires CommitteeOk(r)
    ensures CommitteeOk(After(r, op))
  {
    var s := After(r, op);
    if op.Register? {
      if RegisterCheck(r, op.bond).Ok? {
        assert ActiveKeys(s) == ActiveKeys(r) + {op.key};
      }
    } else {
      assert ActiveKeys(s) <= ActiveKeys(r);
      SubsetSize(ActiveKeys(s), ActiveKeys(r));
    }
  }

  /** In every reachable registry the active validators are the eligible ones. */
  lemma {:induction false} EveryRunCommittee(ops: seq<Op>)
    ensures CommitteeOk(Replay(ops))
    ensures ActiveKeys(Replay(ops)) == EligibleKeys(Replay(ops))
  {
    if ops != [] {
      EveryRunCommittee(ops[..|ops| - 1]);
      StepCommittee(Replay(ops[..|ops| - 1]), ops[|ops| - 1]);
    }
  }

  // ----- leaving -----------------------------------------------------------

  /** `at` is the most recent unbonding request of `k`. */
  ghost predicate LatestUnbond(ops: seq<Op>, k: PubKey, at: nat) {
    && at < |ops|
    && ops[at].Unbond? && ops[at].key == k
    && forall i :: at < i < |ops| ==> !(ops[i].Unbond? && ops[i].key == k)
  }

  /** An unbonding status records the height of the latest request. */
  lemma {:induction false} UnbondingSince(ops: seq<Op>, k: PubKey) returns (at: nat)
    requires k in Replay(ops) && Replay(ops)[k].status.Unbonding?
    ensures LatestUnbond(ops, k, at) && ops[at].height == Replay(ops)[k].status.initiatedAt
  {
    var n := |ops| - 1;
    var r, op := Replay(ops[..n]), ops[n];
    if op.Unbond? && op.key == k {
      at := n;
    } else {
      StatusKept(r, op, k);
      at := UnbondingSince(ops[..n], k);
      assert ops[..n][at] == ops[at];
      assert forall i :: at < i < n ==> ops[..n][i] == ops[i];
    }
  }

  lemma StatusKept(r: Registry, op: Op, k: PubKey)
    requires k in After(r, op) && After(r, op)[k].status.Unbonding? && !(op.Unbond? && op.key == k)
    ensures k in r && r[k].status == After(r, op)[k].status
  {
  }

  /** A bond is only ever paid out at least 2016 blocks after the latest
      unbonding request of its validator. */
  lemma ExitDelay(ops: seq<Op>, k: PubKey, height: nat) returns (at: nat)
    requires ExitCheck(Replay(ops), k, height).Ok?
    ensures LatestUnbond(ops, k, at) && height >= ops[at].height + UNBONDING_DELAY_BLOCKS
    ensures ExitCheck(Replay(ops), k, height).value == BondAt(Replay(ops), k)
  {
    at := UnbondingSince(ops, k);
  }

  predicate Rebonds(op: Op, k: PubKey) {
    op.Register? && op.key == k
  }

  /** Until a new bond is registered, a validator that has left is paid nothing
      more, however often it unbonds and exits again. */
  lemma {:induction false} PaidOnce(ops: seq<Op>, k: PubKey, height: nat, later: seq<Op>)
    requires ExitCheck(Replay(ops), k, height).Ok?
    requires forall i :: 0 <= i < |later| ==> !Rebonds(later[i], k)
    ensures BondAt(Replay(ops + [Exit(k, height)] + later), k) == 0
  {
    var done := ops + [Exit(k, height)];
    if later == [] {
      assert done + later == done && done[..|done| - 1] == ops;
    } else {
      var n := |later| - 1;
      PaidOnce(ops, k, height, later[..n]);
      var all := done + later;
      assert all[..|all| - 1] == done + later[..n] && all[|all| - 1] == later[n];
      BondStaysZero(Replay(done + later[..n]), later[n], k);
    }
  }

  lemma BondStaysZero(r: Registry, op: Op, k: PubKey)
    requires BondAt(r, k) == 0 && !Rebonds(op, k)
    ensures BondAt(After(r, op), k) == 0
  {
  }
}
