/** Fairness and bounds of the bond-weighted reward distribution, and the epoch
    counter of src/staking/daemon.rs that triggers it. */
module Rewards {
  import opened Arith
  import opened MapSum
  import opened Validators
  import RegistryRuns

  // ----- one distribution --------------------------------------------------

  /** What `n` floored shares miss of their exact total, scaled by it. */
  ghost predicate FloorBound(paid: int, bonds: int, n: int, reward: int, total: int) {
    paid * total <= reward * bonds <= paid * total + n * (total - 1)
  }

  lemma EmptySum(m: map<PubKey, nat>)
    ensures |m| == 0 ==> Sum(m) == 0
  {
  }

  lemma {:induction false} FlooredShares(bonds: map<PubKey, nat>, shares: map<PubKey, nat>, reward: nat, total: nat)
    requires total > 0 && shares.Keys == bonds.Keys
    requires forall k :: k in bonds ==> shares[k] == Share(reward, bonds[k], total)
    ensures FloorBound(Sum(shares), Sum(bonds), |bonds|, reward, total)
    decreases |bonds|
  {
    hide Share, Sum;
    if |bonds| == 0 {
      assert shares == bonds == map[];
      EmptySum(bonds);
    } else {
      hide FloorBound;
      var k :| k in bonds;
      SumRemove(bonds, k);
      SumRemove(shares, k);
      FlooredShares(bonds - {k}, shares - {k}, reward, total);
      assert |bonds - {k}| == |bonds| - 1;
      OneMoreShare(reward, total, bonds[k], Sum(bonds - {k}), Sum(shares - {k}), |bonds| - 1);
    }
  }

  lemma OneMoreShare(reward: nat, total: nat, bond: nat, bonds: nat, paid: nat, n: nat)
    requires total > 0 && FloorBound(paid, bonds, n, reward, total)
    ensures FloorBound(Share(reward, bond, total) + paid, bond + bonds, n + 1, reward, total)
  {
    DivBounds(reward * bond, total);
    var share := reward * bond / total;
    assert (share + paid) * total == share * total + paid * total;
    assert reward * (bond + bonds) == reward * bond + reward * bonds;
    assert (n + 1) * (total - 1) == n * (total - 1) + (total - 1);
  }

  /** A distribution never credits more than the reward, and loses less than
      one satoshi per eligible validator to rounding. */
  lemma DistributionBounds(r: Registry, reward: nat)
    ensures Credited(r, reward) <= reward
    ensures TotalBond(r) > 0 ==> reward < Credited(r, reward) + |EligibleKeys(r)|
  {
    var total := TotalBond(r);
    if total > 0 {
      var shares, n := Shares(r, reward, total), |EligibleBonds(r)|;
      FlooredShares(EligibleBonds(r), shares, reward, total);
      assert EligibleBonds(r).Keys == EligibleKeys(r);
      EmptySum(EligibleBonds(r));
      WithinCount(Sum(shares), reward, total, n);
    }
  }

  lemma WithinCount(paid: nat, reward: nat, total: nat, n: nat)
    requires total > 0 && n > 0
    requires paid * total <= reward * total <= paid * total + n * (total - 1)
    ensures paid <= reward < paid + n
  {
    MulCancel(paid, reward, total);
    assert n * (total - 1) == n * total - n;
    assert (paid + n) * total == paid * total + n * total;
    if reward >= paid + n {
      MulMonotone(paid + n, reward, total);
    }
  }

  /** In one distribution a larger bond never earns less. */
  lemma LargerBondEarnsMore(r: Registry, reward: nat, j: PubKey, k: PubKey)
    requires j in r && k in r && IsEligible(r[j]) && IsEligible(r[k]) && r[j].bond <= r[k].bond
    ensures Distributed(r, reward)[j].pendingRewards - r[j].pendingRewards
         <= Distributed(r, reward)[k].pendingRewards - r[k].pendingRewards
  {
    var total := TotalBond(r);
    if total > 0 {
      MulMonotone(r[j].bond, r[k].bond, reward);
      DivMonotone(reward * r[j].bond, reward * r[k].bond, total);
    }
  }

  /** One validator holding both bonds. */
  function Merged(r: Registry, j: PubKey, k: PubKey): Registry
    requires j in r && k in r
  {
    (r - {k})[j := r[j].(bond := r[j].bond + r[k].bond)]
  }

  /** Splitting a bond over two validators never earns more than holding it in
      one, and costs at most one satoshi. */
  lemma SplittingNeverPays(r: Registry, reward: nat, j: PubKey, k: PubKey)
    requires j in r && k in r && j != k && IsEligible(r[j]) && IsEligible(r[k])
    ensures var m := Merged(r, j, k);
            && TotalBond(m) == TotalBond(r) > 0
            && Share(reward, r[j].bond, TotalBond(r)) + Share(reward, r[k].bond, TotalBond(r))
            <= Share(reward, m[j].bond, TotalBond(m))
            <= Share(reward, r[j].bond, TotalBond(r)) + Share(reward, r[k].bond, TotalBond(r)) + 1
  {
    hide Share;
    var m, b := Merged(r, j, k), EligibleBonds(r);
    SumRemove(b, k);
    SumUpdate(b - {k}, j, r[j].bond + r[k].bond);
    SumAt(b, j);
    assert EligibleBonds(m) == (b - {k})[j := r[j].bond + r[k].bond];
    SplitShare(reward, r[j].bond, r[k].bond, TotalBond(r));
  }

  lemma SplitShare(reward: nat, b: nat, b': nat, total: nat)
    requires total > 0
    ensures Share(reward, b, total) + Share(reward, b', total)
         <= Share(reward, b + b', total)
         <= Share(reward, b, total) + Share(reward, b', total) + 1
  {
    assert reward * (b + b') == reward * b + reward * b';
    FloorAdd(reward * b, reward * b', total);
  }

  // ----- epochs ------------------------------------------------------------

  const U64_MAX: nat := 0xffff_ffff_ffff_ffff

  function SaturatingMul(a: nat, b: nat): nat {
    if a * b > U64_MAX then U64_MAX else a * b
  }

  datatype Config = Config(epochBlocks: nat, epochReward: nat)

  predicate Due(c: Config, last: nat, height: nat) {
    SaturatingSub(height, last) >= c.epochBlocks
  }

  /** The reward for all epochs completed since `last`. */
  function RewardDue(c: Config, last: nat, height: nat): nat
    requires c.epochBlocks > 0
  {
    SaturatingMul(c.epochReward, SaturatingSub(height, last) / c.epochBlocks)
  }

  /** All that validators have been credited and not claimed. */
  ghost function Pending(r: Registry): nat {
    Sum(RegistryRuns.Pendings(r))
  }

  /** Between two registries the reward of all full epochs in `blocks`, capped at
      64 bits, was paid out, less than one satoshi per eligible validator short. */
  ghost predicate PaidFor(c: Config, blocks: nat, before: Registry, after: Registry)
    requires c.epochBlocks > 0
  {
    var exact := c.epochReward * (blocks / c.epochBlocks);
    var reward := if exact <= 0xffff_ffff_ffff_ffff then exact else 0xffff_ffff_ffff_ffff;
    Pending(after) <= Pending(before) + reward < Pending(after) + |EligibleKeys(before)|
  }

  lemma DistributionPaysFor(c: Config, last: nat, height: nat, r: Registry)
    requires c.epochBlocks > 0 && height >= last + c.epochBlocks && TotalBond(r) > 0
    ensures PaidFor(c, height - last, r, Distributed(r, RewardDue(c, last, height)))
  {
    hide Distributed, Credited, TotalBond;
    DistributionBounds(r, RewardDue(c, last, height));
    RegistryRuns.DistributionAdds(r, RewardDue(c, last, height));
  }

  class ValidatorDaemon {
    const config: Config
    const registry: ValidatorRegistry
    var lastRewardHeight: nat

    constructor (config: Config, registry: ValidatorRegistry, seed: nat)
      ensures this.config == config && this.registry == registry && lastRewardHeight == seed
    {
      this.config := config;
      this.registry := registry;
      lastRewardHeight := seed;
    }

    method MaybeDistribute(height: nat)
      requires config.epochBlocks > 0
      modifies this, registry
      ensures if Due(config, old(lastRewardHeight), height)
              then registry.validators == Distributed(old(registry.validators), RewardDue(config, old(lastRewardHeight), height))
                   && lastRewardHeight == height
              else registry.validators == old(registry.validators) && lastRewardHeight == old(lastRewardHeight)
      ensures lastRewardHeight == if height < old(lastRewardHeight) + config.epochBlocks
                                  then old(lastRewardHeight) else height
      ensures height < old(lastRewardHeight) + config.epochBlocks ==> registry.validators == old(registry.validators)
      ensures height >= old(lastRewardHeight) + config.epochBlocks && TotalBond(old(registry.validators)) > 0 ==>
                PaidFor(config, height - old(lastRewardHeight), old(registry.validators), registry.validators)
    {
      hide Distributed, PaidFor;
      if height >= lastRewardHeight + config.epochBlocks && TotalBond(registry.validators) > 0 {
        DistributionPaysFor(config, lastRewardHeight, height, registry.validators);
      }
      var elapsed := SaturatingSub(height, lastRewardHeight);
      if elapsed < config.epochBlocks {
        return;
      }
      var epochs := elapsed / config.epochBlocks;
      var totalReward := SaturatingMul(config.epochReward, epochs);
      var _ := registry.DistributeRewards(totalReward);
      lastRewardHeight := height;
    }
  }

  /** A poll: the height the node reported and the registry at that moment,
      which others may have changed since the previous poll. */
  datatype Poll = Poll(height: nat, registry: Registry)

  function LastAfter(c: Config, last: nat, polls: seq<Poll>): nat {
    if polls == [] then last
    else
      var n := |polls| - 1;
      var l := LastAfter(c, last, polls[..n]);
      if Due(c, l, polls[n].height) then polls[n].height else l
  }

  ghost function LifetimeCredits(c: Config, last: nat, polls: seq<Poll>): nat
    requires c.epochBlocks > 0
  {
    if polls == [] then 0
    else
      var n := |polls| - 1;
      var l := LastAfter(c, last, polls[..n]);
      LifetimeCredits(c, last, polls[..n])
      + if Due(c, l, polls[n].height) then Credited(polls[n].registry, RewardDue(c, l, polls[n].height)) else 0
  }

  /** Whatever heights are polled and however the registry changes, the daemon
      never pays for more epochs than have passed since it was seeded. */
  lemma {:induction false} NeverOverpays(c: Config, seed: nat, polls: seq<Poll>)
    requires c.epochBlocks > 0
    ensures LastAfter(c, seed, polls) >= seed
    ensures LifetimeCredits(c, seed, polls) <= c.epochReward * ((LastAfter(c, seed, polls) - seed) / c.epochBlocks)
  {
    if polls == [] {
      DivUnique(0, c.epochBlocks, 0);
    } else {
      hide Credited, RewardDue;
      var n := |polls| - 1;
      var l, p := LastAfter(c, seed, polls[..n]), polls[n];
      NeverOverpays(c, seed, polls[..n]);
      if Due(c, l, p.height) {
        var reward, a, b := RewardDue(c, l, p.height), (l - seed) / c.epochBlocks, (p.height - l) / c.epochBlocks;
        DistributionBounds(p.registry, reward);
        DueBound(c, l, p.height);
        FloorAdd(l - seed, p.height - l, c.epochBlocks);
        EpochSum(c.epochReward, a, b, (p.height - seed) / c.epochBlocks,
                 LifetimeCredits(c, seed, polls[..n]), Credited(p.registry, reward));
      }
    }
  }

  lemma DueBound(c: Config, last: nat, height: nat)
    requires c.epochBlocks > 0 && Due(c, last, height)
    ensures height >= last && RewardDue(c, last, height) <= c.epochReward * ((height - last) / c.epochBlocks)
  {
  }

  lemma EpochSum(reward: nat, a: int, b: int, whole: int, before: nat, credit: nat)
    requires a + b <= whole && before <= reward * a && credit <= reward * b
    ensures before + credit <= reward * whole
  {
    assert reward * (a + b) == reward * a + reward * b;
    MulMonotone(a + b, whole, reward);
  }

  /** The last settled height is one that was polled, or the seed. */
  lemma {:induction false} LastIsPolled(c: Config, seed: nat, polls: seq<Poll>, top: nat)
    requires seed <= top && forall i :: 0 <= i < |polls| ==> polls[i].height <= top
    ensures LastAfter(c, seed, polls) <= top
  {
    if polls != [] {
      LastIsPolled(c, seed, polls[..|polls| - 1], top);
    }
  }

  /** Lifetime credits against the highest height ever reported. */
  lemma LifetimeBound(c: Config, seed: nat, polls: seq<Poll>, top: nat)
    requires c.epochBlocks > 0 && seed <= top
    requires forall i :: 0 <= i < |polls| ==> polls[i].height <= top
    ensures LifetimeCredits(c, seed, polls) <= c.epochReward * ((top - seed) / c.epochBlocks)
  {
    NeverOverpays(c, seed, polls);
    LastIsPolled(c, seed, polls, top);
    var l := LastAfter(c, seed, polls);
    DivMonotone(l - seed, top - seed, c.epochBlocks);
    MulMonotone((l - seed) / c.epochBlocks, (top - seed) / c.epochBlocks, c.epochReward);
  }

  // ----- the same from below -----------------------------------------------

  /** Every settlement finds an eligible bond, and a reward that fits 64 bits. */
  ghost predicate Payable(c: Config, last: nat, polls: seq<Poll>)
    requires c.epochBlocks > 0
  {
    forall i :: 0 <= i < |polls| ==> PollPayable(c, LastAfter(c, last, polls[..i]), polls[i])
  }

  ghost predicate PollPayable(c: Config, last: nat, poll: Poll)
    requires c.epochBlocks > 0
  {
    poll.height >= last + c.epochBlocks ==>
      && TotalBond(poll.registry) > 0
      && c.epochReward * ((poll.height - last) / c.epochBlocks) <= 0xffff_ffff_ffff_ffff
  }

  /** How often the daemon has settled. */
  function Settlements(c: Config, last: nat, polls: seq<Poll>): nat {
    if polls == [] then 0
    else
      var n := |polls| - 1;
      Settlements(c, last, polls[..n])
      + if polls[n].height >= LastAfter(c, last, polls[..n]) + c.epochBlocks then 1 else 0
  }

  /** A satoshi for each eligible validator but one at each settlement. */
  function Dust(c: Config, last: nat, polls: seq<Poll>): nat {
    if polls == [] then 0
    else
      var n := |polls| - 1;
      var eligible := |EligibleKeys(polls[n].registry)|;
      Dust(c, last, polls[..n])
      + if polls[n].height >= LastAfter(c, last, polls[..n]) + c.epochBlocks && eligible > 0 then eligible - 1 else 0
  }

  /** Per block the daemon pays the epoch reward over the epoch length: short of
      that are only the dust of each settlement and the blocks of the epoch that
      was unfinished at it, fewer than an epoch's. */
  ghost predicate PaidInFull(c: Config, blocks: int, settlements: int, credits: int, dust: int) {
    c.epochReward * blocks <= c.epochBlocks * (credits + dust) + c.epochReward * (settlements * (c.epochBlocks - 1))
  }

  lemma {:induction false} NeverUnderpays(c: Config, seed: nat, polls: seq<Poll>)
    requires c.epochBlocks > 0 && Payable(c, seed, polls)
    ensures PaidInFull(c, LastAfter(c, seed, polls) - seed, Settlements(c, seed, polls),
                       LifetimeCredits(c, seed, polls), Dust(c, seed, polls))
  {
    if polls == [] {
      NothingPaid(c);
    } else {
      hide LastAfter, Settlements, LifetimeCredits, Dust, Credited, RewardDue, PaidInFull, TotalBond, Payable, PollPayable;
      var earlier, p := polls[..|polls| - 1], polls[|polls| - 1];
      var l := LastAfter(c, seed, earlier);
      PayableEarlier(c, seed, polls);
      NeverUnderpays(c, seed, earlier);
      LastPoll(c, seed, polls);
      if Due(c, l, p.height) {
        SettlementPays(c, l, p);
        OneMoreSettlement(c, l - seed, p.height - l, Settlements(c, seed, earlier),
                          LifetimeCredits(c, seed, earlier), Credited(p.registry, RewardDue(c, l, p.height)),
                          Dust(c, seed, earlier), |EligibleKeys(p.registry)| - 1);
      }
    }
  }

  lemma PayableEarlier(c: Config, seed: nat, polls: seq<Poll>)
    requires c.epochBlocks > 0 && Payable(c, seed, polls) && polls != []
    ensures Payable(c, seed, polls[..|polls| - 1])
    ensures PollPayable(c, LastAfter(c, seed, polls[..|polls| - 1]), polls[|polls| - 1])
  {
    hide PollPayable, LastAfter;
    var n := |polls| - 1;
    forall i | 0 <= i < n
      ensures PollPayable(c, LastAfter(c, seed, polls[..n][..i]), polls[..n][i])
    {
      assert polls[..n][..i] == polls[..i];
    }
  }

  /** What the last poll adds. */
  lemma LastPoll(c: Config, seed: nat, polls: seq<Poll>)
    requires c.epochBlocks > 0 && polls != []
    ensures var earlier, p := polls[..|polls| - 1], polls[|polls| - 1];
            var l, eligible := LastAfter(c, seed, earlier), |EligibleKeys(p.registry)|;
            if Due(c, l, p.height) then
              && LastAfter(c, seed, polls) == p.height
              && Settlements(c, seed, polls) == Settlements(c, seed, earlier) + 1
              && LifetimeCredits(c, seed, polls)
                 == LifetimeCredits(c, seed, earlier) + Credited(p.registry, RewardDue(c, l, p.height))
              && (eligible > 0 ==> Dust(c, seed, polls) == Dust(c, seed, earlier) + eligible - 1)
            else
              && LastAfter(c, seed, polls) == l
              && Settlements(c, seed, polls) == Settlements(c, seed, earlier)
              && LifetimeCredits(c, seed, polls) == LifetimeCredits(c, seed, earlier)
              && Dust(c, seed, polls) == Dust(c, seed, earlier)
  {
    hide Credited, RewardDue;
  }

  lemma NothingPaid(c: Config)
    ensures PaidInFull(c, 0, 0, 0, 0)
  {
  }

  lemma SettlementPays(c: Config, last: nat, p: Poll)
    requires c.epochBlocks > 0 && PollPayable(c, last, p) && Due(c, last, p.height)
    ensures p.height >= last + c.epochBlocks && |EligibleKeys(p.registry)| > 0
    ensures c.epochReward * ((p.height - last) / c.epochBlocks)
         <= Credited(p.registry, RewardDue(c, last, p.height)) + |EligibleKeys(p.registry)| - 1
  {
    hide Credited, TotalBond;
    DistributionBounds(p.registry, RewardDue(c, last, p.height));
  }

  lemma OneMoreSettlement(c: Config, before: int, blocks: nat, settlements: int, credits: int, credit: int,
                          dust: int, loss: int)
    requires c.epochBlocks > 0 && PaidInFull(c, before, settlements, credits, dust)
    requires c.epochReward * (blocks / c.epochBlocks) <= credit + loss
    ensures PaidInFull(c, before + blocks, settlements + 1, credits + credit, dust + loss)
  {
    var r, e, f := c.epochReward, c.epochBlocks, blocks / c.epochBlocks;
    DivBounds(blocks, e);
    MulMonotone(blocks, f * e + (e - 1), r);
    MulMonotone(r * f, credit + loss, e);
    SettlementAlgebra(r, e, f, before, blocks, settlements, credits, credit, dust, loss);
  }

  lemma SettlementAlgebra(r: int, e: int, f: int, before: int, blocks: int, settlements: int, credits: int, credit: int,
                          dust: int, loss: int)
    requires r * before <= e * (credits + dust) + r * (settlements * (e - 1))
    requires r * blocks <= r * (f * e + (e - 1)) && e * (r * f) <= e * (credit + loss)
    ensures r * (before + blocks) <= e * (credits + credit + (dust + loss)) + r * ((settlements + 1) * (e - 1))
  {
    assert r * (before + blocks) == r * before + r * blocks;
    assert r * (f * e + (e - 1)) == e * (r * f) + r * (e - 1);
    assert e * (credits + credit + (dust + loss)) == e * (credits + dust) + e * (credit + loss);
    assert r * ((settlements + 1) * (e - 1)) == r * (settlements * (e - 1)) + r * (e - 1) by {
      assert (settlements + 1) * (e - 1) == settlements * (e - 1) + (e - 1);
    }
  }
}
