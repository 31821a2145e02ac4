/** The validator registry of src/staking/validator.rs: bonding, unbonding,
    slashing and bond-weighted rewards. */
module Validators {
  import opened Arith
  import opened Bytes
  import opened MapSum
  import opened Wrappers

  const MIN_BOND_SATS: nat := 10_000_000
  const MAX_VALIDATORS: nat := 100
  const UNBONDING_DELAY_BLOCKS: nat := 2016

  type PubKey = Bytes32

  datatype Status = Active | Unbonding(initiatedAt: nat) | Slashed | Exited

  datatype Validator = Validator(
    bond: nat,
    pendingRewards: nat,
    lifetimeRewards: nat,
    status: Status,
    registeredAt: nat
  )

  type Registry = map<PubKey, Validator>

  datatype RegistryError =
    | BondTooSmall(minimum: nat, got: nat)
    | UnknownValidator(pubkey: PubKey)
    | TimelockNotExpired(current: nat, unlock: nat)

  predicate IsEligible(v: Validator) {
    v.status == Active && v.bond >= MIN_BOND_SATS
  }

  function ActiveKeys(r: Registry): set<PubKey> {
    set k | k in r && r[k].status == Active
  }

  function EligibleKeys(r: Registry): set<PubKey> {
    set k | k in r && IsEligible(r[k])
  }

  /** The bonds that weigh in a distribution. */
  function EligibleBonds(r: Registry): map<PubKey, nat> {
    map k | k in r && IsEligible(r[k]) :: r[k].bond
  }

  /** The bond of every active validator with at least 0.1 BTC bonded. */
  ghost predicate AllWeights(r: Registry, weights: map<PubKey, nat>) {
    && (forall k :: k in weights <==> k in r && r[k].status == Active && r[k].bond >= 10_000_000)
    && (forall k :: k in weights ==> weights[k] == r[k].bond)
  }

  // ----- operations on values ----------------------------------------------

  function Slash(v: Validator, amount: nat): Validator {
    var bond: nat := if amount <= v.bond then v.bond - amount else 0;
    if bond < MIN_BOND_SATS then v.(bond := bond, status := Slashed) else v.(bond := bond)
  }

  function RegisterCheck(r: Registry, bond: nat): Result<nat, RegistryError> {
    if bond < MIN_BOND_SATS then Err(BondTooSmall(MIN_BOND_SATS, bond))
    else if |ActiveKeys(r)| >= MAX_VALIDATORS then Err(BondTooSmall(MIN_BOND_SATS, 0))
    else Ok(0)
  }

  function ExitCheck(r: Registry, k: PubKey, height: nat): Result<nat, RegistryError> {
    if k !in r then Err(UnknownValidator(k))
    else if !r[k].status.Unbonding? then Err(TimelockNotExpired(height, 0))
    else
      var unlock := r[k].status.initiatedAt + UNBONDING_DELAY_BLOCKS;
      if height < unlock then Err(TimelockNotExpired(height, unlock)) else Ok(r[k].bond)
  }

  function Share(reward: nat, bond: nat, total: nat): nat
    requires total > 0
  {
    reward * bond / total
  }

  /** What each eligible validator is credited. */
  function Shares(r: Registry, reward: nat, total: nat): map<PubKey, nat>
    requires total > 0
  {
    map k | k in r && IsEligible(r[k]) :: Share(reward, r[k].bond, total)
  }

  function Credit(v: Validator, share: nat): Validator {
    v.(pendingRewards := v.pendingRewards + share, lifetimeRewards := v.lifetimeRewards + share)
  }

  ghost function TotalBond(r: Registry): nat {
    Sum(EligibleBonds(r))
  }

  ghost function Distributed(r: Registry, reward: nat): Registry {
    var total := TotalBond(r);
    if total == 0 then r
    else map k | k in r :: if IsEligible(r[k]) then Credit(r[k], Share(reward, r[k].bond, total)) else r[k]
  }

  /** All that one distribution credits. */
  ghost function Credited(r: Registry, reward: nat): nat {
    var total := TotalBond(r);
    if total == 0 then 0 else Sum(Shares(r, reward, total))
  }

  /** What a distribution of `reward` over a total bond does to one validator:
      active with the minimum bond, it is credited its floored share, once as
      pending and once for life; otherwise it is left alone. */
  ghost predicate Shared(v: Validator, after: Validator, reward: nat, total: nat) {
    if v.status == Active && v.bond >= 10_000_000 && total > 0 then
      var share := after.pendingRewards - v.pendingRewards;
      && share >= 0
      && share * total <= reward * v.bond < (share + 1) * total
      && after == v.(pendingRewards := v.pendingRewards + share, lifetimeRewards := v.lifetimeRewards + share)
    else after == v
  }

  lemma SharesExact(r: Registry, reward: nat)
    ensures Distributed(r, reward).Keys == r.Keys
    ensures forall k :: k in r ==> Shared(r[k], Distributed(r, reward)[k], reward, TotalBond(r))
  {
    var total := TotalBond(r);
    forall k | k in r
      ensures Shared(r[k], Distributed(r, reward)[k], reward, total)
    {
      if total > 0 {
        ShareExact(r[k], reward, total);
      }
    }
  }

  lemma ShareExact(v: Validator, reward: nat, total: nat)
    requires total > 0
    ensures Shared(v, if IsEligible(v) then Credit(v, Share(reward, v.bond, total)) else v, reward, total)
  {
    DivBounds(reward * v.bond, total);
    MulSucc(Share(reward, v.bond, total), total);
  }

  // ----- one operation of a history ----------------------------------------

  datatype Op =
    | Register(key: PubKey, bond: nat, height: nat)
    | SlashBy(key: PubKey, amount: nat)
    | Unbond(key: PubKey, height: nat)
    | Exit(key: PubKey, height: nat)
    | Remove(key: PubKey)
    | Distribute(reward: nat)
    | Claim(key: PubKey)

  /** The registry after an operation. */
  ghost function After(r: Registry, op: Op): Registry {
    match op
    case Register(k, bond, height) =>
      if RegisterCheck(r, bond).Err? then r else r[k := Validator(bond, 0, 0, Active, height)]
    case SlashBy(k, amount) => if k !in r then r else r[k := Slash(r[k], amount)]
    case Unbond(k, height) => if k !in r then r else r[k := r[k].(status := Unbonding(height))]
    case Exit(k, height) => if ExitCheck(r, k, height).Err? then r else r[k := r[k].(status := Exited, bond := 0)]
    case Remove(k) => r - {k}
    case Distribute(reward) => Distributed(r, reward)
    case Claim(k) => if k !in r then r else r[k := r[k].(pendingRewards := 0)]
  }

  // ----- the object --------------------------------------------------------

  class ValidatorRegistry {
    var validators: Registry

    constructor ()
      ensures validators == map[]
    {
      validators := map[];
    }

    method Register(pubkey: PubKey, bond: nat, currentHeight: nat) returns (r: Result<nat, RegistryError>)
      modifies this
      ensures r == if bond < 10_000_000 then Err(BondTooSmall(10_000_000, bond))
                   else if |set k | k in old(validators) && old(validators)[k].status == Active| >= 100
                   then Err(BondTooSmall(10_000_000, 0))
                   else Ok(0)
      ensures validators == if r.Err? then old(validators)
                            else old(validators)[pubkey := Validator(bond, 0, 0, Active, currentHeight)]
      ensures validators == After(old(validators), Op.Register(pubkey, bond, currentHeight))
    {
      assert ActiveKeys(validators) == set k | k in validators && validators[k].status == Active;
      if bond < MIN_BOND_SATS {
        return Err(BondTooSmall(MIN_BOND_SATS, bond));
      }
      if |ActiveKeys(validators)| >= MAX_VALIDATORS {
        return Err(BondTooSmall(MIN_BOND_SATS, 0));
      }
      validators := validators[pubkey := Validator(bond, 0, 0, Active, currentHeight)];
      r := Ok(0);
    }

    /** `get_mut` followed by `apply_slash`. */
    method ApplySlash(pubkey: PubKey, amount: nat) returns (r: Result<nat, RegistryError>)
      modifies this
      ensures pubkey !in old(validators) ==> r == Err(UnknownValidator(pubkey)) && validators == old(validators)
      ensures pubkey in old(validators) ==>
                var v := old(validators)[pubkey];
                var left := if amount < v.bond then v.bond - amount else 0;
                && r == Ok(0)
                && validators == old(validators)[pubkey := v.(bond := left,
                                                              status := if left < 10_000_000 then Slashed else v.status)]
      ensures validators == After(old(validators), SlashBy(pubkey, amount))
    {
      if pubkey !in validators {
        return Err(UnknownValidator(pubkey));
      }
      var v := validators[pubkey];
      var newBond := if amount <= v.bond then v.bond - amount else 0;
      v := v.(bond := newBond);
      if newBond < MIN_BOND_SATS {
        v := v.(status := Slashed);
      }
      validators := validators[pubkey := v];
      r := Ok(0);
    }

    /** Adds up the weights in an arbitrary order. */
    method TotalEligibleBond() returns (total: nat)
      ensures total == TotalBond(validators)
      ensures exists weights: map<PubKey, nat> :: AllWeights(validators, weights) && total == Sum(weights)
    {
      total := 0;
      var todo := EligibleKeys(validators);
      ghost var added: map<PubKey, nat> := map[];
      while todo != {}
        invariant todo <= EligibleKeys(validators)
        invariant added == map k | k in EligibleKeys(validators) && k !in todo :: validators[k].bond
        invariant total == Sum(added)
        decreases todo
      {
        var k :| k in todo;
        SumUpdate(added, k, validators[k].bond);
        added := added[k := validators[k].bond];
        total := total + validators[k].bond;
        todo := todo - {k};
      }
      assert added == EligibleBonds(validators);
      assert AllWeights(validators, added);
    }

    /** Credits validators in an arbitrary order; the outcome depends only on
        the registry, so the order of a hash map cannot show. */
    method DistributeRewards(epochReward: nat) returns (distributed: nat)
      modifies this
      ensures validators == Distributed(old(validators), epochReward)
      ensures distributed == Credited(old(validators), epochReward)
      ensures validators.Keys == old(validators).Keys
      ensures forall k :: k in validators ==>
                Shared(old(validators)[k], validators[k], epochReward, TotalBond(old(validators)))
      ensures validators == After(old(validators), Distribute(epochReward))
    {
      hide Share;
      ghost var before := validators;
      var totalBond := TotalEligibleBond();
      if totalBond == 0 {
        return 0;
      }
      distributed := CreditAll(epochReward, totalBond);
      SharesExact(before, epochReward);
    }

    method CreditAll(epochReward: nat, totalBond: nat) returns (distributed: nat)
      requires totalBond > 0
      modifies this
      ensures validators == map k | k in old(validators) ::
                              if IsEligible(old(validators)[k])
                              then Credit(old(validators)[k], Share(epochReward, old(validators)[k].bond, totalBond))
                              else old(validators)[k]
      ensures distributed == Sum(Shares(old(validators), epochReward, totalBond))
    {
      hide Share;
      ghost var before := validators;
      ghost var paid: map<PubKey, nat> := map[];
      distributed := 0;
      var todo := EligibleKeys(validators);
      while todo != {}
        invariant todo <= EligibleKeys(before) && validators.Keys == before.Keys
        invariant forall k :: k in before ==>
          validators[k] == if IsEligible(before[k]) && k !in todo
                           then Credit(before[k], Share(epochReward, before[k].bond, totalBond)) else before[k]
        invariant paid == map k | k in EligibleKeys(before) && k !in todo :: Share(epochReward, before[k].bond, totalBond)
        invariant distributed == Sum(paid)
        decreases todo
      {
        var k :| k in todo;
        var v := validators[k];
        var share := Share(epochReward, v.bond, totalBond);
        validators := validators[k := Credit(v, share)];
        SumUpdate(paid, k, share);
        paid := paid[k := share];
        distributed := distributed + share;
        todo := todo - {k};
      }
      assert paid == Shares(before, epochReward, totalBond);
    }

    method ClaimRewards(pubkey: PubKey) returns (r: Result<nat, RegistryError>)
      modifies this
      ensures pubkey !in old(validators) ==> r == Err(UnknownValidator(pubkey)) && validators == old(validators)
      ensures pubkey in old(validators) ==>
                && r == Ok(old(validators)[pubkey].pendingRewards)
                && validators == old(validators)[pubkey := old(validators)[pubkey].(pendingRewards := 0)]
      ensures validators == After(old(validators), Claim(pubkey))
    {
      if pubkey !in validators {
        return Err(UnknownValidator(pubkey));
      }
      var v := validators[pubkey];
      validators := validators[pubkey := v.(pendingRewards := 0)];
      r := Ok(v.pendingRewards);
    }

    method InitiateUnbonding(pubkey: PubKey, currentHeight: nat) returns (r: Result<nat, RegistryError>)
      modifies this
      ensures pubkey !in old(validators) ==> r == Err(UnknownValidator(pubkey)) && validators == old(validators)
      ensures pubkey in old(validators) ==>
                && r == Ok(currentHeight + 2016)
                && validators == old(validators)[pubkey := old(validators)[pubkey].(status := Unbonding(currentHeight))]
      ensures validators == After(old(validators), Unbond(pubkey, currentHeight))
    {
      if pubkey !in validators {
        return Err(UnknownValidator(pubkey));
      }
      validators := validators[pubkey := validators[pubkey].(status := Unbonding(currentHeight))];
      r := Ok(currentHeight + UNBONDING_DELAY_BLOCKS);
    }

    method CompleteExit(pubkey: PubKey, currentHeight: nat) returns (r: Result<nat, RegistryError>)
      modifies this
      ensures r == if pubkey !in old(validators) then Err(UnknownValidator(pubkey))
                   else match old(validators)[pubkey].status
                        case Unbonding(start) =>
                          if currentHeight < start + 2016 then Err(TimelockNotExpired(currentHeight, start + 2016))
                          else Ok(old(validators)[pubkey].bond)
                        case _ => Err(TimelockNotExpired(currentHeight, 0))
      ensures validators == if r.Err? then old(validators)
                            else old(validators)[pubkey := old(validators)[pubkey].(status := Exited, bond := 0)]
      ensures validators == After(old(validators), Exit(pubkey, currentHeight))
    {
      if pubkey !in validators {
        return Err(UnknownValidator(pubkey));
      }
      var v := validators[pubkey];
      if !v.status.Unbonding? {
        return Err(TimelockNotExpired(currentHeight, 0));
      }
      var unlockHeight := v.status.initiatedAt + UNBONDING_DELAY_BLOCKS;
      if currentHeight < unlockHeight {
        return Err(TimelockNotExpired(currentHeight, unlockHeight));
      }
      validators := validators[pubkey := v.(status := Exited, bond := 0)];
      r := Ok(v.bond);
    }

    method RemoveValidator(pubkey: PubKey) returns (r: Result<Validator, RegistryError>)
      modifies this
      ensures pubkey !in old(validators) ==> r == Err(UnknownValidator(pubkey)) && validators == old(validators)
      ensures pubkey in old(validators) ==>
                r == Ok(old(validators)[pubkey]) && validators == old(validators) - {pubkey}
      ensures validators == After(old(validators), Remove(pubkey))
    {
      if pubkey !in validators {
        return Err(UnknownValidator(pubkey));
      }
      r := Ok(validators[pubkey]);
      validators := validators - {pubkey};
    }
  }
}
