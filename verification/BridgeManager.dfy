/** Claims, disputes and finalisation in src/bridge/bitvm_bridge.rs. */
module BridgeManager {
  import opened Bytes
  import opened Bisection
  import opened Wrappers

  function NewClaim(outpoint: OutPoint, root: Bytes32, height: nat): OperatorClaim {
    OperatorClaim(outpoint, root, height, height + CHALLENGE_WINDOW_BLOCKS, false)
  }

  predicate CanFinalise(c: OperatorClaim, height: nat) {
    !c.finalised && height >= c.challengeDeadline
  }

  predicate OpenFor(c: OperatorClaim, outpoint: OutPoint) {
    c.depositOutpoint == outpoint && !c.finalised
  }

  // ----- finalisation on values --------------------------------------------

  function Finalised(c: OperatorClaim, height: nat): OperatorClaim {
    if CanFinalise(c, height) then c.(finalised := true) else c
  }

  function FinaliseAll(claims: seq<OperatorClaim>, height: nat): (r: seq<OperatorClaim>)
    ensures |r| == |claims|
    ensures forall i :: 0 <= i < |r| ==> r[i] == Finalised(claims[i], height)
  {
    seq(|claims|, i requires 0 <= i < |claims| => Finalised(claims[i], height))
  }

  /** The outpoints reported, in claim order. */
  function Reported(claims: seq<OperatorClaim>, height: nat): seq<OutPoint> {
    if claims == [] then []
    else
      var n := |claims| - 1;
      Reported(claims[..n], height) + (if CanFinalise(claims[n], height) then [claims[n].depositOutpoint] else [])
  }

  /** The claims at these indices, in order, are those that can be finalised, and
      their outpoints are what is reported. */
  ghost predicate ReportedFrom(claims: seq<OperatorClaim>, height: nat, reported: seq<OutPoint>, at: seq<nat>) {
    && |at| == |reported|
    && (forall j :: 0 <= j < |at| ==> at[j] < |claims| && reported[j] == claims[at[j]].depositOutpoint)
    && (forall j, k :: 0 <= j < k < |at| ==> at[j] < at[k])
    && (forall i: nat :: i in at <==> i < |claims| && !claims[i].finalised && height >= claims[i].challengeDeadline)
  }

  /** One report for every open claim past its deadline, in claim order. */
  lemma {:induction false} ReportedInOrder(claims: seq<OperatorClaim>, height: nat) returns (at: seq<nat>)
    ensures ReportedFrom(claims, height, Reported(claims, height), at)
  {
    if claims == [] {
      at := [];
    } else {
      hide ReportedFrom;
      var n := |claims| - 1;
      at := ReportedInOrder(claims[..n], height);
      assert claims[..n] + [claims[n]] == claims;
      OneMoreClaim(claims[..n], claims[n], height, Reported(claims[..n], height), at);
      if CanFinalise(claims[n], height) {
        at := at + [n];
      } else {
        assert Reported(claims[..n], height) + [] == Reported(claims[..n], height);
      }
    }
  }

  lemma OneMoreClaim(claims: seq<OperatorClaim>, c: OperatorClaim, height: nat, reported: seq<OutPoint>, at: seq<nat>)
    requires ReportedFrom(claims, height, reported, at)
    ensures if CanFinalise(c, height)
            then ReportedFrom(claims + [c], height, reported + [c.depositOutpoint], at + [|claims|])
            else ReportedFrom(claims + [c], height, reported, at)
  {
    var all := claims + [c];
    assert forall j :: 0 <= j < |claims| ==> all[j] == claims[j];
    assert forall j :: 0 <= j < |at| ==> at[j] in at;
  }

  /** The index of the most recent open claim, or -1. */
  function LastOpen(claims: seq<OperatorClaim>, outpoint: OutPoint): (i: int)
    ensures -1 <= i < |claims|
    ensures i >= 0 ==> OpenFor(claims[i], outpoint)
    ensures forall j :: i < j < |claims| ==> !OpenFor(claims[j], outpoint)
  {
    if claims == [] then -1
    else if OpenFor(claims[|claims| - 1], outpoint) then |claims| - 1
    else LastOpen(claims[..|claims| - 1], outpoint)
  }

  // ----- events and histories ----------------------------------------------

  datatype Game = Game(claim: OperatorClaim, range: Range)

  datatype Event =
    | Submit(outpoint: OutPoint, root: Bytes32, height: nat)
    | Dispute(outpoint: OutPoint, totalSteps: nat, height: nat)
    | Finalise(height: nat)

  /** The manager's claims and disputes, and all outpoints reported so far. */
  datatype History = History(claims: seq<OperatorClaim>, reported: seq<OutPoint>, disputes: map<OutPoint, Game>)

  /** The answer to a request for a dispute. */
  function DisputeCheck(claims: seq<OperatorClaim>, outpoint: OutPoint, height: nat): Outcome<BridgeError> {
    var i := LastOpen(claims, outpoint);
    if i < 0 then Fail(DepositNotFound(outpoint))
    else if height >= claims[i].challengeDeadline then Fail(ChallengeWindowExpired(claims[i].challengeDeadline))
    else Pass
  }

  function After(h: History, e: Event): History {
    match e
    case Submit(outpoint, root, height) => h.(claims := h.claims + [NewClaim(outpoint, root, height)])
    case Dispute(outpoint, totalSteps, height) =>
      if DisputeCheck(h.claims, outpoint, height).Fail? then h
      else
        var claim := h.claims[LastOpen(h.claims, outpoint)];
        h.(disputes := h.disputes[outpoint := Game(claim, Range(0, totalSteps, 0))])
    case Finalise(height) =>
      h.(claims := FinaliseAll(h.claims, height), reported := h.reported + Reported(h.claims, height))
  }

  function Replay(events: seq<Event>): History {
    if events == [] then History([], [], map[])
    else After(Replay(events[..|events| - 1]), events[|events| - 1])
  }

  class BitvmBridgeManager {
    var claims: seq<OperatorClaim>
    var disputes: map<OutPoint, BisectionState>

    ghost function Games(): map<OutPoint, Game>
      reads this, disputes.Values
    {
      map k | k in disputes :: Game(disputes[k].claim, disputes[k].Value())
    }

    /** The manager's state in a history that has reported these outpoints. */
    ghost function Value(reported: seq<OutPoint>): History
      reads this, disputes.Values
    {
      History(claims, reported, Games())
    }

    constructor ()
      ensures claims == [] && disputes == map[]
      ensures Value([]) == Replay([])
    {
      claims, disputes := [], map[];
    }

    method SubmitClaim(outpoint: OutPoint, root: Bytes32, currentHeight: nat)
      modifies this`claims
      ensures claims == old(claims) + [OperatorClaim(outpoint, root, currentHeight, currentHeight + 2016, false)]
      ensures Value([]) == After(old(Value([])), Submit(outpoint, root, currentHeight))
    {
      claims := claims + [NewClaim(outpoint, root, currentHeight)];
    }

    /** The search from the back for an open claim. */
    method FindLastOpen(outpoint: OutPoint) returns (i: int)
      ensures i == LastOpen(claims, outpoint)
    {
      i := |claims| - 1;
      while i >= 0 && !OpenFor(claims[i], outpoint)
        invariant -1 <= i < |claims|
        invariant LastOpen(claims, outpoint) == LastOpen(claims[..i + 1], outpoint)
        decreases i
      {
        assert claims[..i + 1][..i] == claims[..i];
        i := i - 1;
      }
    }

    /** Opens a fresh game over the whole range on the most recent open claim. */
    method InitiateDispute(outpoint: OutPoint, totalSteps: nat, currentHeight: nat) returns (r: Outcome<BridgeError>)
      modifies this`disputes
      ensures var i := LastOpen(claims, outpoint);
              r == if i < 0 then Fail(DepositNotFound(outpoint))
                   else if currentHeight >= claims[i].challengeDeadline
                   then Fail(ChallengeWindowExpired(claims[i].challengeDeadline))
                   else Pass
      ensures Value([]) == After(old(Value([])), Dispute(outpoint, totalSteps, currentHeight))
      ensures if r.Fail? then disputes == old(disputes)
              else outpoint in disputes && fresh(disputes[outpoint])
                   && disputes == old(disputes)[outpoint := disputes[outpoint]]
    {
      hide LastOpen;
      var i := FindLastOpen(outpoint);
      if i < 0 {
        return Fail(DepositNotFound(outpoint));
      }
      if currentHeight >= claims[i].challengeDeadline {
        return Fail(ChallengeWindowExpired(claims[i].challengeDeadline));
      }
      var bisection := new BisectionState(claims[i], totalSteps);
      disputes := disputes[outpoint := bisection];
      r := Pass;
    }

    /** Disputes are neither consulted nor changed. */
    method FinaliseExpiredClaims(currentHeight: nat) returns (finalised: seq<OutPoint>)
      modifies this`claims
      ensures claims == FinaliseAll(old(claims), currentHeight)
      ensures |claims| == |old(claims)|
      ensures forall i :: 0 <= i < |claims| ==>
                claims[i] == if old(claims)[i].finalised || currentHeight < old(claims)[i].challengeDeadline
                             then old(claims)[i] else old(claims)[i].(finalised := true)
      ensures finalised == Reported(old(claims), currentHeight)
      ensures Value(finalised) == After(old(Value([])), Finalise(currentHeight))
    {
      ghost var before := claims;
      finalised := [];
      var i := 0;
      while i < |claims|
        invariant 0 <= i <= |claims| == |before|
        invariant forall j :: 0 <= j < |claims| ==> claims[j] == if j < i then Finalised(before[j], currentHeight) else before[j]
        invariant finalised == Reported(before[..i], currentHeight)
      {
        assert before[..i + 1][..i] == before[..i];
        if CanFinalise(claims[i], currentHeight) {
          finalised := finalised + [claims[i].depositOutpoint];
          claims := claims[i := claims[i].(finalised := true)];
        }
        i := i + 1;
      }
      assert before[..i] == before;
    }
  }

  // ----- windows -----------------------------------------------------------

  /** What `initiate_dispute` accepts for a given claim. */
  predicate Disputable(c: OperatorClaim, height: nat) {
    !c.finalised && height < c.challengeDeadline
  }

  /** Right after a sweep no dispute is refused for an expired window: it is
      opened exactly when some claim on the outpoint was still disputable. */
  lemma DisputeAfterSweep(claims: seq<OperatorClaim>, outpoint: OutPoint, height: nat)
    ensures var r := DisputeCheck(FinaliseAll(claims, height), outpoint, height);
            && (r.Pass? || r == Fail(DepositNotFound(outpoint)))
            && (r.Pass? <==>
                  exists i :: 0 <= i < |claims| && claims[i].depositOutpoint == outpoint && Disputable(claims[i], height))
  {
  }

  // ----- histories ---------------------------------------------------------

  function FinalOutpoints(claims: seq<OperatorClaim>): seq<OutPoint> {
    if claims == [] then []
    else
      var n := |claims| - 1;
      FinalOutpoints(claims[..n]) + (if claims[n].finalised then [claims[n].depositOutpoint] else [])
  }

  lemma {:induction false} ReportingIsExact(claims: seq<OperatorClaim>, height: nat)
    ensures multiset(FinalOutpoints(FinaliseAll(claims, height)))
         == multiset(FinalOutpoints(claims)) + multiset(Reported(claims, height))
  {
    if claims != [] {
      var n := |claims| - 1;
      ReportingIsExact(claims[..n], height);
      assert FinaliseAll(claims, height)[..n] == FinaliseAll(claims[..n], height);
    }
  }

  /** Over any history, every finalised claim has been reported exactly once,
      and nothing else has. */
  lemma {:induction false} ReportedOnce(events: seq<Event>)
    ensures ReportedFinal(Replay(events))
  {
    if events != [] {
      hide After, ReportedFinal;
      ReportedOnce(events[..|events| - 1]);
      AfterReported(Replay(events[..|events| - 1]), events[|events| - 1]);
    }
  }

  ghost predicate ReportedFinal(h: History) {
    multiset(h.reported) == multiset(FinalOutpoints(h.claims))
  }

  lemma AfterReported(h: History, e: Event)
    requires ReportedFinal(h)
    ensures ReportedFinal(After(h, e))
  {
    match e {
      case Submit(outpoint, root, height) =>
        var claims := h.claims + [NewClaim(outpoint, root, height)];
        assert claims[..|h.claims|] == h.claims;
      case Dispute(outpoint, totalSteps, height) =>
      case Finalise(height) => ReportingIsExact(h.claims, height);
    }
  }

  /** The event that published claim `i` of a history. */
  ghost predicate PublishedBy(events: seq<Event>, i: nat, at: nat)
    requires i < |Replay(events).claims|
  {
    var c := Replay(events).claims[i];
    && at < |events|
    && events[at] == Submit(c.depositOutpoint, c.claimedStateRoot, c.publishedAt)
    && |Replay(events[..at]).claims| == i
  }

  ghost predicate FinalisedBy(events: seq<Event>, c: OperatorClaim, from: nat, at: nat) {
    from < at < |events| && events[at].Finalise? && events[at].height >= c.publishedAt + CHALLENGE_WINDOW_BLOCKS
  }

  /** A claim is exactly what was submitted, and it is final precisely when some
      later sweep ran at least 2016 blocks after its publication. */
  lemma {:induction false} FinalIff(events: seq<Event>, i: nat) returns (at: nat)
    requires i < |Replay(events).claims|
    ensures PublishedBy(events, i, at)
    ensures var c := Replay(events).claims[i];
            && c.challengeDeadline == c.publishedAt + CHALLENGE_WINDOW_BLOCKS
            && (c.finalised <==> exists k: nat :: FinalisedBy(events, c, at, k))
  {
    hide After, FinaliseAll;
    var n := |events| - 1;
    var prefix, e := events[..n], events[n];
    var h, c := Replay(prefix), Replay(events).claims[i];
    AfterClaims(h, e);
    if i == |h.claims| {
      at := n;
    } else {
      at := FinalIff(prefix, i);
      assert prefix[..at] == events[..at];
      assert prefix + [e] == events;
      FinalisedLater(prefix, e, h.claims[i], c, at);
    }
  }

  /** What one event does to the claims. */
  lemma AfterClaims(h: History, e: Event)
    ensures var claims := After(h, e).claims;
            && |claims| == |h.claims| + (if e.Submit? then 1 else 0)
            && (forall i :: 0 <= i < |h.claims| ==>
                  claims[i] == if e.Finalise? then Finalised(h.claims[i], e.height) else h.claims[i])
            && (e.Submit? ==> claims[|h.claims|] == NewClaim(e.outpoint, e.root, e.height))
  {
  }

  lemma FinalisedLater(prefix: seq<Event>, e: Event, c: OperatorClaim, c': OperatorClaim, at: nat)
    requires at < |prefix| && c.challengeDeadline == c.publishedAt + CHALLENGE_WINDOW_BLOCKS
    requires c.finalised <==> exists k: nat :: FinalisedBy(prefix, c, at, k)
    requires c' == if e.Finalise? then Finalised(c, e.height) else c
    ensures c'.finalised <==> exists k: nat :: FinalisedBy(prefix + [e], c', at, k)
  {
    var events := prefix + [e];
    if c'.finalised {
      if c.finalised {
        var k: nat :| FinalisedBy(prefix, c, at, k);
        assert FinalisedBy(events, c', at, k);
      } else {
        assert FinalisedBy(events, c', at, |prefix|);
      }
    } else if k: nat :| FinalisedBy(events, c', at, k) {
      if k < |prefix| {
        assert FinalisedBy(prefix, c, at, k);
      }
      assert false;
    }
  }

  lemma {:induction false} ClaimsGrow(events: seq<Event>, at: nat)
    requires at < |events|
    ensures |Replay(events[..at]).claims| + (if events[at].Submit? then 1 else 0) <= |Replay(events).claims|
  {
    hide After;
    var n := |events| - 1;
    AfterClaims(Replay(events[..n]), events[n]);
    if at < n {
      ClaimsGrow(events[..n], at);
      assert events[..n][..at] == events[..at];
    }
  }

  lemma SubmissionAdds(events: seq<Event>, at: nat, end: nat)
    requires at < end <= |events| && events[at].Submit?
    ensures |Replay(events[..at]).claims| < |Replay(events[..end]).claims|
  {
    ClaimsGrow(events[..end], at);
    assert events[..end][..at] == events[..at];
  }

  /** Each claim has one submission. */
  lemma PublishedOnce(events: seq<Event>, at: nat, at': nat)
    requires at < |events| && at' < |events| && events[at].Submit? && events[at'].Submit?
    requires |Replay(events[..at]).claims| == |Replay(events[..at']).claims|
    ensures at == at'
  {
    if at < at' {
      SubmissionAdds(events, at, at');
    } else if at' < at {
      SubmissionAdds(events, at', at);
    }
  }

  /** Some sweep after event `at` ran 2016 blocks or more after its height. */
  ghost predicate Swept(events: seq<Event>, at: nat)
    requires at < |events|
  {
    exists k: nat :: at < k < |events| && events[k].Finalise? && events[k].height >= events[at].height + 2016
  }

  /** Event `at` is a submission for the outpoint that no sweep has finalised. */
  ghost predicate Unswept(events: seq<Event>, outpoint: OutPoint, at: nat) {
    at < |events| && events[at].Submit? && events[at].outpoint == outpoint && !Swept(events, at)
  }

  /** And the most recent such. */
  ghost predicate LatestUnswept(events: seq<Event>, outpoint: OutPoint, at: nat) {
    Unswept(events, outpoint, at) && forall k: nat :: k > at ==> !Unswept(events, outpoint, k)
  }

  /** The claim a submission made. */
  lemma ClaimOf(events: seq<Event>, at: nat) returns (i: nat)
    requires at < |events| && events[at].Submit?
    ensures i == |Replay(events[..at]).claims| < |Replay(events).claims|
    ensures var e, c := events[at], Replay(events).claims[i];
            c == OperatorClaim(e.outpoint, e.root, e.height, e.height + 2016, Swept(events, at))
  {
    ClaimsGrow(events, at);
    i := |Replay(events[..at]).claims|;
    var at' := FinalIff(events, i);
    PublishedOnce(events, at, at');
    var c := Replay(events).claims[i];
    if c.finalised {
      var k: nat :| FinalisedBy(events, c, at, k);
      assert Swept(events, at);
    }
    forall k: nat | at < k < |events| && events[k].Finalise? && events[k].height >= events[at].height + 2016
      ensures c.finalised
    {
      assert FinalisedBy(events, c, at, k);
    }
  }

  /** The submission a claim came from; earlier claims have earlier ones. */
  lemma SubmissionOf(events: seq<Event>, i: nat) returns (at: nat)
    requires i < |Replay(events).claims|
    ensures at < |events| && events[at].Submit? && |Replay(events[..at]).claims| == i
    ensures forall k: nat :: at < k < |events| && events[k].Submit? ==> |Replay(events[..k]).claims| > i
  {
    at := FinalIff(events, i);
    forall k: nat | at < k < |events| && events[k].Submit?
      ensures |Replay(events[..k]).claims| > i
    {
      SubmissionAdds(events, at, k);
    }
  }

  /** The latest open claim is that of the latest unswept submission. */
  lemma LatestIsLastOpen(events: seq<Event>, outpoint: OutPoint) returns (at: nat)
    requires LastOpen(Replay(events).claims, outpoint) >= 0
    ensures LatestUnswept(events, outpoint, at)
    ensures var e := events[at];
            Replay(events).claims[LastOpen(Replay(events).claims, outpoint)] ==
            OperatorClaim(outpoint, e.root, e.height, e.height + 2016, false)
  {
    hide Replay;
    var claims := Replay(events).claims;
    var i := LastOpen(claims, outpoint);
    at := SubmissionOf(events, i);
    var i' := ClaimOf(events, at);
    forall k: nat | k > at
      ensures !Unswept(events, outpoint, k)
    {
      if k < |events| && events[k].Submit? && events[k].outpoint == outpoint {
        var j := ClaimOf(events, k);
        assert !OpenFor(claims[j], outpoint);
      }
    }
  }

  lemma OneLatest(events: seq<Event>, outpoint: OutPoint, at: nat, k: nat)
    requires LatestUnswept(events, outpoint, at) && LatestUnswept(events, outpoint, k)
    ensures at == k && Unswept(events, outpoint, at)
  {
  }

  lemma NoneUnswept(events: seq<Event>, outpoint: OutPoint)
    requires LastOpen(Replay(events).claims, outpoint) < 0
    ensures forall at: nat :: !Unswept(events, outpoint, at)
  {
    hide Replay;
    forall at: nat
      ensures !Unswept(events, outpoint, at)
    {
      if at < |events| && events[at].Submit? && events[at].outpoint == outpoint {
        var i := ClaimOf(events, at);
        assert !OpenFor(Replay(events).claims[i], outpoint);
      }
    }
  }

  /** After any history, swept or not, the answer to a dispute is told by the
      most recent submission for the outpoint that no sweep has finalised: it is
      granted below 2016 blocks of age, and later refused with its deadline; with
      no such submission the outpoint is unknown. */
  lemma DisputeAnswer(events: seq<Event>, outpoint: OutPoint, height: nat)
    ensures var r := DisputeCheck(Replay(events).claims, outpoint, height);
            && (r == Pass <==>
                  exists at: nat :: LatestUnswept(events, outpoint, at) && height < events[at].height + 2016)
            && (forall at: nat :: LatestUnswept(events, outpoint, at) && height >= events[at].height + 2016 ==>
                  r == Fail(ChallengeWindowExpired(events[at].height + 2016)))
            && (r == Fail(DepositNotFound(outpoint)) <==> forall at: nat :: !Unswept(events, outpoint, at))
  {
    hide Replay, Swept;
    if LastOpen(Replay(events).claims, outpoint) < 0 {
      NoneUnswept(events, outpoint);
    } else {
      var at := LatestIsLastOpen(events, outpoint);
      forall k: nat | LatestUnswept(events, outpoint, k)
        ensures k == at && Unswept(events, outpoint, at)
      {
        OneLatest(events, outpoint, at, k);
      }
    }
  }

  /** A granted dispute opens a game on that submission's claim over all its
      steps, in place of any game there was; a refused one changes nothing. */
  lemma DisputeOpens(events: seq<Event>, outpoint: OutPoint, totalSteps: nat, height: nat)
    ensures var h, h' := Replay(events), Replay(events + [Dispute(outpoint, totalSteps, height)]);
            && h'.claims == h.claims && h'.reported == h.reported
            && (forall at: nat :: LatestUnswept(events, outpoint, at) && height < events[at].height + 2016 ==>
                  h'.disputes == h.disputes[outpoint :=
                    Game(OperatorClaim(outpoint, events[at].root, events[at].height, events[at].height + 2016, false),
                         Range(0, totalSteps, 0))])
            && ((forall at: nat :: LatestUnswept(events, outpoint, at) ==> height >= events[at].height + 2016) ==> h' == h)
  {
    ReplayAppend(events, Dispute(outpoint, totalSteps, height));
    DisputeAnswer(events, outpoint, height);
    if LastOpen(Replay(events).claims, outpoint) >= 0 {
      var at := LatestIsLastOpen(events, outpoint);
      forall k: nat | LatestUnswept(events, outpoint, k)
        ensures k == at && Unswept(events, outpoint, at)
      {
        OneLatest(events, outpoint, at, k);
      }
    }
  }

  /** Event `at` published a claim whose window has not passed at `height`, nor
      had at any later sweep. */
  ghost predicate StillOpen(events: seq<Event>, outpoint: OutPoint, at: nat, height: nat) {
    && at < |events| && events[at].Submit? && events[at].outpoint == outpoint
    && height < events[at].height + CHALLENGE_WINDOW_BLOCKS
    && !exists k: nat ::
         at < k < |events| && events[k].Finalise? && events[k].height >= events[at].height + CHALLENGE_WINDOW_BLOCKS
  }

  /** After any history that ends in a sweep, a dispute at the height of that
      sweep is opened exactly when some submission for the outpoint is still
      within its window and no earlier sweep was past it. */
  lemma DisputeGrantedIff(events: seq<Event>, outpoint: OutPoint, height: nat)
    ensures var r := DisputeCheck(Replay(events + [Finalise(height)]).claims, outpoint, height);
            && (r.Pass? || r == Fail(DepositNotFound(outpoint)))
            && (r.Pass? <==> exists at: nat :: StillOpen(events, outpoint, at, height))
  {
    hide DisputeCheck;
    var claims := Replay(events).claims;
    ReplayAppend(events, Finalise(height));
    DisputeAfterSweep(claims, outpoint, height);
    if i :| 0 <= i < |claims| && claims[i].depositOutpoint == outpoint && Disputable(claims[i], height) {
      var at := FinalIff(events, i);
      forall k: nat | at < k < |events| && events[k].Finalise?
        ensures events[k].height < events[at].height + CHALLENGE_WINDOW_BLOCKS
      {
        assert !FinalisedBy(events, claims[i], at, k);
      }
      assert StillOpen(events, outpoint, at, height);
    }
    if at: nat :| StillOpen(events, outpoint, at, height) {
      ClaimsGrow(events, at);
      var i := |Replay(events[..at]).claims|;
      var at' := FinalIff(events, i);
      PublishedOnce(events, at, at');
      assert Disputable(claims[i], height);
    }
  }

  /** Sweeping again at the same or an earlier height reports nothing. */
  lemma {:induction false} SweepIdempotent(claims: seq<OperatorClaim>, h: nat, h': nat)
    requires h' <= h
    ensures Reported(FinaliseAll(claims, h), h') == []
    ensures FinaliseAll(FinaliseAll(claims, h), h') == FinaliseAll(claims, h)
  {
    if claims != [] {
      var n := |claims| - 1;
      SweepIdempotent(claims[..n], h, h');
      assert FinaliseAll(claims, h)[..n] == FinaliseAll(claims[..n], h);
    }
  }

  // ----- disputes ----------------------------------------------------------

  function WithoutDisputes(events: seq<Event>): seq<Event> {
    if events == [] then []
    else
      var n := |events| - 1;
      WithoutDisputes(events[..n]) + (if events[n].Dispute? then [] else [events[n]])
  }

  /** Disputes decide nothing: the same history without them has the same
      claims, final or open, and the same reports. */
  lemma {:induction false} DisputesDecideNothing(events: seq<Event>)
    ensures SameOutcome(Replay(WithoutDisputes(events)), Replay(events))
  {
    if events != [] {
      hide After, SameOutcome;
      var n := |events| - 1;
      var kept := WithoutDisputes(events[..n]);
      DisputesDecideNothing(events[..n]);
      AfterSameOutcome(Replay(kept), Replay(events[..n]), events[n]);
      if events[n].Dispute? {
        assert kept + [] == kept;
      } else {
        ReplayAppend(kept, events[n]);
      }
    }
  }

  predicate SameOutcome(h: History, k: History) {
    h.claims == k.claims && h.reported == k.reported
  }

  lemma AfterSameOutcome(h: History, k: History, e: Event)
    requires SameOutcome(h, k)
    ensures SameOutcome(if e.Dispute? then h else After(h, e), After(k, e))
  {
  }

  /** A game is on a claim that was submitted for its outpoint. */
  ghost predicate OnClaim(game: Game, outpoint: OutPoint, claims: seq<OperatorClaim>) {
    exists i :: 0 <= i < |claims| && claims[i].depositOutpoint == outpoint && claims[i].(finalised := false) == game.claim
  }

  ghost predicate AllOnClaims(h: History) {
    forall k :: k in h.disputes ==> OnClaim(h.disputes[k], k, h.claims)
  }

  lemma {:induction false} DisputesAreOnClaims(events: seq<Event>)
    ensures AllOnClaims(Replay(events))
  {
    if events != [] {
      hide After, AllOnClaims;
      DisputesAreOnClaims(events[..|events| - 1]);
      AfterOnClaims(Replay(events[..|events| - 1]), events[|events| - 1]);
    } else {
      assert Replay(events).disputes == map[];
    }
  }

  lemma AfterOnClaims(h: History, e: Event)
    requires AllOnClaims(h)
    ensures AllOnClaims(After(h, e))
  {
    var h' := After(h, e);
    forall k | k in h'.disputes
      ensures OnClaim(h'.disputes[k], k, h'.claims)
    {
      if e.Dispute? && e.outpoint == k && DisputeCheck(h.claims, k, e.height).Pass? {
        var i := LastOpen(h.claims, k);
        assert h'.claims[i].(finalised := false) == h'.disputes[k].claim;
      } else {
        assert k in h.disputes && h'.disputes[k] == h.disputes[k];
        OnClaimLater(h, e, h.disputes[k], k);
      }
    }
  }

  lemma OnClaimLater(h: History, e: Event, game: Game, outpoint: OutPoint)
    requires OnClaim(game, outpoint, h.claims)
    ensures OnClaim(game, outpoint, After(h, e).claims)
  {
    var i :| 0 <= i < |h.claims| && h.claims[i].depositOutpoint == outpoint && h.claims[i].(finalised := false) == game.claim;
    var claims := After(h, e).claims;
    assert claims[i].(finalised := false) == h.claims[i].(finalised := false);
  }

  /** After any history, a claim disputed within its window is final and reported
      2016 blocks after its publication, while the dispute is still open. */
  lemma FinalWhileDisputed(events: seq<Event>, outpoint: OutPoint, root: Bytes32, published: nat,
                           totalSteps: nat, disputed: nat, swept: nat)
    requires disputed < published + CHALLENGE_WINDOW_BLOCKS <= swept
    ensures var claim := NewClaim(outpoint, root, published);
            var h := Replay(events + [Submit(outpoint, root, published)] + [Dispute(outpoint, totalSteps, disputed)]
                                   + [Finalise(swept)]);
            var i := |Replay(events).claims|;
            && |h.claims| == i + 1 && h.claims[i] == claim.(finalised := true)
            && outpoint in h.reported
            && outpoint in h.disputes && h.disputes[outpoint] == Game(claim, Range(0, totalSteps, 0))
  {
    var e0, e1, e2 := Submit(outpoint, root, published), Dispute(outpoint, totalSteps, disputed), Finalise(swept);
    ReplayAppend(events, e0);
    ReplayAppend(events + [e0], e1);
    ReplayAppend(events + [e0] + [e1], e2);
    var claims := Replay(events + [e0]).claims;
    assert LastOpen(claims, outpoint) == |claims| - 1;
  }

  lemma ReplayAppend(events: seq<Event>, e: Event)
    ensures Replay(events + [e]) == After(Replay(events), e)
  {
    assert (events + [e])[..|events|] == events;
  }
}
