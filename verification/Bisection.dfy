/** The bisection game and the one-step fraud proof of
    src/bridge/bitvm_bridge.rs. */
module Bisection {
  import opened Arith
  import opened Bytes
  import opened Wrappers

  const CHALLENGE_WINDOW_BLOCKS: nat := 2016
  const MAX_BISECTION_ROUNDS: nat := 32

  datatype OutPoint = OutPoint(txid: Bytes32, vout: u32)

  datatype OperatorClaim = OperatorClaim(
    depositOutpoint: OutPoint,
    claimedStateRoot: Bytes32,
    publishedAt: nat,
    challengeDeadline: nat,
    finalised: bool
  )

  datatype BridgeError =
    | DepositNotFound(outpoint: OutPoint)
    | ChallengeWindowExpired(block: nat)
    | TooManyRounds(rounds: nat)
    | NotFraud(step: u32)

  // ----- the game on values ------------------------------------------------

  datatype Range = Range(lo: nat, hi: nat, rounds: nat)

  function Midpoint(lo: nat, hi: nat): nat {
    (lo + hi) / 2
  }

  /** One round: accepting the midpoint keeps the upper half. */
  function Narrow(r: Range, accept: bool): Range {
    var mid := Midpoint(r.lo, r.hi);
    if accept then Range(mid, r.hi, r.rounds + 1) else Range(r.lo, mid, r.rounds + 1)
  }

  /** A whole game: the challenger's answers in order. */
  function Play(r: Range, moves: seq<bool>): Range
    decreases |moves|
  {
    if moves == [] then r else Play(Narrow(r, moves[0]), moves[1..])
  }

  function Width(r: Range): int {
    r.hi - r.lo
  }

  predicate Resolved(r: Range) {
    Width(r) <= 1
  }

  class BisectionState {
    const claim: OperatorClaim
    var stepLo: nat
    var stepHi: nat
    var roundsCompleted: nat
    var midpointHash: Option<Bytes32>

    function Value(): Range
      reads this
    {
      Range(stepLo, stepHi, roundsCompleted)
    }

    predicate Valid()
      reads this
    {
      stepLo <= stepHi
    }

    constructor (claim: OperatorClaim, totalSteps: nat)
      ensures Valid() && this.claim == claim && Value() == Range(0, totalSteps, 0) && midpointHash == None
    {
      this.claim := claim;
      stepLo, stepHi, roundsCompleted := 0, totalSteps, 0;
      midpointHash := None;
    }

    method ChallengerAcceptsMid() returns (r: Outcome<BridgeError>)
      requires Valid()
      modifies this
      ensures Valid() && Value() == Narrow(old(Value()), true) && midpointHash == None
      ensures r == if roundsCompleted > MAX_BISECTION_ROUNDS then Fail(TooManyRounds(roundsCompleted)) else Pass
    {
      stepLo := Midpoint(stepLo, stepHi);
      roundsCompleted := roundsCompleted + 1;
      midpointHash := None;
      r := CheckMaxRounds();
    }

    method ChallengerRejectsMid() returns (r: Outcome<BridgeError>)
      requires Valid()
      modifies this
      ensures Valid() && Value() == Narrow(old(Value()), false) && midpointHash == None
      ensures r == if roundsCompleted > MAX_BISECTION_ROUNDS then Fail(TooManyRounds(roundsCompleted)) else Pass
    {
      stepHi := Midpoint(stepLo, stepHi);
      roundsCompleted := roundsCompleted + 1;
      midpointHash := None;
      r := CheckMaxRounds();
    }

    method IsResolved() returns (b: bool)
      requires Valid()
      ensures b <==> Resolved(Value())
    {
      b := stepHi - stepLo <= 1;
    }

    method CheckMaxRounds() returns (r: Outcome<BridgeError>)
      ensures r == if roundsCompleted > MAX_BISECTION_ROUNDS then Fail(TooManyRounds(roundsCompleted)) else Pass
    {
      r := if roundsCompleted > MAX_BISECTION_ROUNDS then Fail(TooManyRounds(roundsCompleted)) else Pass;
    }
  }

  // ----- how fast the range narrows ----------------------------------------

  lemma NarrowWidth(r: Range, accept: bool)
    requires r.lo <= r.hi
    ensures var r' := Narrow(r, accept);
            && r.lo <= r'.lo <= r'.hi <= r.hi
            && Width(r') == if accept then (Width(r) + 1) / 2 else Width(r) / 2
  {
  }

  /** `end` lies between the floor and the ceiling of `width` over `parts`. */
  ghost predicate Divided(width: int, end: int, parts: int)
    requires parts > 0
  {
    width / parts <= end <= (width + parts - 1) / parts
  }

  /** Whatever the answers, n rounds leave a width between the floor and the
      ceiling of the initial width over 2^n. */
  lemma {:induction false} PlayWidth(r: Range, moves: seq<bool>)
    requires r.lo <= r.hi
    ensures var r' := Play(r, moves);
            && r.lo <= r'.lo <= r'.hi <= r.hi
            && r'.rounds == r.rounds + |moves|
            && Divided(Width(r), Width(r'), Pow(2, |moves|))
    decreases |moves|
  {
    if moves == [] {
      assert Width(r) / 1 == Width(r);
    } else {
      hide Divided;
      var m := Narrow(r, moves[0]);
      NarrowWidth(r, moves[0]);
      PlayWidth(m, moves[1..]);
      HalfBounds(Width(r), Width(m), Width(Play(r, moves)), Pow(2, |moves| - 1));
    }
  }

  /** The sum of the two ends, which the midpoint halves, is at most twice the
      number of steps: the 64-bit addition is exact for any game on fewer than
      2^63 steps. */
  lemma EndsSumFits(n: nat, moves: seq<bool>)
    ensures var r := Play(Range(0, n, 0), moves); r.lo + r.hi <= 2 * n
    ensures n < 0x8000_0000_0000_0000 ==>
              var r := Play(Range(0, n, 0), moves); r.lo + r.hi < 0x1_0000_0000_0000_0000
  {
    PlayWidth(Range(0, n, 0), moves);
  }

  lemma HalfBounds(w: nat, half: nat, end: nat, q: nat)
    requires q > 0 && w / 2 <= half <= (w + 1) / 2
    requires Divided(half, end, q)
    ensures Divided(w, end, 2 * q)
  {
    FloorBelow(w, half, end, q);
    CeilingAbove(w, half, end, q);
  }

  lemma FloorBelow(w: nat, half: nat, end: nat, q: nat)
    requires q > 0 && w / 2 <= half && half / q <= end
    ensures w / (2 * q) <= end
  {
    DivDiv(w, 2, q);
    DivMonotone(w / 2, half, q);
  }

  lemma CeilingAbove(w: nat, half: nat, end: nat, q: nat)
    requires q > 0 && half <= (w + 1) / 2 && end <= (half + q - 1) / q
    ensures end <= (w + 2 * q - 1) / (2 * q)
  {
    DivDiv(w + 2 * q - 1, 2, q);
    assert half + q - 1 <= (w + 2 * q - 1) / 2;
    DivMonotone(half + q - 1, (w + 2 * q - 1) / 2, q);
  }

  function Repeat(accept: bool, n: nat): (moves: seq<bool>)
    ensures |moves| == n
  {
    if n == 0 then [] else [accept] + Repeat(accept, n - 1)
  }

  /** The two bounds are reached: always rejecting gives the floor, always
      accepting the ceiling. */
  lemma {:induction false} ExtremeStrategies(r: Range, n: nat)
    requires r.lo <= r.hi
    ensures Width(Play(r, Repeat(false, n))) == Width(r) / Pow(2, n)
    ensures Width(Play(r, Repeat(true, n))) == (Width(r) + Pow(2, n) - 1) / Pow(2, n)
    decreases n
  {
    if n == 0 {
      assert Width(r) / 1 == Width(r);
    } else {
      var q := Pow(2, n - 1);
      assert Repeat(false, n)[1..] == Repeat(false, n - 1) && Repeat(true, n)[1..] == Repeat(true, n - 1);
      NarrowWidth(r, false);
      NarrowWidth(r, true);
      ExtremeStrategies(Narrow(r, false), n - 1);
      ExtremeStrategies(Narrow(r, true), n - 1);
      DivDiv(Width(r), 2, q);
      DivDiv(Width(r) + 2 * q - 1, 2, q);
      assert (Width(r) + 2 * q - 1) / 2 == (Width(r) + 1) / 2 + q - 1;
    }
  }

  lemma PowersOfTwo()
    ensures Pow(2, 32) == 0x1_0000_0000
  {
    PowAdd(2, 1, 1);
    PowAdd(2, 2, 2);
    PowAdd(2, 4, 4);
    PowAdd(2, 8, 8);
    PowAdd(2, 16, 16);
    assert Pow(2, 1) == 2 * Pow(2, 0);
  }

  /** Every challenger is done within the 32 permitted rounds exactly when the
      computation has at most 2^32 steps. */
  lemma EveryStrategyResolvesIff(n: nat)
    ensures (forall moves: seq<bool> :: |moves| == MAX_BISECTION_ROUNDS ==> Resolved(Play(Range(0, n, 0), moves)))
            <==> n <= 0x1_0000_0000
  {
    var r, p: nat := Range(0, n, 0), 0x1_0000_0000;
    PowersOfTwo();
    if n <= p {
      forall moves: seq<bool> | |moves| == MAX_BISECTION_ROUNDS
        ensures Resolved(Play(r, moves))
      {
        PlayWidth(r, moves);
        DivAtMost(n + p - 1, p, 1);
      }
    } else {
      var accept := Repeat(true, 32);
      ExtremeStrategies(r, 32);
      DivAtLeast(n + p - 1, p, 2);
      assert !Resolved(Play(r, accept));
    }
  }

  /** Some challenger is done within 32 rounds exactly when there are fewer than
      2^33 steps; beyond that every game runs into the round limit. */
  lemma SomeStrategyResolvesIff(n: nat)
    ensures (exists moves: seq<bool> :: |moves| == MAX_BISECTION_ROUNDS && Resolved(Play(Range(0, n, 0), moves)))
            <==> n < 0x2_0000_0000
  {
    var r, p: nat := Range(0, n, 0), 0x1_0000_0000;
    PowersOfTwo();
    if n < 2 * p {
      var reject := Repeat(false, 32);
      ExtremeStrategies(r, 32);
      DivAtMost(n, p, 1);
      assert Resolved(Play(r, reject));
    } else {
      forall moves: seq<bool> | |moves| == MAX_BISECTION_ROUNDS
        ensures !Resolved(Play(r, moves))
      {
        PlayWidth(r, moves);
        DivAtLeast(n, p, 2);
      }
    }
  }

  // ----- fraud proofs ------------------------------------------------------

  datatype FraudProof = FraudProof(
    step: u32,
    preStateHash: Bytes32,
    postStateHash: Bytes32,
    operation: Bytes,
    merkleProof: seq<Bytes32>
  )

  /** Re-executing the operation contradicts the operator's post-state. */
  predicate Refutes(sha: Sha256, proof: FraudProof, claimed: Bytes32) {
    Sha256d(sha, proof.preStateHash + proof.operation) != claimed
  }

  function FoldMerkle(sha: Sha256, leaf: Bytes32, path: seq<Bytes32>): Bytes32
    decreases |path|
  {
    if path == [] then leaf
    else
      var n := |path| - 1;
      Sha256d(sha, SortedPair(FoldMerkle(sha, leaf, path[..n]), path[n]))
  }

  /** `verify`.  The Merkle root is folded up but compared with nothing, so the
      answer depends on the re-executed step alone. */
  method Verify(sha: Sha256, proof: FraudProof, claimed: Bytes32) returns (r: Outcome<BridgeError>)
    ensures r == if Refutes(sha, proof, claimed) then Pass else Fail(NotFraud(proof.step))
    ensures r == Pass <==> sha(sha(proof.preStateHash + proof.operation)) != claimed
  {
    var recomputedPost := Sha256d(sha, proof.preStateHash + proof.operation);
    if recomputedPost == claimed {
      return Fail(NotFraud(proof.step));
    }
    var current := proof.preStateHash;
    for i := 0 to |proof.merkleProof|
      invariant current == FoldMerkle(sha, proof.preStateHash, proof.merkleProof[..i])
    {
      var sibling := proof.merkleProof[i];
      var data: Bytes := [];
      if LexLe(current, sibling) {
        data := data + current + sibling;
      } else {
        data := data + sibling + current;
      }
      assert data == SortedPair(current, sibling);
      assert proof.merkleProof[..i + 1][..i] == proof.merkleProof[..i];
      current := Sha256d(sha, data);
    }
    r := Pass;
  }

  // ----- the honest challenger ---------------------------------------------

  type Trace = nat -> Bytes32

  /** A trace that executes `operation(i)` at every step below `n`. */
  ghost predicate Executes(sha: Sha256, trace: Trace, operation: nat -> Bytes, n: nat) {
    forall i :: 0 <= i < n ==> trace(i + 1) == Sha256d(sha, trace(i) + operation(i))
  }

  /** The challenger accepts a midpoint exactly when the traces agree there. */
  function TruthfulPlay(r: Range, honest: Trace, operator: Trace, rounds: nat): Range
    decreases rounds
  {
    if rounds == 0 then r
    else TruthfulPlay(Narrow(r, honest(Midpoint(r.lo, r.hi)) == operator(Midpoint(r.lo, r.hi))),
                      honest, operator, rounds - 1)
  }

  ghost predicate Disputed(r: Range, honest: Trace, operator: Trace) {
    r.lo < r.hi && honest(r.lo) == operator(r.lo) && honest(r.hi) != operator(r.hi)
  }

  /** The traces keep agreeing at the low end and differing at the high end; the
      game is one of the games `Play` describes. */
  lemma {:induction false} TruthfulPlayKeeps(r: Range, honest: Trace, operator: Trace, rounds: nat)
    requires Disputed(r, honest, operator)
    ensures Disputed(TruthfulPlay(r, honest, operator, rounds), honest, operator)
    ensures exists moves: seq<bool> :: |moves| == rounds && TruthfulPlay(r, honest, operator, rounds) == Play(r, moves)
    decreases rounds
  {
    if rounds == 0 {
      assert Play(r, []) == r;
    } else {
      var accept := honest(Midpoint(r.lo, r.hi)) == operator(Midpoint(r.lo, r.hi));
      var next := Narrow(r, accept);
      TruthfulPlayKeeps(next, honest, operator, rounds - 1);
      var moves: seq<bool> :| |moves| == rounds - 1 && TruthfulPlay(next, honest, operator, rounds - 1) == Play(next, moves);
      assert ([accept] + moves)[1..] == moves;
      assert Play(r, [accept] + moves) == Play(next, moves);
    }
  }

  /** A wrong final state is always caught: within 32 rounds the game isolates
      a single step, and the fraud proof for that step verifies. */
  lemma FraudIsCaught(sha: Sha256, honest: Trace, operator: Trace, operation: nat -> Bytes, n: nat,
                      proof: FraudProof)
    requires 0 < n <= 0x1_0000_0000 && Executes(sha, honest, operation, n)
    requires honest(0) == operator(0) && honest(n) != operator(n)
    requires var r := TruthfulPlay(Range(0, n, 0), honest, operator, MAX_BISECTION_ROUNDS);
             proof.preStateHash == operator(r.lo) && proof.operation == operation(r.lo)
    ensures var r := TruthfulPlay(Range(0, n, 0), honest, operator, MAX_BISECTION_ROUNDS);
            && r.rounds <= MAX_BISECTION_ROUNDS
            && r.hi == r.lo + 1 <= n
            && Refutes(sha, proof, operator(r.hi))
  {
    var start := Range(0, n, 0);
    TruthfulPlayKeeps(start, honest, operator, MAX_BISECTION_ROUNDS);
    var r := TruthfulPlay(start, honest, operator, MAX_BISECTION_ROUNDS);
    var moves: seq<bool> :| |moves| == MAX_BISECTION_ROUNDS && r == Play(start, moves);
    PlayWidth(start, moves);
    EveryStrategyResolvesIff(n);
    assert Resolved(Play(start, moves));
  }

  /** What an honest operator has to fear.  Nothing ties the proof's pre-state
      and operation to the trace, so any proof whose hashed bytes differ from
      those of the true step convicts, unless two different strings that were
      hashed have one hash; and no other proof does. */
  lemma ConvictsHonestIff(sha: Sha256, honest: Trace, operation: nat -> Bytes, n: nat,
                          moves: seq<bool>, proof: FraudProof)
    requires Executes(sha, honest, operation, n)
    requires var r := Play(Range(0, n, 0), moves); r.hi == r.lo + 1
    ensures var r := Play(Range(0, n, 0), moves);
            var hashed, truth := proof.preStateHash + proof.operation, honest(r.lo) + operation(r.lo);
            || (Refutes(sha, proof, honest(r.hi)) <==> hashed != truth)
            || Collides(sha, hashed, truth)
            || Collides(sha, sha(hashed), sha(truth))
  {
    var r := Play(Range(0, n, 0), moves);
    PlayWidth(Range(0, n, 0), moves);
    assert honest(r.lo + 1) == Sha256d(sha, honest(r.lo) + operation(r.lo));
  }

  /** An honest operator is never convicted: whatever answers isolated a step,
      re-executing the true operation on the true pre-state confirms it. */
  lemma HonestOperatorIsSafe(sha: Sha256, honest: Trace, operation: nat -> Bytes, n: nat,
                             moves: seq<bool>, proof: FraudProof)
    requires Executes(sha, honest, operation, n)
    requires var r := Play(Range(0, n, 0), moves);
             && r.hi == r.lo + 1
             && proof.preStateHash == honest(r.lo) && proof.operation == operation(r.lo)
    ensures !Refutes(sha, proof, honest(Play(Range(0, n, 0), moves).hi))
  {
    var r := Play(Range(0, n, 0), moves);
    PlayWidth(Range(0, n, 0), moves);
    assert honest(r.lo + 1) == Sha256d(sha, honest(r.lo) + operation(r.lo));
  }
}
