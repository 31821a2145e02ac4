/** The spending templates of src/covenant/ctv.rs and what their hash binds. */
module Ctv {
  import opened Bytes
  import opened Encoding
  import opened Wrappers

  type i32 = n: int | -0x8000_0000 <= n < 0x8000_0000

  datatype CtvTemplate = CtvTemplate(
    nversion: i32,
    nlocktime: u32,
    sequences: seq<u32>,
    outputs: seq<TxOutput>,
    inputIndex: u32,
    caption: Option<string>
  )

  /** Two's complement, as `to_le_bytes` of an `i32` sees it. */
  function Unsigned(n: i32): u32 {
    if n < 0 then n + 0x1_0000_0000 else n
  }

  /** `as u32` of a length. */
  function Truncated(n: nat): u32 {
    n % 0x1_0000_0000
  }

  function SequencesHash(sha: Sha256, t: CtvTemplate): Bytes32 {
    sha(SerialiseSequences(t.sequences))
  }

  function OutputsHash(sha: Sha256, t: CtvTemplate): Bytes32 {
    sha(SerialiseOutputs(t.outputs))
  }

  function Preimage(sha: Sha256, t: CtvTemplate): Bytes {
    TemplatePreimage(Unsigned(t.nversion), t.nlocktime, Zeros(32), Truncated(|t.sequences|), SequencesHash(sha, t),
                     Truncated(|t.outputs|), OutputsHash(sha, t), t.inputIndex)
  }

  function TemplateHash(sha: Sha256, t: CtvTemplate): Bytes32 {
    sha(Preimage(sha, t))
  }

  /** Where each field of a template sits in the 116 bytes that are hashed. */
  lemma PreimageFields(sha: Sha256, t: CtvTemplate)
    ensures var p := Preimage(sha, t);
            && |p| == 116
            && LE(p[0..4]) == (if t.nversion >= 0 then t.nversion else t.nversion + 0x1_0000_0000)
            && LE(p[4..8]) == t.nlocktime
            && (forall i :: 8 <= i < 40 ==> p[i] == 0)
            && LE(p[40..44]) == |t.sequences| % 0x1_0000_0000
            && p[44..76] == sha(SerialiseSequences(t.sequences))
            && LE(p[76..80]) == |t.outputs| % 0x1_0000_0000
            && p[80..112] == sha(SerialiseOutputs(t.outputs))
            && LE(p[112..116]) == t.inputIndex
  {
    hide TemplatePreimage, ToLE, LE;
    PreimageLayout(Unsigned(t.nversion), t.nlocktime, Zeros(32), Truncated(|t.sequences|), SequencesHash(sha, t),
                   Truncated(|t.outputs|), OutputsHash(sha, t), t.inputIndex);
    PowWidths();
    LEToLE(Unsigned(t.nversion), 4);
    LEToLE(t.nlocktime, 4);
    LEToLE(Truncated(|t.sequences|), 4);
    LEToLE(Truncated(|t.outputs|), 4);
    LEToLE(t.inputIndex, 4);
    var p := Preimage(sha, t);
    forall i | 8 <= i < 40
      ensures p[i] == 0
    {
      assert p[8..40][i - 8] == 0;
    }
  }

  method Hash(sha: Sha256, t: CtvTemplate) returns (h: Bytes32)
    ensures h == TemplateHash(sha, t)
    ensures exists p: Bytes ::
              && h == sha(p) && |p| == 116
              && LE(p[0..4]) == (if t.nversion >= 0 then t.nversion else t.nversion + 0x1_0000_0000)
              && LE(p[4..8]) == t.nlocktime
              && (forall i :: 8 <= i < 40 ==> p[i] == 0)
              && LE(p[40..44]) == |t.sequences| % 0x1_0000_0000
              && p[44..76] == sha(SerialiseSequences(t.sequences))
              && LE(p[76..80]) == |t.outputs| % 0x1_0000_0000
              && p[80..112] == sha(SerialiseOutputs(t.outputs))
              && LE(p[112..116]) == t.inputIndex
  {
    PreimageFields(sha, t);
    hide TemplatePreimage;
    var sequencesHash := HashSequences(sha, t.sequences);
    var outputsHash := HashOutputs(sha, t.outputs);
    h := CtvTemplateHash(sha, Unsigned(t.nversion), t.nlocktime, None, Truncated(|t.sequences|), sequencesHash,
                         Truncated(|t.outputs|), outputsHash, t.inputIndex);
  }

  // ----- binding -----------------------------------------------------------

  /** Everything but the label. */
  ghost predicate SameCommitted(a: CtvTemplate, b: CtvTemplate) {
    a.(caption := b.caption) == b
  }

  /** A collision in one of the three pairs of strings the two hashes digest. */
  ghost predicate TemplateCollision(sha: Sha256, a: CtvTemplate, b: CtvTemplate) {
    || Collides(sha, Preimage(sha, a), Preimage(sha, b))
    || Collides(sha, SerialiseSequences(a.sequences), SerialiseSequences(b.sequences))
    || Collides(sha, SerialiseOutputs(a.outputs), SerialiseOutputs(b.outputs))
  }

  /** Templates that agree in all committed fields have one hash, and templates
      with one hash agree in them unless SHA-256 collides on what was hashed. */
  lemma HashBinds(sha: Sha256, a: CtvTemplate, b: CtvTemplate)
    ensures SameCommitted(a, b) ==> TemplateHash(sha, a) == TemplateHash(sha, b)
    ensures TemplateHash(sha, a) == TemplateHash(sha, b) ==> SameCommitted(a, b) || TemplateCollision(sha, a, b)
  {
    hide TemplatePreimage;
    if TemplateHash(sha, a) == TemplateHash(sha, b) && !TemplateCollision(sha, a, b) {
      PreimageInjective(
        Unsigned(a.nversion), a.nlocktime, Zeros(32), Truncated(|a.sequences|), SequencesHash(sha, a),
        Truncated(|a.outputs|), OutputsHash(sha, a), a.inputIndex,
        Unsigned(b.nversion), b.nlocktime, Zeros(32), Truncated(|b.sequences|), SequencesHash(sha, b),
        Truncated(|b.outputs|), OutputsHash(sha, b), b.inputIndex);
      SequencesInjective(a.sequences, b.sequences);
      OutputsInjective(a.outputs, b.outputs);
    }
  }

  // ----- the bridge template -----------------------------------------------

  datatype CtvBridgeTemplate = CtvBridgeTemplate(
    sequencerUpdate: CtvTemplate,
    userExit: CtvTemplate,
    exitAfterHeight: nat
  )

  datatype SpendError =
    | CtvTemplateMismatch(expected: Bytes32, got: Bytes32)
    | TimelockNotExpired(current: nat, unlock: nat)

  method VerifySequencerSpend(sha: Sha256, bridge: CtvBridgeTemplate, proposal: CtvTemplate) returns (v: Outcome<SpendError>)
    ensures v == Pass <==> TemplateHash(sha, proposal) == TemplateHash(sha, bridge.sequencerUpdate)
    ensures SameCommitted(proposal, bridge.sequencerUpdate) ==> v == Pass
    ensures v == Pass ==>
              SameCommitted(proposal, bridge.sequencerUpdate)
              || TemplateCollision(sha, proposal, bridge.sequencerUpdate)
    ensures v.Fail? ==>
              v.error == CtvTemplateMismatch(TemplateHash(sha, bridge.sequencerUpdate), TemplateHash(sha, proposal))
  {
    HashBinds(sha, proposal, bridge.sequencerUpdate);
    var expected := Hash(sha, bridge.sequencerUpdate);
    var got := Hash(sha, proposal);
    v := if expected != got then Fail(CtvTemplateMismatch(expected, got)) else Pass;
  }

  /** The timelock is checked first, whatever the proposal. */
  method VerifyUserExit(sha: Sha256, bridge: CtvBridgeTemplate, proposal: CtvTemplate, currentHeight: nat)
    returns (v: Outcome<SpendError>)
    ensures currentHeight < bridge.exitAfterHeight <==>
              v == Fail(TimelockNotExpired(currentHeight, bridge.exitAfterHeight))
    ensures v == Pass <==>
              currentHeight >= bridge.exitAfterHeight
              && TemplateHash(sha, proposal) == TemplateHash(sha, bridge.userExit)
    ensures currentHeight >= bridge.exitAfterHeight && SameCommitted(proposal, bridge.userExit) ==> v == Pass
    ensures v == Pass ==>
              SameCommitted(proposal, bridge.userExit) || TemplateCollision(sha, proposal, bridge.userExit)
    ensures currentHeight >= bridge.exitAfterHeight && v.Fail? ==>
              v.error == CtvTemplateMismatch(TemplateHash(sha, bridge.userExit), TemplateHash(sha, proposal))
  {
    if currentHeight < bridge.exitAfterHeight {
      return Fail(TimelockNotExpired(currentHeight, bridge.exitAfterHeight));
    }
    HashBinds(sha, proposal, bridge.userExit);
    var expected := Hash(sha, bridge.userExit);
    var got := Hash(sha, proposal);
    v := if expected != got then Fail(CtvTemplateMismatch(expected, got)) else Pass;
  }
}
