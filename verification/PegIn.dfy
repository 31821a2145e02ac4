/** The two-leaf peg tree of src/bridge/peg_in.rs: what a peg address says about
    the deposit it was created for. */
module PegIn {
  import opened Bytes
  import opened Encoding
  import opened Ctv
  import opened Taproot
  import opened Wrappers

  const DUST_P2TR: nat := 546
  const EXIT_TIMELOCK_BLOCKS: nat := 144
  const OP_CTV: byte := 0xb3

  /** `build_tapscript_ctv_leaf`: push the template hash, then OP_CTV. */
  function CtvLeaf(hash: Bytes32): Script {
    [0x20] + hash + [OP_CTV]
  }

  method BuildTapscriptCtvLeaf(hash: Bytes32) returns (script: Script)
    ensures script == CtvLeaf(hash)
    ensures |script| == 34 && script[0] == 0x20 && script[1..33] == hash && script[33] == 0xb3
  {
    var s := new ByteBuffer();
    s.Push(0x20);
    s.Extend(hash);
    s.Push(OP_CTV);
    assert s.bytes == CtvLeaf(hash);
    script := s.bytes;
  }

  lemma CtvLeafInjective(g: Bytes32, h: Bytes32)
    requires CtvLeaf(g) == CtvLeaf(h)
    ensures g == h
  {
    assert CtvLeaf(g)[1..33] == g && CtvLeaf(h)[1..33] == h;
  }

  function PegTree(sha: Sha256, sequencer: CtvTemplate, exit: CtvTemplate): TapTree {
    Branch(Leaf(TapLeaf(0xc0, CtvLeaf(TemplateHash(sha, sequencer)))),
           Leaf(TapLeaf(0xc0, CtvLeaf(TemplateHash(sha, exit)))))
  }

  /** The hash of a 34-byte leaf script around a template hash. */
  function LeafOf(sha: Sha256, t: CtvTemplate): Bytes32 {
    sha(sha(TAP_LEAF) + sha(TAP_LEAF) + [0xc0] + [34] + ([0x20] + TemplateHash(sha, t) + [0xb3]))
  }

  /** The peg root, spelled out: the two leaf hashes under the branch tag, the
      numerically smaller first. */
  lemma PegRootExact(sha: Sha256, sequencer: CtvTemplate, exit: CtvTemplate)
    ensures var root, s, e := MerkleRoot(sha, PegTree(sha, sequencer, exit)), LeafOf(sha, sequencer), LeafOf(sha, exit);
            && (BE(s) <= BE(e) ==> root == sha(sha(TAP_BRANCH) + sha(TAP_BRANCH) + s + e))
            && (BE(e) <= BE(s) ==> root == sha(sha(TAP_BRANCH) + sha(TAP_BRANCH) + e + s))
  {
    hide TemplateHash, TaggedHash, LeafMessage, CompactSize, SortedPair, BE;
    var s, e := TemplateHash(sha, sequencer), TemplateHash(sha, exit);
    CompactSizeExact(34);
    LeafHashExact(sha, CtvLeaf(s));
    LeafHashExact(sha, CtvLeaf(e));
    BranchHashExact(sha, LeafOf(sha, sequencer), LeafOf(sha, exit));
  }

  // ----- equal roots, equal templates --------------------------------------

  ghost function TemplateStrings(sha: Sha256, t: CtvTemplate): set<Bytes> {
    {Preimage(sha, t), SerialiseSequences(t.sequences), SerialiseOutputs(t.outputs)}
  }

  /** Every string hashed on the way from two templates to their peg root. */
  ghost function PegStrings(sha: Sha256, sequencer: CtvTemplate, exit: CtvTemplate): set<Bytes> {
    Hashed(sha, PegTree(sha, sequencer, exit)) + TemplateStrings(sha, sequencer) + TemplateStrings(sha, exit)
  }

  lemma TemplatesBind(sha: Sha256, a: CtvTemplate, b: CtvTemplate, xs: set<Bytes>, ys: set<Bytes>)
    requires TemplateHash(sha, a) == TemplateHash(sha, b)
    requires TemplateStrings(sha, a) <= xs && TemplateStrings(sha, b) <= ys
    ensures SameCommitted(a, b) || CollisionBetween(sha, xs, ys)
  {
    HashBinds(sha, a, b);
  }

  /** Peg trees with equal roots were built from the same unordered pair of
      templates, or two different strings hashed on the way have one hash. */
  lemma PegRootBinds(sha: Sha256, a: CtvTemplate, b: CtvTemplate, c: CtvTemplate, d: CtvTemplate)
    requires MerkleRoot(sha, PegTree(sha, a, b)) == MerkleRoot(sha, PegTree(sha, c, d))
    ensures || (SameCommitted(a, c) && SameCommitted(b, d))
            || (SameCommitted(a, d) && SameCommitted(b, c))
            || CollisionBetween(sha, PegStrings(sha, a, b), PegStrings(sha, c, d))
  {
    var s, t := PegTree(sha, a, b), PegTree(sha, c, d);
    var xs, ys := PegStrings(sha, a, b), PegStrings(sha, c, d);
    RootBinds(sha, s, t);
    if !SwapEquivalent(s, t) {
      CollisionWidens(sha, Hashed(sha, s), Hashed(sha, t), xs, ys);
    } else {
      hide MerkleRoot, Hashed, CollisionBetween, TemplateStrings;
      LeavesBind(sha, a, b, c, d);
      if TemplateHash(sha, a) == TemplateHash(sha, c) && TemplateHash(sha, b) == TemplateHash(sha, d) {
        TemplatesBind(sha, a, c, xs, ys);
        TemplatesBind(sha, b, d, xs, ys);
      } else {
        TemplatesBind(sha, a, d, xs, ys);
        TemplatesBind(sha, b, c, xs, ys);
      }
    }
  }

  lemma LeavesBind(sha: Sha256, a: CtvTemplate, b: CtvTemplate, c: CtvTemplate, d: CtvTemplate)
    requires SwapEquivalent(PegTree(sha, a, b), PegTree(sha, c, d))
    ensures var h := t => TemplateHash(sha, t);
            (h(a) == h(c) && h(b) == h(d)) || (h(a) == h(d) && h(b) == h(c))
  {
    hide TemplateHash, CtvLeaf;
    var h := t => TemplateHash(sha, t);
    if CtvLeaf(h(a)) == CtvLeaf(h(c)) && CtvLeaf(h(b)) == CtvLeaf(h(d)) {
      CtvLeafInjective(h(a), h(c));
      CtvLeafInjective(h(b), h(d));
    } else {
      CtvLeafInjective(h(a), h(d));
      CtvLeafInjective(h(b), h(c));
    }
  }

  ghost predicate SamePair(a: CtvTemplate, b: CtvTemplate, c: CtvTemplate, d: CtvTemplate) {
    (SameCommitted(a, c) && SameCommitted(b, d)) || (SameCommitted(a, d) && SameCommitted(b, c))
  }

  lemma PegRootAgrees(sha: Sha256, a: CtvTemplate, b: CtvTemplate, c: CtvTemplate, d: CtvTemplate)
    requires SamePair(a, b, c, d)
    ensures MerkleRoot(sha, PegTree(sha, a, b)) == MerkleRoot(sha, PegTree(sha, c, d))
  {
    hide TemplateHash, CtvLeaf, MerkleRoot;
    HashBinds(sha, a, c);
    HashBinds(sha, b, d);
    HashBinds(sha, a, d);
    HashBinds(sha, b, c);
    var t := PegTree(sha, a, b);
    BranchSwap(sha, t.left, t.right);
  }

  /** Peg roots agree exactly for the same unordered pair of templates, unless
      two different strings hashed on the way have one hash. */
  lemma PegRootIff(sha: Sha256, a: CtvTemplate, b: CtvTemplate, c: CtvTemplate, d: CtvTemplate)
    ensures || (MerkleRoot(sha, PegTree(sha, a, b)) == MerkleRoot(sha, PegTree(sha, c, d)) <==> SamePair(a, b, c, d))
            || CollisionBetween(sha, PegStrings(sha, a, b), PegStrings(sha, c, d))
    ensures SamePair(a, b, c, d) ==>
              MerkleRoot(sha, PegTree(sha, a, b)) == MerkleRoot(sha, PegTree(sha, c, d))
  {
    hide MerkleRoot, CollisionBetween, PegStrings, PegTree, SameCommitted;
    if SamePair(a, b, c, d) {
      PegRootAgrees(sha, a, b, c, d);
    } else if MerkleRoot(sha, PegTree(sha, a, b)) == MerkleRoot(sha, PegTree(sha, c, d)) {
      PegRootBinds(sha, a, b, c, d);
    }
  }

  // ----- create_peg_address ------------------------------------------------

  /** Subtract a fee, or leave the amount alone if it is smaller than the fee. */
  function LessFee(amount: u64, fee: nat): u64 {
    if amount >= fee then amount - fee else amount
  }

  /** `keyPath` is the script of the key-path-only output both templates pay. */
  function SequencerTemplate(amount: u64, keyPath: Script, recipient: string): CtvTemplate {
    CtvTemplate(2, 0, [0xffff_fffe], [TxOutput(LessFee(amount, 1_000), keyPath)], 0,
                Some("sequencer-update:" + recipient))
  }

  function ExitTemplate(amount: u64, height: nat, keyPath: Script, recipient: string): CtvTemplate
    requires height + EXIT_TIMELOCK_BLOCKS < 0x1_0000_0000
  {
    CtvTemplate(2, height + EXIT_TIMELOCK_BLOCKS, [EXIT_TIMELOCK_BLOCKS],
                [TxOutput(LessFee(amount, 500), keyPath)], 0, Some("user-exit:" + recipient))
  }

  /** The two templates in full.  The sequencer path pays a deposit below its fee
      out whole; the exit is locked for 144 blocks, absolutely and relatively. */
  lemma TemplatesExact(amount: u64, height: nat, keyPath: Script, recipient: string)
    requires amount >= 546 && height + EXIT_TIMELOCK_BLOCKS < 0x1_0000_0000
    ensures SequencerTemplate(amount, keyPath, recipient)
         == CtvTemplate(2, 0, [0xffff_fffe], [TxOutput(if amount < 1_000 then amount else amount - 1_000, keyPath)], 0,
                        Some("sequencer-update:" + recipient))
    ensures ExitTemplate(amount, height, keyPath, recipient)
         == CtvTemplate(2, height + 144, [144], [TxOutput(amount - 500, keyPath)], 0, Some("user-exit:" + recipient))
  {
  }

  function TotalOutputValue(t: CtvTemplate): nat {
    Total(t.outputs)
  }

  function Total(os: seq<TxOutput>): nat {
    if os == [] then 0 else os[0].value + Total(os[1..])
  }

  /** The exit path always pays the deposit less its 500 sat fee; the sequencer
      path pays the deposit less its 1000 sat fee exactly when the deposit
      covers that fee, and otherwise the whole deposit. */
  lemma FeesIff(amount: u64, height: nat, keyPath: Script, recipient: string)
    requires amount >= DUST_P2TR && height + EXIT_TIMELOCK_BLOCKS < 0x1_0000_0000
    ensures TotalOutputValue(ExitTemplate(amount, height, keyPath, recipient)) == amount - 500
    ensures TotalOutputValue(SequencerTemplate(amount, keyPath, recipient)) + 1_000 == amount <==> amount >= 1_000
    ensures amount < 1_000 ==> TotalOutputValue(SequencerTemplate(amount, keyPath, recipient)) == amount
  {
    var s, e := SequencerTemplate(amount, keyPath, recipient), ExitTemplate(amount, height, keyPath, recipient);
    assert Total(s.outputs[1..]) == 0 && Total(e.outputs[1..]) == 0;
  }

  datatype PegAddress = BelowDust(amount: nat, threshold: nat) | Peg(root: Bytes32, bridge: CtvBridgeTemplate)

  function PegRoot(sha: Sha256, amount: u64, height: nat, keyPath: Script, recipient: string): Bytes32
    requires height + EXIT_TIMELOCK_BLOCKS < 0x1_0000_0000
  {
    MerkleRoot(sha, PegTree(sha, SequencerTemplate(amount, keyPath, recipient),
                            ExitTemplate(amount, height, keyPath, recipient)))
  }

  /** `create_peg_address` up to the Merkle root. */
  method CreatePegAddress(sha: Sha256, recipient: string, amount: u64, height: nat, keyPath: Script)
    returns (r: PegAddress)
    requires height + EXIT_TIMELOCK_BLOCKS < 0x1_0000_0000
    ensures amount < DUST_P2TR <==> r == BelowDust(amount, DUST_P2TR)
    ensures amount >= DUST_P2TR ==>
              && r.Peg?
              && r.root == PegRoot(sha, amount, height, keyPath, recipient)
              && r.bridge == CtvBridgeTemplate(SequencerTemplate(amount, keyPath, recipient),
                                               ExitTemplate(amount, height, keyPath, recipient),
                                               height + EXIT_TIMELOCK_BLOCKS)
    ensures amount < 546 ==> r == BelowDust(amount, 546)
    ensures amount >= 546 ==>
              && r.Peg? && r.bridge.exitAfterHeight == r.bridge.userExit.nlocktime == height + 144
              && r.bridge.userExit.sequences == [144]
              && r.bridge.userExit.outputs == [TxOutput(amount - 500, keyPath)]
              && r.bridge.sequencerUpdate.nlocktime == 0
              && r.bridge.sequencerUpdate.outputs
                 == [TxOutput(if amount < 1_000 then amount else amount - 1_000, keyPath)]
  {
    if amount < DUST_P2TR {
      return BelowDust(amount, DUST_P2TR);
    }
    TemplatesExact(amount, height, keyPath, recipient);
    hide MerkleRoot, TemplateHash, CtvLeaf, LessFee;
    var exitHeight := height + EXIT_TIMELOCK_BLOCKS;
    var sequencer := SequencerTemplate(amount, keyPath, recipient);
    var exit := ExitTemplate(amount, height, keyPath, recipient);
    var seqHash := Hash(sha, sequencer);
    var exitHash := Hash(sha, exit);
    var seqLeaf := BuildTapscriptCtvLeaf(seqHash);
    var exitLeaf := BuildTapscriptCtvLeaf(exitHash);
    var tree := Branch(Leaf(TapLeaf(0xc0, seqLeaf)), Leaf(TapLeaf(0xc0, exitLeaf)));
    var root := ComputeMerkleRoot(sha, tree);
    r := Peg(root, CtvBridgeTemplate(sequencer, exit, exitHeight));
  }

  /** A peg root determines the deposited amount and the height it was created
      at, but not the recipient, unless hashes collide. */
  lemma PegAddressBinds(sha: Sha256, keyPath: Script, amount: u64, height: nat, recipient: string,
                        amount': u64, height': nat, recipient': string)
    requires amount >= DUST_P2TR && amount' >= DUST_P2TR
    requires height + EXIT_TIMELOCK_BLOCKS < 0x1_0000_0000 && height' + EXIT_TIMELOCK_BLOCKS < 0x1_0000_0000
    ensures amount == amount' && height == height' ==>
              PegRoot(sha, amount, height, keyPath, recipient) == PegRoot(sha, amount', height', keyPath, recipient')
    ensures PegRoot(sha, amount, height, keyPath, recipient) == PegRoot(sha, amount', height', keyPath, recipient') ==>
              || (amount == amount' && height == height')
              || CollisionBetween(sha,
                   PegStrings(sha, SequencerTemplate(amount, keyPath, recipient),
                              ExitTemplate(amount, height, keyPath, recipient)),
                   PegStrings(sha, SequencerTemplate(amount', keyPath, recipient'),
                              ExitTemplate(amount', height', keyPath, recipient')))
  {
    hide MerkleRoot, CollisionBetween, PegStrings;
    var a, b := SequencerTemplate(amount, keyPath, recipient), ExitTemplate(amount, height, keyPath, recipient);
    var c, d := SequencerTemplate(amount', keyPath, recipient'), ExitTemplate(amount', height', keyPath, recipient');
    if amount == amount' && height == height' {
      PegRootAgrees(sha, a, b, c, d);
    } else if PegRoot(sha, amount, height, keyPath, recipient) == PegRoot(sha, amount', height', keyPath, recipient') {
      PegRootBinds(sha, a, b, c, d);
      assert !SameCommitted(a, d) by { assert a.nlocktime != d.nlocktime; }
      if SameCommitted(b, d) {
        assert b.nlocktime == d.nlocktime && b.outputs[0].value == d.outputs[0].value;
      }
    }
  }
}
