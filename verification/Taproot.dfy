/** The script trees of src/covenant/taproot.rs and what a Merkle root says
    about the tree it came from. */
module Taproot {
  import opened Bytes
  import opened Encoding

  datatype TapLeaf = TapLeaf(version: byte, script: Script)

  datatype TapTree = Leaf(leaf: TapLeaf) | Branch(left: TapTree, right: TapTree)

  function MerkleRoot(sha: Sha256, t: TapTree): Bytes32 {
    match t
    case Leaf(leaf) => TaggedHash(sha, TAP_LEAF, LeafMessage(leaf.script))
    case Branch(l, r) => TaggedHash(sha, TAP_BRANCH, SortedPair(MerkleRoot(sha, l), MerkleRoot(sha, r)))
  }

  /** The recursion of `merkle_root`, through the hashing code. */
  method ComputeMerkleRoot(sha: Sha256, t: TapTree) returns (root: Bytes32)
    ensures root == MerkleRoot(sha, t)
    ensures t.Leaf? ==>
              root == sha(sha(TAP_LEAF) + sha(TAP_LEAF) + [0xc0] + CompactSize(|t.leaf.script|) + t.leaf.script)
    ensures t.Branch? ==>
              var l, r := MerkleRoot(sha, t.left), MerkleRoot(sha, t.right);
              && (BE(l) <= BE(r) ==> root == sha(sha(TAP_BRANCH) + sha(TAP_BRANCH) + l + r))
              && (BE(r) <= BE(l) ==> root == sha(sha(TAP_BRANCH) + sha(TAP_BRANCH) + r + l))
    decreases t
  {
    hide BE, CompactSize, TaggedHash, SortedPair, LeafMessage;
    match t
    case Leaf(leaf) => root := TapleafHash(sha, leaf.script);
    case Branch(l, r) =>
      var left := ComputeMerkleRoot(sha, l);
      var right := ComputeMerkleRoot(sha, r);
      root := TapbranchHash(sha, left, right);
  }

  /** The children of a branch are sorted before they are hashed. */
  lemma BranchSwap(sha: Sha256, l: TapTree, r: TapTree)
    ensures MerkleRoot(sha, Branch(l, r)) == MerkleRoot(sha, Branch(r, l))
  {
    hide SortedPair, TaggedHash;
    SortedPairCommutes(MerkleRoot(sha, l), MerkleRoot(sha, r));
  }

  function Max(a: nat, b: nat): nat {
    if a > b then a else b
  }

  function Depth(t: TapTree): nat {
    match t
    case Leaf(_) => 0
    case Branch(l, r) => 1 + Max(Depth(l), Depth(r))
  }

  /** One tree becomes the other by swapping children at branches.  The leaf
      version is not hashed by the code, so leaves are compared by script. */
  ghost predicate SwapEquivalent(s: TapTree, t: TapTree) {
    match (s, t)
    case (Leaf(a), Leaf(b)) => a.script == b.script
    case (Branch(a, b), Branch(c, d)) =>
      || (SwapEquivalent(a, c) && SwapEquivalent(b, d))
      || (SwapEquivalent(a, d) && SwapEquivalent(b, c))
    case _ => false
  }

  /** The two tags. */
  ghost const TAGS: set<Bytes> := {TAP_LEAF, TAP_BRANCH}

  /** The string whose hash is the root. */
  function RootMessage(sha: Sha256, t: TapTree): Bytes {
    match t
    case Leaf(leaf) => TaggedMessage(sha, TAP_LEAF, LeafMessage(leaf.script))
    case Branch(l, r) => TaggedMessage(sha, TAP_BRANCH, SortedPair(MerkleRoot(sha, l), MerkleRoot(sha, r)))
  }

  /** Every string hashed on the way to the root. */
  ghost function Hashed(sha: Sha256, t: TapTree): set<Bytes> {
    TAGS + {RootMessage(sha, t)} +
    match t
    case Leaf(_) => {}
    case Branch(l, r) => Hashed(sha, l) + Hashed(sha, r)
  }

  /** A collision between strings of two given collections. */
  ghost predicate CollisionBetween(sha: Sha256, xs: set<Bytes>, ys: set<Bytes>) {
    exists x, y :: x in xs && y in ys && Collides(sha, x, y)
  }

  lemma CollisionWidens(sha: Sha256, xs: set<Bytes>, ys: set<Bytes>, xs': set<Bytes>, ys': set<Bytes>)
    requires xs <= xs' && ys <= ys' && CollisionBetween(sha, xs, ys)
    ensures CollisionBetween(sha, xs', ys')
  {
    var x, y :| x in xs && y in ys && Collides(sha, x, y);
    assert x in xs' && y in ys' && Collides(sha, x, y);
  }

  // ----- equivalent trees have one root ------------------------------------

  /** Swapping children changes neither the root nor the depth that `build`
      limits to 128. */
  lemma {:induction false} EquivalentTreesAgree(sha: Sha256, s: TapTree, t: TapTree)
    requires SwapEquivalent(s, t)
    ensures MerkleRoot(sha, s) == MerkleRoot(sha, t) && Depth(s) == Depth(t)
    decreases s
  {
    match (s, t) {
      case (Branch(a, b), Branch(c, d)) =>
        if SwapEquivalent(a, c) && SwapEquivalent(b, d) {
          EquivalentTreesAgree(sha, a, c);
          EquivalentTreesAgree(sha, b, d);
        } else {
          EquivalentTreesAgree(sha, a, d);
          EquivalentTreesAgree(sha, b, c);
        }
        SortedPairIff(MerkleRoot(sha, a), MerkleRoot(sha, b), MerkleRoot(sha, c), MerkleRoot(sha, d));
      case (Leaf(a), Leaf(b)) =>
    }
  }

  // ----- one root means equivalent trees, or a collision -------------------

  lemma TagsDiffer()
    ensures TAP_LEAF != TAP_BRANCH
  {
    assert |TAP_LEAF| != |TAP_BRANCH|;
  }

  /** Roots that agree without colliding come from trees of the same shape with
      the same message at the top. */
  lemma TopOfTrees(sha: Sha256, s: TapTree, t: TapTree)
    requires MerkleRoot(sha, s) == MerkleRoot(sha, t)
    ensures || CollisionBetween(sha, Hashed(sha, s), Hashed(sha, t))
            || (s.Leaf? && t.Leaf? && s.leaf.script == t.leaf.script)
            || (s.Branch? && t.Branch?
                && SortedPair(MerkleRoot(sha, s.left), MerkleRoot(sha, s.right))
                == SortedPair(MerkleRoot(sha, t.left), MerkleRoot(sha, t.right)))
  {
    var x, y := RootMessage(sha, s), RootMessage(sha, t);
    assert sha(x) == sha(y) && x in Hashed(sha, s) && y in Hashed(sha, t);
    if x != y {
      assert Collides(sha, x, y);
    } else {
      var p, q := TopTag(s), TopTag(t);
      TaggedMessageInjective(sha, p, q, TopMessage(sha, s), TopMessage(sha, t));
      if p != q {
        assert p in Hashed(sha, s) && q in Hashed(sha, t) && Collides(sha, p, q);
      } else if s.Leaf? {
        TagsDiffer();
        LeafMessageInjective(s.leaf.script, t.leaf.script);
      } else {
        TagsDiffer();
      }
    }
  }

  function TopTag(t: TapTree): Bytes {
    if t.Leaf? then TAP_LEAF else TAP_BRANCH
  }

  function TopMessage(sha: Sha256, t: TapTree): (m: Bytes)
    ensures RootMessage(sha, t) == TaggedMessage(sha, TopTag(t), m)
  {
    match t
    case Leaf(leaf) => LeafMessage(leaf.script)
    case Branch(l, r) => SortedPair(MerkleRoot(sha, l), MerkleRoot(sha, r))
  }

  lemma ChildCollides(sha: Sha256, s: TapTree, t: TapTree, s': TapTree, t': TapTree)
    requires s.Branch? && t.Branch? && (s' == s.left || s' == s.right) && (t' == t.left || t' == t.right)
    requires CollisionBetween(sha, Hashed(sha, s'), Hashed(sha, t'))
    ensures CollisionBetween(sha, Hashed(sha, s), Hashed(sha, t))
  {
    CollisionWidens(sha, Hashed(sha, s'), Hashed(sha, t'), Hashed(sha, s), Hashed(sha, t));
  }

  /** Trees with equal roots are swap-equivalent, or two different strings that
      were hashed to compute the roots have one hash. */
  lemma {:induction false} RootBinds(sha: Sha256, s: TapTree, t: TapTree)
    requires MerkleRoot(sha, s) == MerkleRoot(sha, t)
    ensures SwapEquivalent(s, t) || CollisionBetween(sha, Hashed(sha, s), Hashed(sha, t))
    decreases s, 0
  {
    TopOfTrees(sha, s, t);
    if s.Branch? && !CollisionBetween(sha, Hashed(sha, s), Hashed(sha, t)) {
      hide MerkleRoot, Hashed, CollisionBetween;
      SortedPairIff(MerkleRoot(sha, s.left), MerkleRoot(sha, s.right), MerkleRoot(sha, t.left), MerkleRoot(sha, t.right));
      if MerkleRoot(sha, s.left) == MerkleRoot(sha, t.left) && MerkleRoot(sha, s.right) == MerkleRoot(sha, t.right) {
        ChildBinds(sha, s, t, s.left, t.left);
        ChildBinds(sha, s, t, s.right, t.right);
      } else {
        ChildBinds(sha, s, t, s.left, t.right);
        ChildBinds(sha, s, t, s.right, t.left);
      }
    }
  }

  lemma {:induction false} ChildBinds(sha: Sha256, s: TapTree, t: TapTree, s': TapTree, t': TapTree)
    requires s.Branch? && t.Branch? && (s' == s.left || s' == s.right) && (t' == t.left || t' == t.right)
    requires MerkleRoot(sha, s') == MerkleRoot(sha, t')
    requires !CollisionBetween(sha, Hashed(sha, s), Hashed(sha, t))
    ensures SwapEquivalent(s', t')
    decreases s', 1
  {
    hide MerkleRoot, Hashed, CollisionBetween;
    RootBinds(sha, s', t');
    if CollisionBetween(sha, Hashed(sha, s'), Hashed(sha, t')) {
      ChildCollides(sha, s, t, s', t');
    }
  }
}
