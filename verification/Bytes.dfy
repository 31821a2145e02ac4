/** Bytes, machine integers and their encodings. */
module Bytes {
  import opened Arith

  type byte = n: nat | n < 256
  type u32 = n: nat | n < 0x1_0000_0000
  type u64 = n: nat | n < 0x1_0000_0000_0000_0000
  type u128 = n: nat | n < 0x1_0000_0000_0000_0000_0000_0000_0000_0000
  type Bytes = seq<byte>

  /** A zero-filled buffer. */
  function Zeros(k: nat): (s: Bytes)
    ensures |s| == k && forall i :: 0 <= i < k ==> s[i] == 0
  {
    if k == 0 then [] else Zeros(k - 1) + [0]
  }

  /** A 32-byte array: `Hash256`, `TxId`, `XOnlyPubKey` and `U256` alike. */
  type Bytes32 = s: Bytes | |s| == 32 witness Zeros(32)

  /** A contract address. */
  type Address = s: Bytes | |s| == 20 witness Zeros(20)

  /** SHA-256, kept as an arbitrary total function. */
  type Sha256 = Bytes -> Bytes32

  /** Two different strings with one hash. */
  ghost predicate Collides(sha: Sha256, x: Bytes, y: Bytes) {
    x != y && sha(x) == sha(y)
  }

  function Sha256d(sha: Sha256, data: Bytes): Bytes32 {
    sha(sha(data))
  }

  // ----- big-endian values -------------------------------------------------

  /** The number a big-endian byte string denotes. */
  function BE(s: Bytes): nat {
    if |s| == 0 then 0 else 256 * BE(s[..|s| - 1]) + s[|s| - 1]
  }

  /** The `k` low bytes of `n`, most significant first. */
  function ToBE(n: nat, k: nat): (s: Bytes)
    ensures |s| == k
    decreases k
  {
    if k == 0 then [] else ToBE(n / 256, k - 1) + [n % 256]
  }

  lemma {:induction false} BEBound(s: Bytes)
    ensures BE(s) < Pow(256, |s|)
  {
    if |s| > 0 {
      BEBound(s[..|s| - 1]);
    }
  }

  lemma {:induction false} BEAppend(s: Bytes, t: Bytes)
    ensures BE(s + t) == BE(s) * Pow(256, |t|) + BE(t)
  {
    if |t| == 0 {
      assert s + t == s;
    } else {
      var p := t[..|t| - 1];
      assert (s + t)[..|s + t| - 1] == s + p;
      BEAppend(s, p);
      assert BE(s) * Pow(256, |t|) == 256 * (BE(s) * Pow(256, |p|));
    }
  }

  /** Equal-length strings with equal values are equal. */
  lemma {:induction false} BEInjective(s: Bytes, t: Bytes)
    requires |s| == |t| && BE(s) == BE(t)
    ensures s == t
  {
    if |s| > 0 {
      BEInjective(s[..|s| - 1], t[..|t| - 1]);
      assert s == s[..|s| - 1] + [s[|s| - 1]];
      assert t == t[..|t| - 1] + [t[|t| - 1]];
    }
  }

  lemma {:induction false} BEToBE(n: nat, k: nat)
    requires n < Pow(256, k)
    ensures BE(ToBE(n, k)) == n
    decreases k
  {
    if k > 0 {
      BEToBE(n / 256, k - 1);
    }
  }

  lemma ToBEBE(s: Bytes)
    ensures ToBE(BE(s), |s|) == s
  {
    BEBound(s);
    BEToBE(BE(s), |s|);
    BEInjective(s, ToBE(BE(s), |s|));
  }

  /** Replacing one byte moves the value by its weighted difference. */
  lemma {:induction false} BEUpdate(s: Bytes, j: nat, v: byte)
    requires j < |s|
    ensures BE(s[j := v]) == BE(s) + (v - s[j]) * Pow(256, |s| - 1 - j)
  {
    var n := |s| - 1;
    if j == n {
      assert s[j := v][..n] == s[..n];
    } else {
      assert s[j := v][..n] == s[..n][j := v];
      BEUpdate(s[..n], j, v);
      var d, p := v - s[j], Pow(256, n - 1 - j);
      assert d * (256 * p) == 256 * (d * p);
    }
  }

  // ----- little-endian values ----------------------------------------------

  /** `to_le_bytes` of a `k`-byte unsigned integer. */
  function ToLE(n: nat, k: nat): (s: Bytes)
    ensures |s| == k
    decreases k
  {
    if k == 0 then [] else [n % 256] + ToLE(n / 256, k - 1)
  }

  /** The number a little-endian byte string denotes. */
  function LE(s: Bytes): nat {
    if |s| == 0 then 0 else s[0] + 256 * LE(s[1..])
  }

  lemma {:induction false} LEBound(s: Bytes)
    ensures LE(s) < Pow(256, |s|)
  {
    if |s| > 0 {
      LEBound(s[1..]);
    }
  }

  lemma {:induction false} LEToLE(n: nat, k: nat)
    requires n < Pow(256, k)
    ensures LE(ToLE(n, k)) == n
    decreases k
  {
    if k > 0 {
      LEToLE(n / 256, k - 1);
      assert ToLE(n, k)[1..] == ToLE(n / 256, k - 1);
    }
  }

  lemma {:induction false} ToLELE(s: Bytes)
    ensures ToLE(LE(s), |s|) == s
  {
    if |s| > 0 {
      ToLELE(s[1..]);
      assert LE(s) % 256 == s[0] && LE(s) / 256 == LE(s[1..]);
      assert s == [s[0]] + s[1..];
    }
  }

  /** The bytes back to front. */
  function Reversed(s: Bytes): (r: Bytes)
    ensures |r| == |s|
  {
    if |s| == 0 then [] else [s[|s| - 1]] + Reversed(s[..|s| - 1])
  }

  /** Reversing a big-endian string makes it little-endian. */
  lemma {:induction false} LEReversed(s: Bytes)
    ensures LE(Reversed(s)) == BE(s)
  {
    if |s| > 0 {
      LEReversed(s[..|s| - 1]);
      assert Reversed(s)[1..] == Reversed(s[..|s| - 1]);
    }
  }

  lemma ReversedInjective(s: Bytes, t: Bytes)
    requires |s| == |t| && Reversed(s) == Reversed(t)
    ensures s == t
  {
    LEReversed(s);
    LEReversed(t);
    BEInjective(s, t);
  }

  /** The widths the encodings use. */
  lemma PowWidths()
    ensures Pow(256, 1) == 0x100
    ensures Pow(256, 2) == 0x1_0000
    ensures Pow(256, 4) == 0x1_0000_0000
    ensures Pow(256, 8) == 0x1_0000_0000_0000_0000
    ensures Pow(256, 32) == 0x1_00000000_00000000_00000000_00000000_00000000_00000000_00000000_00000000
  {
    assert Pow(256, 1) == 256 * Pow(256, 0);
    PowAdd(256, 1, 1);
    PowAdd(256, 2, 2);
    PowAdd(256, 4, 4);
    PowAdd(256, 8, 8);
    PowAdd(256, 16, 16);
  }

  // ----- lexicographic order -----------------------------------------------

  /** The order Rust derives for byte arrays: `a <= b` decided at the first
      difference. */
  predicate LexLe(a: Bytes, b: Bytes)
    decreases |a|
  {
    if |a| == 0 then true
    else if |b| == 0 then false
    else if a[0] != b[0] then a[0] < b[0]
    else LexLe(a[1..], b[1..])
  }

  /** A leading byte dominates the rest of the string. */
  lemma {:induction false} BEHead(a: Bytes)
    requires |a| > 0
    ensures BE(a) == a[0] * Pow(256, |a| - 1) + BE(a[1..])
    ensures a[0] * Pow(256, |a| - 1) <= BE(a) < (a[0] + 1) * Pow(256, |a| - 1)
  {
    BEBound(a[1..]);
    if |a| > 1 {
      var n := |a| - 1;
      BEHead(a[..n]);
      assert a[..n][1..] == a[1..][..n - 1];
      MulAssoc(a[0], 256, Pow(256, n - 1));
    }
  }

  /** On arrays of one length the derived order is numeric order. */
  lemma {:induction false} LexIsNumeric(a: Bytes, b: Bytes)
    requires |a| == |b|
    ensures LexLe(a, b) <==> BE(a) <= BE(b)
    decreases |a|
  {
    if |a| > 0 {
      BEHead(a);
      BEHead(b);
      var p := Pow(256, |a| - 1);
      if a[0] < b[0] {
        MulMonotone(a[0] + 1, b[0], p);
      } else if b[0] < a[0] {
        MulMonotone(b[0] + 1, a[0], p);
      } else {
        LexIsNumeric(a[1..], b[1..]);
      }
    }
  }

  /** Two hashes in canonical order, whichever order they come in. */
  function SortedPair(a: Bytes32, b: Bytes32): Bytes {
    if LexLe(a, b) then a + b else b + a
  }

  /** Sorting forgets the order of a pair and nothing else. */
  lemma SortedPairIff(a: Bytes32, b: Bytes32, c: Bytes32, d: Bytes32)
    ensures SortedPair(a, b) == SortedPair(c, d) <==> (a == c && b == d) || (a == d && b == c)
  {
    SortedPairCommutes(a, b);
    SortedPairHalves(a, b);
    SortedPairHalves(c, d);
  }

  lemma SortedPairCommutes(a: Bytes32, b: Bytes32)
    ensures SortedPair(a, b) == SortedPair(b, a)
  {
    LexIsNumeric(a, b);
    LexIsNumeric(b, a);
    if LexLe(a, b) && LexLe(b, a) {
      BEInjective(a, b);
    }
  }

  lemma SortedPairHalves(a: Bytes32, b: Bytes32)
    ensures var s := SortedPair(a, b);
            (s[..32] == a && s[32..] == b) || (s[..32] == b && s[32..] == a)
  {
  }

  /** Equal concatenations of equally long heads split alike. */
  lemma SplitConcat(a: Bytes, b: Bytes, c: Bytes, d: Bytes)
    requires a + b == c + d && |a| == |c|
    ensures a == c && b == d
  {
    assert (a + b)[..|a|] == a && (a + b)[|a|..] == b;
    assert (c + d)[..|c|] == c && (c + d)[|c|..] == d;
  }
}
