/** The 256-bit integers of src/types.rs: big-endian byte arrays, computed on
    through four 64-bit limbs (least significant first) or bit by bit.

    Every operation is proved against the number its byte array denotes,
    `BE(word)`, so the rest of the project can compute with integers modulo
    2^256. */
module U256 {
  import opened Arith
  import opened Bytes

  type Word = Bytes32

  const B64: nat := 0x1_0000_0000_0000_0000
  const MODULUS: nat := 0x1_00000000_00000000_00000000_00000000_00000000_00000000_00000000_00000000

  const ZERO: Word := Zeros(32)
  const ONE: Word := Zeros(31) + [1]

  lemma WordBound(w: Word)
    ensures BE(w) < MODULUS
  {
    BEBound(w);
    PowWidths();
  }

  lemma {:induction false} BEZeros(s: Bytes)
    requires forall i :: 0 <= i < |s| ==> s[i] == 0
    ensures BE(s) == 0
  {
    if |s| > 0 {
      BEZeros(s[..|s| - 1]);
    }
  }

  /** The two constants denote 0 and 1, and only they do. */
  lemma ConstantValues(w: Word)
    ensures BE(ZERO) == 0 && BE(ONE) == 1
    ensures w == ZERO <==> BE(w) == 0
  {
    BEZeros(ZERO);
    BEZeros(ONE[..31]);
    if BE(w) == 0 {
      BEInjective(w, ZERO);
    }
  }

  // ----- conversions -------------------------------------------------------

  function FromU64(value: u64): Word {
    Zeros(24) + ToBE(value, 8)
  }

  /** `as_u64` and, on a 64-bit target, `as_usize`: the last eight bytes. */
  function AsU64(w: Word): u64 {
    BEBound(w[24..]);
    PowWidths();
    BE(w[24..])
  }

  /** Narrowing keeps the value modulo 2^64. */
  lemma AsU64Value(w: Word)
    ensures AsU64(w) == BE(w) % B64
  {
    assert w == w[..24] + w[24..];
    BEAppend(w[..24], w[24..]);
    PowWidths();
    ModShift(AsU64(w), BE(w[..24]), B64);
  }

  /** Widening is exact, and narrowing undoes it. */
  lemma FromU64Value(value: u64)
    ensures BE(FromU64(value)) == value && AsU64(FromU64(value)) == value
  {
    PowWidths();
    var z := Zeros(24);
    BEZeros(z);
    BEToBE(value, 8);
    BEAppend(z, ToBE(value, 8));
    AsU64Value(FromU64(value));
  }

  // ----- limbs -------------------------------------------------------------

  /** The number a little-endian sequence of limbs denotes. */
  function LV(s: seq<u64>): nat {
    if |s| == 0 then 0 else LV(s[..|s| - 1]) + s[|s| - 1] * Pow(B64, |s| - 1)
  }

  lemma {:induction false} LVBound(s: seq<u64>)
    ensures LV(s) < Pow(B64, |s|)
  {
    if |s| > 0 {
      LVBound(s[..|s| - 1]);
      var p := Pow(B64, |s| - 1);
      var x: int := s[|s| - 1];
      assert x * p + p == (x + 1) * p <= B64 * p by { MulMonotone(x + 1, B64, p); }
    }
  }

  lemma LVPrefix(s: seq<u64>, i: nat)
    requires i < |s|
    ensures LV(s[..i + 1]) == LV(s[..i]) + s[i] * Pow(B64, i)
  {
    assert s[..i + 1][..i] == s[..i];
  }

  lemma {:induction false} LVSplit(s: seq<u64>, k: nat)
    requires k <= |s|
    ensures LV(s) == LV(s[..k]) + Pow(B64, k) * LV(s[k..])
    decreases |s| - k
  {
    if k == |s| {
      assert s[..k] == s;
    } else {
      var n := |s| - 1;
      LVSplit(s[..n], k);
      assert s[..n][..k] == s[..k];
      assert s[k..][..n - k] == s[..n][k..];
      assert LV(s[k..]) == LV(s[..n][k..]) + s[n] * Pow(B64, n - k);
      PowAdd(B64, k, n - k);
      Regroup(Pow(B64, k), LV(s[..n][k..]), s[n], Pow(B64, n - k));
    }
  }

  lemma Regroup(p: int, v: int, x: int, q: int)
    ensures p * (v + x * q) == p * v + x * (p * q)
  {
    assert p * (x * q) == x * (p * q);
  }

  lemma {:induction false} LVUpdate(s: seq<u64>, j: nat, v: u64)
    requires j < |s|
    ensures LV(s[j := v]) == LV(s) + (v - s[j]) * Pow(B64, j)
  {
    var n := |s| - 1;
    if j == n {
      assert s[j := v][..n] == s[..n];
      assert v * Pow(B64, j) == s[j] * Pow(B64, j) + (v - s[j]) * Pow(B64, j);
    } else {
      assert s[j := v][..n] == s[..n][j := v];
      LVUpdate(s[..n], j, v);
    }
  }

  lemma {:induction false} LVZeros(s: seq<u64>)
    requires forall i :: 0 <= i < |s| ==> s[i] == 0
    ensures LV(s) == 0
  {
    if |s| > 0 {
      LVZeros(s[..|s| - 1]);
    }
  }

  lemma LimbModulus()
    ensures Pow(B64, 0) == 1 && Pow(B64, 1) == B64 && Pow(B64, 4) == MODULUS
  {
    assert Pow(B64, 1) == B64 * Pow(B64, 0);
    PowAdd(B64, 1, 1);
    PowAdd(B64, 2, 2);
  }

  /** Limb `i` is the big-endian value of its eight bytes. */
  function Limb(x: Word, i: nat): u64
    requires i < 4
  {
    BEBound(x[(3 - i) * 8..(3 - i) * 8 + 8]);
    PowWidths();
    BE(x[(3 - i) * 8..(3 - i) * 8 + 8])
  }

  function LimbsOf(x: Word): (limbs: seq<u64>) {
    [Limb(x, 0), Limb(x, 1), Limb(x, 2), Limb(x, 3)]
  }

  /** The big-endian bytes of the `n` low limbs. */
  function Joined(limbs: seq<u64>, n: nat): (s: Bytes)
    requires n <= |limbs|
    ensures |s| == 8 * n
  {
    if n == 0 then [] else ToBE(limbs[n - 1], 8) + Joined(limbs, n - 1)
  }

  function WordOf(limbs: seq<u64>): Word
    requires |limbs| == 4
  {
    Joined(limbs, 4)
  }

  lemma {:induction false} JoinedAt(limbs: seq<u64>, n: nat, i: nat)
    requires i < n <= |limbs|
    ensures Joined(limbs, n)[8 * (n - 1 - i)..8 * (n - i)] == ToBE(limbs[i], 8)
  {
    hide ToBE;
    var head, tail := ToBE(limbs[n - 1], 8), Joined(limbs, n - 1);
    if i < n - 1 {
      JoinedAt(limbs, n - 1, i);
      SliceAfter(head, tail, 8 * (n - 2 - i), 8);
    } else {
      SliceHead(head, tail);
    }
  }

  lemma SliceHead(head: Bytes, tail: Bytes)
    ensures (head + tail)[..|head|] == head
    ensures (head + tail)[0..|head|] == head
  {
  }

  lemma SliceAfter(head: Bytes, tail: Bytes, at: nat, n: nat)
    requires at + n <= |tail|
    ensures (head + tail)[at + |head|..at + |head| + n] == tail[at..at + n]
  {
  }

  lemma LVFour(s: seq<u64>)
    requires |s| == 4
    ensures LV(s) == s[0] + B64 * (s[1] + B64 * (s[2] + B64 * s[3]))
  {
    assert s[..4] == s && s[..0] == [];
    LVPrefix(s, 0);
    LVPrefix(s, 1);
    LVPrefix(s, 2);
    LVPrefix(s, 3);
    LimbModulus();
    assert Pow(B64, 2) == B64 * Pow(B64, 1);
    assert Pow(B64, 3) == B64 * Pow(B64, 2);
  }

  /** Appending eight bytes shifts the value by one limb. */
  lemma BEAppendLimb(s: Bytes, t: Bytes)
    requires |t| == 8
    ensures BE(s + t) == BE(s) * B64 + BE(t)
  {
    BEAppend(s, t);
    PowWidths();
  }

  /** Splitting a word into limbs keeps its value. */
  lemma LimbsValue(x: Word)
    ensures LV(LimbsOf(x)) == BE(x)
  {
    assert x == x[..24] + x[24..32];
    assert x[..24] == x[..16] + x[16..24];
    assert x[..16] == x[0..8] + x[8..16];
    BEAppendLimb(x[..24], x[24..32]);
    BEAppendLimb(x[..16], x[16..24]);
    BEAppendLimb(x[0..8], x[8..16]);
    LVFour(LimbsOf(x));
  }

  lemma LimbOfWordOf(limbs: seq<u64>, i: nat)
    requires |limbs| == 4 && i < 4
    ensures Limb(WordOf(limbs), i) == limbs[i]
  {
    hide Joined, ToBE, BE, Pow;
    JoinedAt(limbs, |limbs|, i);
    PowWidths();
    BEToBE(limbs[i], 8);
    assert 8 * (|limbs| - 1 - i) == (3 - i) * 8 && 8 * (|limbs| - i) == (3 - i) * 8 + 8;
  }

  /** Splitting and joining are mutual inverses. */
  lemma LimbsOfWordOf(limbs: seq<u64>)
    requires |limbs| == 4
    ensures LimbsOf(WordOf(limbs)) == limbs
  {
    LimbOfWordOf(limbs, 0);
    LimbOfWordOf(limbs, 1);
    LimbOfWordOf(limbs, 2);
    LimbOfWordOf(limbs, 3);
  }

  lemma WordOfLimbsOf(x: Word)
    ensures WordOf(LimbsOf(x)) == x
  {
    LimbsValue(x);
    WordValue(LimbsOf(x));
    BEInjective(WordOf(LimbsOf(x)), x);
  }

  lemma WordValue(limbs: seq<u64>)
    requires |limbs| == 4
    ensures BE(WordOf(limbs)) == LV(limbs)
  {
    LimbsValue(WordOf(limbs));
    LimbsOfWordOf(limbs);
  }

  method ToLimbs(x: Word) returns (limbs: seq<u64>)
    ensures limbs == LimbsOf(x) && |limbs| == 4
  {
    var buf := new u64[4](i => 0);
    for i := 0 to 4
      invariant forall k :: 0 <= k < i ==> buf[k] == Limb(x, k)
    {
      buf[i] := Limb(x, i);
    }
    limbs := buf[..];
  }

  /** `copy_from_slice` into part of a buffer. */
  method CopyFromSlice(bytes: array<byte>, start: nat, src: Bytes)
    requires start + |src| <= bytes.Length
    modifies bytes
    ensures bytes[..] == old(bytes[..start]) + src + old(bytes[start + |src|..])
  {
    forall j | 0 <= j < |src| {
      bytes[start + j] := src[j];
    }
  }

  lemma CopiedSuffix(before: Bytes, start: nat, src: Bytes, after: Bytes)
    requires start + |src| <= |before|
    requires after == before[..start] + src + before[start + |src|..]
    ensures after[start..] == src + before[start + |src|..]
  {
  }

  method FromLimbs(limbs: seq<u64>) returns (x: Word)
    requires |limbs| == 4
    ensures x == WordOf(limbs)
  {
    hide ToBE;
    var bytes := new byte[32](i => 0);
    for i := 0 to 4
      invariant bytes[..][32 - 8 * i..] == Joined(limbs, i)
    {
      var start := (3 - i) * 8;
      ghost var before := bytes[..];
      var be := ToBE(limbs[i], 8);
      CopyFromSlice(bytes, start, be);
      CopiedSuffix(before, start, be, bytes[..]);
    }
    x := bytes[..];
  }

  /** `to_bytes_be`, which reverses an array that is big-endian already. */
  function ToBytesBE(x: Word): Word {
    Reversed(x)
  }

  /** What it returns is the little-endian encoding of the number. */
  lemma ToBytesBEIsLittleEndian(x: Word)
    ensures ToBytesBE(x) == ToLE(BE(x), |x|)
  {
    LEReversed(x);
    ToLELE(Reversed(x));
  }

  lemma ToBytesBEInjective(x: Word, y: Word)
    requires ToBytesBE(x) == ToBytesBE(y)
    ensures x == y
  {
    ReversedInjective(x, y);
  }

  // ----- addition and subtraction ------------------------------------------

  method OverflowingAdd(a: u64, b: u64) returns (s: u64, c: bool)
    ensures a + b == s + (if c then B64 else 0)
  {
    s, c := (a + b) % B64, a + b >= B64;
  }

  method OverflowingSub(a: u64, b: u64) returns (d: u64, c: bool)
    ensures a + (if c then B64 else 0) == d + b
  {
    d, c := (a - b) % B64, a < b;
  }

  /** The low `i` limbs add up, but for a carry of `c` into the next column. */
  ghost predicate Carried(a: seq<u64>, b: seq<u64>, r: seq<u64>, i: nat, c: nat)
    requires i <= |a| && i <= |b| && i <= |r|
  {
    LV(a[..i]) + LV(b[..i]) == LV(r[..i]) + c * Pow(B64, i)
  }

  /** One column of a carry chain, weighted by its position. */
  lemma CarryColumn(a: int, b: int, c: int, r: int, c': int, p: int)
    requires a + b + c == r + c' * B64
    ensures a * p + b * p + c * p == r * p + c' * (B64 * p)
  {
    assert (a + b + c) * p == a * p + b * p + c * p;
    assert (r + c' * B64) * p == r * p + c' * (B64 * p);
  }

  lemma CarryStep(a: seq<u64>, b: seq<u64>, r: seq<u64>, i: nat, c: nat, c': nat)
    requires i < |a| && i < |b| && i < |r|
    requires Carried(a, b, r, i, c) && a[i] + b[i] + c == r[i] + c' * B64
    ensures Carried(a, b, r, i + 1, c')
  {
    hide LV;
    LVPrefix(a, i);
    LVPrefix(b, i);
    LVPrefix(r, i);
    CarryColumn(a[i], b[i], c, r[i], c', Pow(B64, i));
  }

  /** Limbs not yet reached do not matter. */
  lemma CarriedPrefix(a: seq<u64>, b: seq<u64>, r: seq<u64>, a': seq<u64>, r': seq<u64>, i: nat, c: nat)
    requires i <= |a| && i <= |b| && i <= |r| && Carried(a, b, r, i, c)
    requires i <= |a'| && i <= |r'| && a'[..i] == a[..i] && r'[..i] == r[..i]
    ensures Carried(a', b, r', i, c)
  {
  }

  /** A carry chain over all four limbs is addition modulo 2^256. */
  lemma CarriedTotal(a: seq<u64>, b: seq<u64>, r: seq<u64>, c: nat)
    requires |a| == |b| == |r| == 4 && Carried(a, b, r, |r|, c)
    ensures LV(r) == (LV(a) + LV(b)) % MODULUS
  {
    hide LV, Pow;
    assert a[..|r|] == a && b[..|r|] == b && r[..|r|] == r;
    ModWitness(LV(a) + LV(b), r, c);
  }

  /** Read the other way, it is subtraction. */
  lemma BorrowedTotal(a: seq<u64>, b: seq<u64>, r: seq<u64>, c: nat)
    requires |a| == |b| == |r| == 4 && Carried(r, b, a, |r|, c)
    ensures LV(r) == (LV(a) - LV(b)) % MODULUS
  {
    hide LV, Pow;
    assert a[..|r|] == a && b[..|r|] == b && r[..|r|] == r;
    BorrowWitness(LV(a) - LV(b), r, c);
  }

  method Add(self: Word, rhs: Word) returns (r: Word)
    ensures BE(r) == (BE(self) + BE(rhs)) % MODULUS
  {
    hide Carried, BE, LV, LimbsOf, WordOf;
    var a := ToLimbs(self);
    var b := ToLimbs(rhs);
    var result := new u64[4](i => 0);
    var carry: u64 := 0;
    CarriedNothing(a, b, result[..]);
    for i := 0 to 4
      invariant carry <= 1 && Carried(a, b, result[..], i, carry)
    {
      ghost var before := result[..];
      ghost var carryIn := carry;
      var s1, c1 := OverflowingAdd(a[i], b[i]);
      var s2, c2 := OverflowingAdd(s1, carry);
      result[i] := s2;
      carry := (if c1 then 1 else 0) + (if c2 then 1 else 0);
      CarriedPrefix(a, b, before, a, result[..], i, carryIn);
      CarryStep(a, b, result[..], i, carryIn, carry);
    }
    CarriedTotal(a, b, result[..], carry);
    LimbsValue(self);
    LimbsValue(rhs);
    WordValue(result[..]);
    r := FromLimbs(result[..]);
  }

  lemma CarriedNothing(a: seq<u64>, b: seq<u64>, r: seq<u64>)
    ensures Carried(a, b, r, 0, 0)
  {
  }

  /** Four limbs that miss a total by a multiple of 2^256 are its residue. */
  lemma ModWitness(total: int, result: seq<u64>, k: int)
    requires |result| == 4 && LV(result) + k * Pow(B64, |result|) == total
    ensures LV(result) == total % MODULUS
  {
    LVBound(result);
    DivUnique(total, Pow(B64, |result|), k);
    LimbModulus();
  }

  lemma BorrowWitness(total: int, result: seq<u64>, k: int)
    requires |result| == 4 && LV(result) == total + k * Pow(B64, |result|)
    ensures LV(result) == total % MODULUS
  {
    assert (0 - k) * Pow(B64, |result|) == 0 - k * Pow(B64, |result|);
    ModWitness(total, result, 0 - k);
  }

  method Sub(self: Word, rhs: Word) returns (r: Word)
    ensures BE(r) == (BE(self) - BE(rhs)) % MODULUS
  {
    hide Carried, BE, LV, LimbsOf, WordOf;
    var a := ToLimbs(self);
    var b := ToLimbs(rhs);
    var result := new u64[4](i => 0);
    var borrow: u64 := 0;
    CarriedNothing(result[..], b, a);
    for i := 0 to 4
      invariant borrow <= 1 && Carried(result[..], b, a, i, borrow)
    {
      ghost var before := result[..];
      ghost var borrowIn := borrow;
      var d1, b1 := OverflowingSub(a[i], b[i]);
      var d2, b2 := OverflowingSub(d1, borrow);
      result[i] := d2;
      borrow := (if b1 then 1 else 0) + (if b2 then 1 else 0);
      CarriedPrefix(before, b, a, result[..], a, i, borrowIn);
      CarryStep(result[..], b, a, i, borrowIn, borrow);
    }
    BorrowedTotal(a, b, result[..], borrow);
    LimbsValue(self);
    LimbsValue(rhs);
    WordValue(result[..]);
    r := FromLimbs(result[..]);
  }

  // ----- multiplication ----------------------------------------------------

  /** The widest intermediate of the schoolbook product fits in 128 bits. */
  lemma AccumulatorFits(a: int, b: int, r: int, carry: int, m: int)
    requires 0 <= a < m && 0 <= b < m && 0 <= r < m && 0 <= carry < m
    ensures 0 <= a * b + r + carry < m * m
  {
    MulMonotone(a, m - 1, b);
    MulMonotone(b, m - 1, m - 1);
    assert (m - 1) * (m - 1) == m * m - 2 * m + 1;
  }

  function MultiplyAccumulate(a: u64, b: u64, r: u64, carry: u64): (prod: u128)
    ensures prod == a * b + r + carry
  {
    AccumulatorFits(a, b, r, carry, B64);
    a * b + r + carry
  }

  /** One column of the product: what leaves the cell enters the carry. */
  lemma MulColumn(a: int, b: int, r: int, carry: int, prod: int, lo: int, hi: int, p: int)
    requires prod == a * b + r + carry == lo + hi * B64
    ensures (lo - r) * p + hi * (B64 * p) == a * b * p + carry * p
  {
    assert (lo + hi * B64) * p == lo * p + hi * (B64 * p);
    assert (a * b + r + carry) * p == a * b * p + r * p + carry * p;
    assert (lo - r) * p == lo * p - r * p;
  }

  method Mul(self: Word, rhs: Word) returns (r: Word)
    ensures BE(r) == (BE(self) * BE(rhs)) % MODULUS
  {
    var a := ToLimbs(self);
    var b := ToLimbs(rhs);
    var result := new u64[4](i => 0);
    ghost var dropped := 0;
    LVZeros(result[..]);
    for i := 0 to 4
      invariant LV(result[..]) + dropped * Pow(B64, |b|) == LV(a[..i]) * LV(b)
    {
      ghost var row := LV(result[..]);
      ghost var carryOut := MulRow(a[i], b, i, result);
      LVPrefix(a, i);
      dropped := RowDone(a[i], b, i, LV(a[..i]), LV(a[..i + 1]), row, LV(result[..]), dropped, carryOut);
    }
    assert a[..4] == a;
    LimbsValue(self);
    LimbsValue(rhs);
    WordValue(result[..]);
    ModWitness(BE(self) * BE(rhs), result[..], dropped);
    r := FromLimbs(result[..]);
  }

  /** The inner loop: add `x * b`, shifted by `i` limbs, into `result` and drop
      the carry that leaves the top limb (returned here for the proof only). */
  method MulRow(x: u64, b: seq<u64>, i: nat, result: array<u64>) returns (ghost carryOut: nat)
    requires result.Length == |b| && i < |b|
    modifies result
    ensures LV(result[..]) + carryOut * Pow(B64, |b|)
         == old(LV(result[..])) + x * Pow(B64, i) * LV(b[..|b| - i])
  {
    ghost var row := LV(result[..]);
    var carry: u128 := 0;
    for j := 0 to |b| - i
      invariant carry < B64
      invariant LV(result[..]) + carry * Pow(B64, i + j) == row + x * Pow(B64, i) * LV(b[..j])
    {
      var idx := i + j;
      ghost var cells: seq<u64> := result[..];
      ghost var carryIn := carry;
      var prod := MultiplyAccumulate(x, b[j], result[idx], carry);
      var lo: u64 := prod % B64;
      result[idx] := lo;
      carry := prod / B64;
      assert result[..] == cells[idx := lo];
      RowStep(x, b, i, j, cells, row, carryIn, lo, carry);
    }
    carryOut := carry;
  }

  /** One step of the inner loop keeps the row equation. */
  lemma RowStep(x: u64, b: seq<u64>, i: nat, j: nat, cells: seq<u64>, row: int, carry: int, lo: u64, hi: int)
    requires |b| == |cells| && i + j < |b|
    requires LV(cells) + carry * Pow(B64, i + j) == row + x * Pow(B64, i) * LV(b[..j])
    requires x * b[j] + cells[i + j] + carry == lo + hi * B64
    ensures LV(cells[i + j := lo]) + hi * Pow(B64, i + (j + 1))
         == row + x * Pow(B64, i) * LV(b[..j + 1])
  {
    LVUpdate(cells, i + j, lo);
    LVPrefix(b, j);
    PowAdd(B64, i, j);
    assert Pow(B64, i + (j + 1)) == B64 * Pow(B64, i + j);
    MulColumn(x, b[j], cells[i + j], carry, lo + hi * B64, lo, hi, Pow(B64, i + j));
    Distribute(x, Pow(B64, i), LV(b[..j]), b[j], Pow(B64, j));
  }

  lemma Distribute(x: int, p: int, v: int, y: int, q: int)
    ensures x * p * (v + y * q) == x * p * v + x * y * (p * q)
  {
    assert x * p * (y * q) == x * y * (p * q);
  }

  lemma RowAlgebra(x: int, p: int, v: int, t: int, q: int, c: int, d: int, d': int,
                   before: int, after: int, a: int, a': int, m: int, w: int)
    requires m == p * q && w == v + q * t
    requires after + c * m == before + x * p * v
    requires before + d * m == a * w
    requires a' == a + x * p && d' == d + (c + x * t)
    ensures after + d' * m == a' * w
  {
    assert x * p * (q * t) == x * t * m by { assert x * p * (q * t) == x * t * (p * q); }
    assert x * p * w == x * p * v + x * p * (q * t);
    assert a' * w == a * w + x * p * w;
    assert d' * m == d * m + c * m + x * t * m;
  }

  /** The limbs of `b` a row leaves out only contribute multiples of 2^256. */
  lemma RowDone(x: u64, b: seq<u64>, i: nat, done: int, done': int, before: int, after: int,
                dropped: int, carryOut: int)
    returns (dropped': int)
    requires i < |b|
    requires before + dropped * Pow(B64, |b|) == done * LV(b)
    requires after + carryOut * Pow(B64, |b|) == before + x * Pow(B64, i) * LV(b[..|b| - i])
    requires done' == done + x * Pow(B64, i)
    ensures after + dropped' * Pow(B64, |b|) == done' * LV(b)
  {
    var k := |b| - i;
    LVSplit(b, k);
    PowAdd(B64, i, k);
    assert i + k == |b|;
    dropped' := dropped + (carryOut + x * LV(b[k..]));
    RowAlgebra(x, Pow(B64, i), LV(b[..k]), LV(b[k..]), Pow(B64, k), carryOut, dropped, dropped',
               before, after, done, done', Pow(B64, |b|), LV(b));
  }
}
