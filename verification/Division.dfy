/** The bit-serial division of src/types.rs, with the shift, bit-test and
    bit-set helpers it is made of. */
module Division {
  import opened Arith
  import opened Bytes
  import opened U256

  // ----- bitwise operators on bytes ----------------------------------------

  /** `x | y`, bit by bit. */
  function Or(x: nat, y: nat): nat {
    if x == 0 then y
    else if y == 0 then x
    else (if x % 2 == 1 || y % 2 == 1 then 1 else 0) + 2 * Or(x / 2, y / 2)
  }

  lemma {:induction false} OrBound(x: nat, y: nat, k: nat)
    requires x < Pow(2, k) && y < Pow(2, k)
    ensures Or(x, y) < Pow(2, k)
    decreases k
  {
    if x > 0 && y > 0 {
      OrBound(x / 2, y / 2, k - 1);
    }
  }

  function Or8(x: byte, y: byte): byte {
    BitWeights();
    OrBound(x, y, 8);
    Or(x, y)
  }

  function Shl8(x: byte, k: nat): byte {
    (x * Pow(2, k)) % 256
  }

  function Shr8(x: byte, k: nat): byte {
    DivBounds(x, Pow(2, k));
    assert x / Pow(2, k) <= x by { MulMonotone(1, Pow(2, k), x / Pow(2, k)); }
    x / Pow(2, k)
  }

  lemma BitWeights()
    ensures Pow(2, 0) == 1 && Pow(2, 1) == 2 && Pow(2, 7) == 128 && Pow(2, 8) == 256
  {
    assert Pow(2, 1) == 2 * Pow(2, 0);
    assert Pow(2, 2) == 4 by { assert Pow(2, 2) == 2 * Pow(2, 1); }
    PowAdd(2, 2, 2);
    PowAdd(2, 4, 4);
    assert Pow(2, 8) == 2 * Pow(2, 7);
  }

  /** Setting bit `k` adds its weight unless it was set already. */
  lemma {:induction false} OrBit(x: nat, k: nat)
    ensures Or(x, Pow(2, k)) == if (x / Pow(2, k)) % 2 == 1 then x else x + Pow(2, k)
    decreases k
  {
    if x == 0 {
      DivUnique(0, Pow(2, k), 0);
    } else if k == 0 {
      assert Or(x / 2, 0) == x / 2;
    } else {
      OrBit(x / 2, k - 1);
      OrShift(x, Pow(2, k - 1));
    }
  }

  lemma OrShift(x: nat, p: nat)
    requires x > 0 && p > 0
    ensures Or(x, 2 * p) == x % 2 + 2 * Or(x / 2, p)
    ensures x / (2 * p) == x / 2 / p
  {
    DivDiv(x, 2, p);
    assert (2 * p) / 2 == p && (2 * p) % 2 == 0;
  }

  // ----- bits of a word ----------------------------------------------------

  /** The binary digit of `n` with weight `p`. */
  predicate Digit(n: nat, p: nat)
    requires p > 0
  {
    (n / p) % 2 == 1
  }

  /** `(x[31 - bit / 8] >> (bit % 8)) & 1 == 1`. */
  predicate GetBit(x: Word, bit: nat)
    requires bit < 256
  {
    Digit(x[31 - bit / 8], Pow(2, bit % 8))
  }

  /** A bit's weight: whole bytes below it, then bits within its byte. */
  lemma {:induction false} BitPosition(k: nat, r: nat)
    ensures Pow(2, 8 * k + r) == Pow(256, k) * Pow(2, r)
  {
    if k > 0 {
      BitPosition(k - 1, r);
      BitWeights();
      PowAdd(2, 8, 8 * (k - 1) + r);
      MulAssoc(256, Pow(256, k - 1), Pow(2, r));
    }
  }

  /** Dropping the bytes below byte `j` divides by their weight. */
  lemma DropBytes(x: Word, j: nat)
    requires j < 32
    ensures BE(x) / Pow(256, 31 - j) == 256 * BE(x[..j]) + x[j]
  {
    var hi, lo := x[..j + 1], x[j + 1..];
    assert x == hi + lo;
    BEAppend(hi, lo);
    BEBound(lo);
    assert hi[..j] == x[..j];
    DivUnique(BE(x), Pow(256, 31 - j), BE(hi));
  }

  /** Whole bytes above a byte do not reach its digits. */
  lemma BitOfByte(h: nat, b: byte, p: nat, q: nat)
    requires p > 0 && p * q == 128
    ensures Digit(256 * h + b, p) <==> Digit(b, p)
  {
    var t := q * h;
    assert 256 * h == t * 2 * p by { assert (p * q) * h == t * p; }
    DivBounds(b, p);
    assert (t * 2 + b / p) * p == t * 2 * p + (b / p) * p;
    DivUnique(256 * h + b, p, t * 2 + b / p);
    ModShift(b / p, t, 2);
  }

  lemma BitQuotient(x: Word, k: nat, r: nat)
    requires k < 32
    ensures Digit(BE(x), Pow(2, 8 * k + r)) <==> Digit(256 * BE(x[..31 - k]) + x[31 - k], Pow(2, r))
  {
    BitPosition(k, r);
    DivDiv(BE(x), Pow(256, k), Pow(2, r));
    DropBytes(x, 31 - k);
    assert 31 - (31 - k) == k;
  }

  lemma HalfWeights(r: nat)
    requires r < 8
    ensures Pow(2, r) * Pow(2, 7 - r) == 128
  {
    PowAdd(2, r, 7 - r);
    BitWeights();
  }

  /** The tested bit is the binary digit of the number the word denotes. */
  lemma GetBitValue(x: Word, bit: nat)
    requires bit < 256
    ensures GetBit(x, bit) <==> Digit(BE(x), Pow(2, bit))
  {
    hide BE, Pow, Digit;
    var k, r := bit / 8, bit % 8;
    assert bit == 8 * k + r;
    BitQuotient(x, k, r);
    HalfWeights(r);
    BitOfByte(BE(x[..31 - k]), x[31 - k], Pow(2, r), Pow(2, 7 - r));
  }

  method SetBit(x: array<byte>, bit: nat)
    requires x.Length == 32 && bit < 256
    modifies x
    ensures BE(x[..]) == old(BE(x[..])) + (if old(GetBit(x[..], bit)) then 0 else Pow(2, bit))
  {
    ghost var before: Word := x[..];
    var j, r := 31 - bit / 8, bit % 8;
    x[j] := Or8(x[j], Shl8(1, r));
    assert x[..] == before[j := x[j]];
    SetBitValue(before, bit, x[j]);
  }

  lemma OrBit8(x: byte, r: nat)
    requires r < 8
    ensures Or8(x, Shl8(1, r)) == if Digit(x, Pow(2, r)) then x else x + Pow(2, r)
  {
    PowMonotone(2, r, 7);
    BitWeights();
    DivUnique(Pow(2, r), 256, 0);
    OrBit(x, r);
  }

  lemma BitDifference(x: int, v: int, p: int, weight: int, isSet: bool)
    requires v == if isSet then x else x + p
    ensures (v - x) * weight == if isSet then 0 else weight * p
  {
  }

  lemma SetBitValue(w: Word, bit: nat, v: byte)
    requires bit < 256 && v == Or8(w[31 - bit / 8], Shl8(1, bit % 8))
    ensures BE(w[31 - bit / 8 := v]) == BE(w) + (if GetBit(w, bit) then 0 else Pow(2, bit))
  {
    var k, r := bit / 8, bit % 8;
    var j := 31 - k;
    OrBit8(w[j], r);
    BitDifference(w[j], v, Pow(2, r), Pow(256, k), GetBit(w, bit));
    BEUpdate(w, j, v);
    assert |w| - 1 - j == k;
    BitPosition(k, r);
  }

  // ----- doubling ----------------------------------------------------------

  /** The bit that moves from byte `i` into byte `i - 1`. */
  function TopBit(x: Word, i: nat): byte
    requires i <= 32
  {
    if i < 32 then Shr8(x[i], 7) else 0
  }

  /** A doubled byte with its incoming bit. */
  function Doubled(x: Word, i: nat): byte
    requires i < 32
  {
    Or8(Shl8(x[i], 1), TopBit(x, i + 1))
  }

  lemma DoubledValue(x: Word, i: nat)
    requires i < 32
    ensures Doubled(x, i) + 256 * TopBit(x, i) == 2 * x[i] + TopBit(x, i + 1)
    ensures i == 31 ==> Doubled(x, i) % 2 == 0
  {
    hide Or, Shl8, Shr8;
    ShiftedByte(x[i]);
    if i < 31 {
      ShiftedByte(x[i + 1]);
    }
    OrLowBit(Shl8(x[i], 1), TopBit(x, i + 1));
  }

  lemma ShiftedByte(b: byte)
    ensures Shl8(b, 1) + 256 * Shr8(b, 7) == 2 * b
    ensures Shl8(b, 1) % 2 == 0 && Shr8(b, 7) <= 1
  {
    BitWeights();
  }

  /** A bit fits below an even number. */
  lemma OrLowBit(e: nat, b: nat)
    requires e % 2 == 0 && b <= 1
    ensures Or(e, b) == e + b
  {
    assert Or(e / 2, 0) == e / 2;
  }

  method Shl1(x: Word) returns (r: Word)
    ensures BE(r) == (2 * BE(x)) % MODULUS
    ensures r[31] % 2 == 0
  {
    var out := new byte[32](i => 0);
    assert x[..0] == [];
    for i := 0 to 32
      invariant BE(out[..i]) + Pow(256, i) * TopBit(x, 0) == 2 * BE(x[..i]) + TopBit(x, i)
      invariant i == 32 ==> out[31] % 2 == 0
    {
      ghost var done := out[..i];
      out[i] := Or8(Shl8(x[i], 1), if i + 1 < 32 then Shr8(x[i + 1], 7) else 0);
      assert out[..i] == done;
      assert out[..i + 1][..i] == done;
      Shl1Step(x, i, out[..i + 1]);
    }
    assert out[..32] == out[..] && x[..32] == x;
    r := out[..];
    Shl1Done(x, r);
  }

  lemma Shl1Done(x: Word, out: Word)
    requires BE(out) + Pow(256, |out|) * TopBit(x, 0) == 2 * BE(x)
    ensures BE(out) == (2 * BE(x)) % MODULUS
  {
    WordBound(out);
    PowWidths();
    DivUnique(2 * BE(x), MODULUS, TopBit(x, 0));
  }

  lemma Shl1Step(x: Word, i: nat, out: Bytes)
    requires i < 32 && |out| == i + 1 && out[i] == Doubled(x, i)
    requires BE(out[..i]) + Pow(256, i) * TopBit(x, 0) == 2 * BE(x[..i]) + TopBit(x, i)
    ensures BE(out) + Pow(256, i + 1) * TopBit(x, 0) == 2 * BE(x[..i + 1]) + TopBit(x, i + 1)
    ensures i == 31 ==> out[i] % 2 == 0
  {
    DoubledValue(x, i);
    assert x[..i + 1][..i] == x[..i];
    MulAssoc(256, Pow(256, i), TopBit(x, 0));
  }

  /** Setting the low bit of an even word adds one. */
  lemma SetLowBit(w: Word)
    requires w[31] % 2 == 0
    ensures BE(w[31 := Or8(w[31], 1)]) == BE(w) + 1
  {
    BitWeights();
    OrBit(w[31], 0);
    BEUpdate(w, 31, Or8(w[31], 1));
  }

  // ----- division ----------------------------------------------------------

  /** Bring down one digit: shift the remainder and set its low bit. */
  method BringDown(remainder: Word, self: Word, bit: nat) returns (rem: Word)
    requires bit < 256 && 2 * BE(remainder) + 1 < MODULUS
    ensures BE(rem) == 2 * BE(remainder) + (if Digit(BE(self), Pow(2, bit)) then 1 else 0)
  {
    hide BE, GetBit, Digit;
    rem := Shl1(remainder);
    DivUnique(2 * BE(remainder), MODULUS, 0);
    GetBitValue(self, bit);
    if GetBit(self, bit) {
      SetLowBit(rem);
      rem := rem[31 := Or8(rem[31], 1)];
    }
  }

  /** One turn of the loop: bring down a digit, subtract the divisor if it fits
      and record the quotient bit. */
  method DivideBit(self: Word, rhs: Word, bit: nat, remainder: Word, quotient: array<byte>) returns (next: Word)
    requires bit < 256 && quotient.Length == 32 && BE(rhs) > 0
    requires DivisionState(BE(self), BE(rhs), bit + 1, BE(remainder), BE(quotient[..]))
    modifies quotient
    ensures DivisionState(BE(self), BE(rhs), bit, BE(next), BE(quotient[..]))
  {
    hide DivisionState, GetBit, Pow, BE, LexLe;
    NextPrefix(self, BE(rhs), bit, BE(remainder), BE(quotient[..]));
    next := BringDown(remainder, self, bit);
    DivisionStep(BE(self), BE(rhs), bit, BE(remainder), BE(next), quotient[..]);
    LexIsNumeric(rhs, next);
    if LexLe(rhs, next) {
      WordBound(next);
      DivUnique(BE(next) - BE(rhs), MODULUS, 0);
      next := Sub(next, rhs);
      SetBit(quotient, bit);
    }
  }

  method Div(self: Word, rhs: Word) returns (r: Word)
    ensures rhs == ZERO ==> r == ZERO
    ensures rhs != ZERO ==> BE(rhs) > 0 && BE(r) == BE(self) / BE(rhs)
  {
    ConstantValues(rhs);
    if rhs == ZERO {
      return ZERO;
    }
    hide DivisionState, GetBit, Pow, BE, LexLe;
    ghost var n, d := BE(self), BE(rhs);
    var quotient := new byte[32](i => 0);
    var remainder := ZERO;
    DivisionStart(self, d, quotient[..]);
    for bit := 8 * |self| downto 0
      invariant DivisionState(n, d, bit, BE(remainder), BE(quotient[..]))
    {
      remainder := DivideBit(self, rhs, bit, remainder, quotient);
    }
    DivisionEnd(n, d, BE(remainder), BE(quotient[..]));
    r := quotient[..];
  }

  /** With the digits from `bit` upwards processed, the remainder and quotient
      are those of the dividend's prefix. */
  ghost predicate DivisionState(n: nat, d: nat, bit: nat, remainder: nat, quotient: nat)
    requires d > 0
  {
    && remainder == (n / Pow(2, bit)) % d
    && quotient == ((n / Pow(2, bit)) / d) * Pow(2, bit)
  }

  lemma DivisionStart(self: Word, d: nat, quotient: Bytes)
    requires d > 0 && forall i :: 0 <= i < |quotient| ==> quotient[i] == 0
    ensures DivisionState(BE(self), d, 8 * |self|, BE(ZERO), BE(quotient))
  {
    BEZeros(quotient);
    BEZeros(ZERO);
    WordBelowTop(self);
    StartState(BE(self), d, Pow(2, 8 * |self|));
  }

  lemma WordBelowTop(w: Word)
    ensures BE(w) < Pow(2, 8 * |w|)
  {
    hide Pow, BE;
    BitPosition(|w|, 0);
    assert Pow(2, 0) == 1 by { BitWeights(); }
    BEBound(w);
  }

  lemma StartState(n: nat, d: nat, top: nat)
    requires d > 0 && n < top
    ensures (n / top) % d == 0 && ((n / top) / d) * top == 0
  {
    DivUnique(n, top, 0);
    DivUnique(0, d, 0);
  }

  /** One more binary digit of the dividend: the doubled remainder stays below
      2^256, so the shift drops nothing. */
  lemma NextPrefix(self: Word, d: nat, bit: nat, remainder: nat, quotient: nat)
    requires bit < 256 && d > 0 && DivisionState(BE(self), d, bit + 1, remainder, quotient)
    ensures 2 * remainder + 1 < MODULUS
  {
    var n := BE(self);
    var p := n / Pow(2, bit + 1);
    WordBound(self);
    DivBounds(n, Pow(2, bit + 1));
    assert 2 * p <= n by { MulMonotone(2, Pow(2, bit + 1), p); }
    DivBounds(p, d);
    assert p == p / d * d + p % d;
  }

  /** The long-division step on numbers. */
  lemma LongDivision(p: nat, d: nat, b: nat)
    requires d > 0 && b <= 1
    ensures var r := 2 * (p % d) + b;
            if r >= d
            then (2 * p + b) / d == 2 * (p / d) + 1 && (2 * p + b) % d == r - d
            else (2 * p + b) / d == 2 * (p / d) && (2 * p + b) % d == r
  {
    var q, r := p / d, 2 * (p % d) + b;
    DivBounds(p, d);
    Twice(q, d);
    if r >= d {
      DivUnique(2 * p + b, d, 2 * q + 1);
    } else {
      DivUnique(2 * p + b, d, 2 * q);
    }
  }

  lemma Twice(q: int, w: int)
    ensures q * (2 * w) == 2 * q * w && (2 * q) * w == 2 * (q * w) && (2 * q + 1) * w == 2 * q * w + w
  {
  }

  /** Deciding one quotient bit: it is still clear, and subtracting the divisor
      once when possible re-establishes the state one digit further. */
  lemma DivisionStep(n: nat, d: nat, bit: nat, before: nat, rem: nat, quotient: Word)
    requires d > 0 && bit < 256
    requires DivisionState(n, d, bit + 1, before, BE(quotient))
    requires rem == 2 * before + (if Digit(n, Pow(2, bit)) then 1 else 0)
    ensures !GetBit(quotient, bit)
    ensures if rem >= d
            then DivisionState(n, d, bit, rem - d, BE(quotient) + Pow(2, bit))
            else DivisionState(n, d, bit, rem, BE(quotient))
  {
    var w := Pow(2, bit);
    QuotientStep(n, d, w, before, rem, BE(quotient));
    hide GetBit, BE;
    GetBitValue(quotient, bit);
  }

  lemma QuotientStep(n: nat, d: nat, w: nat, before: nat, rem: nat, quotient: nat)
    requires d > 0 && w > 0
    requires before == (n / (2 * w)) % d && quotient == ((n / (2 * w)) / d) * (2 * w)
    requires rem == 2 * before + (if Digit(n, w) then 1 else 0)
    ensures !Digit(quotient, w)
    ensures if rem >= d
            then rem - d == (n / w) % d && quotient + w == ((n / w) / d) * w
            else rem == (n / w) % d && quotient == ((n / w) / d) * w
  {
    var p := n / (2 * w);
    var q := p / d;
    DivDiv(n, w, 2);
    LongDivision(p, d, (n / w) % 2);
    Twice(q, w);
    DivUnique(quotient, w, 2 * q);
  }

  lemma DivisionEnd(n: nat, d: nat, remainder: nat, quotient: nat)
    requires d > 0 && DivisionState(n, d, 0, remainder, quotient)
    ensures quotient == n / d && remainder == n % d
  {
    assert n / Pow(2, 0) == n && n / d * Pow(2, 0) == n / d;
  }
}
