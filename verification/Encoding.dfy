/** The serialisations and hashes of src/utils/hash.rs, with decoders that
    invert them exactly. */
module Encoding {
  import opened Arith
  import opened Bytes
  import opened Wrappers

  type Script = s: Bytes | |s| < 0x1_0000_0000_0000_0000

  datatype TxOutput = TxOutput(value: u64, script: Script)

  // ----- fixed-width integers ----------------------------------------------

  /** A string starts with the `k`-byte encoding of `n` exactly when its first
      `k` bytes decode to `n`. */
  lemma FixedWidthIff(bs: Bytes, n: nat, k: nat, rest: Bytes)
    requires n < Pow(256, k)
    ensures bs == ToLE(n, k) + rest <==> |bs| >= k && LE(bs[..k]) == n && bs[k..] == rest
  {
    LEToLE(n, k);
    if |bs| >= k && LE(bs[..k]) == n && bs[k..] == rest {
      ToLELE(bs[..k]);
      assert bs == bs[..k] + bs[k..];
    }
    if bs == ToLE(n, k) + rest {
      assert bs[..k] == ToLE(n, k);
    }
  }

  // ----- compact sizes -----------------------------------------------------

  /** The number of bytes after the marker, or 0 for a one-byte code. */
  function WidthOf(n: u64): nat {
    if n <= 0xfc then 0 else if n <= 0xffff then 2 else if n <= 0xffff_ffff then 4 else 8
  }

  function MarkerWidth(marker: byte): nat {
    if marker <= 0xfc then 0 else if marker == 0xfd then 2 else if marker == 0xfe then 4 else 8
  }

  function Marker(n: u64): byte {
    if n <= 0xfc then n else if n <= 0xffff then 0xfd else if n <= 0xffff_ffff then 0xfe else 0xff
  }

  function CompactSize(n: u64): Bytes {
    [Marker(n)] + ToLE(n, WidthOf(n))
  }

  /** One byte up to 252; beyond that 253, 254 or 255 and the value in two, four
      or eight little-endian bytes, the fewest that hold it. */
  lemma CompactSizeExact(n: u64)
    ensures var c := CompactSize(n);
            if n <= 252 then c == [n]
            else if n < 0x1_0000 then |c| == 3 && c[0] == 253 && LE(c[1..]) == n
            else if n < 0x1_0000_0000 then |c| == 5 && c[0] == 254 && LE(c[1..]) == n
            else |c| == 9 && c[0] == 255 && LE(c[1..]) == n
  {
    hide ToLE, LE, Pow;
    WidthFits(n);
    if WidthOf(n) > 0 {
      LEToLE(n, WidthOf(n));
    }
    NoBytes(n);
    assert CompactSize(n)[1..] == ToLE(n, WidthOf(n));
  }

  lemma NoBytes(n: nat)
    ensures ToLE(n, 0) == []
  {
  }

  /** The canonical reading: a value must use its own, shortest, width. */
  function ReadCompactSize(bs: Bytes): Option<(u64, Bytes)> {
    if |bs| == 0 then None
    else if bs[0] <= 0xfc then Some((bs[0], bs[1..]))
    else
      var w := MarkerWidth(bs[0]);
      if |bs| < 1 + w then None
      else
        LEBound(bs[1..1 + w]);
        PowWidths();
        var n: u64 := LE(bs[1..1 + w]);
        if WidthOf(n) == w then Some((n, bs[1 + w..])) else None
  }

  lemma WidthFits(n: u64)
    ensures WidthOf(n) > 0 ==> n < Pow(256, WidthOf(n))
    ensures WidthOf(n) == MarkerWidth(Marker(n))
  {
    PowWidths();
  }

  lemma TailSlices(bs: Bytes, w: nat)
    requires |bs| >= 1 + w
    ensures bs[1..][..w] == bs[1..1 + w] && bs[1..][w..] == bs[1 + w..]
  {
  }

  /** A string reads as `n` exactly when it starts with the code of `n`; in
      particular no code is a prefix of another. */
  lemma ReadCompactSizeIff(bs: Bytes, n: u64, rest: Bytes)
    ensures ReadCompactSize(bs) == Some((n, rest)) <==> bs == CompactSize(n) + rest
  {
    WidthFits(n);
    var w := WidthOf(n);
    if w == 0 {
      assert CompactSize(n) == [n];
      assert bs == [n] + rest ==> bs[1..] == rest;
      assert |bs| > 0 ==> bs == [bs[0]] + bs[1..];
    } else if |bs| > 0 {
      FixedWidthIff(bs[1..], n, w, rest);
      assert bs == [bs[0]] + bs[1..];
      assert CompactSize(n) + rest == [Marker(n)] + (ToLE(n, w) + rest);
      if |bs| >= 1 + w {
        TailSlices(bs, w);
      }
      if bs == CompactSize(n) + rest {
        assert bs[0] == Marker(n) && bs[1..] == ToLE(n, w) + rest;
      }
    }
  }

  /** Codes followed by anything determine the value and what follows. */
  lemma CompactSizePrefixFree(m: u64, n: u64, x: Bytes, y: Bytes)
    requires CompactSize(m) + x == CompactSize(n) + y
    ensures m == n && x == y
  {
    ReadCompactSizeIff(CompactSize(m) + x, m, x);
    ReadCompactSizeIff(CompactSize(m) + x, n, y);
  }

  // ----- outputs -----------------------------------------------------------

  function SerialiseOutput(o: TxOutput): Bytes {
    ToLE(o.value, 8) + (CompactSize(|o.script|) + o.script)
  }

  /** The value in eight little-endian bytes, then the script with its length. */
  lemma OutputExact(o: TxOutput)
    ensures var s := SerialiseOutput(o);
            |s| >= 8 && LE(s[..8]) == o.value && s[8..] == CompactSize(|o.script|) + o.script
  {
    hide ToLE, LE, Pow, CompactSize;
    PowWidths();
    LEToLE(o.value, 8);
    assert SerialiseOutput(o)[..8] == ToLE(o.value, 8);
  }

  /** Outputs follow one another in order. */
  lemma {:induction false} OutputsConcat(a: seq<TxOutput>, b: seq<TxOutput>)
    ensures SerialiseOutputs(a + b) == SerialiseOutputs(a) + SerialiseOutputs(b)
    ensures |a| == 1 ==> SerialiseOutputs(a) == SerialiseOutput(a[0])
  {
    hide SerialiseOutput;
    if a == [] {
      assert a + b == b;
    } else {
      assert (a + b)[0] == a[0] && (a + b)[1..] == a[1..] + b;
      OutputsConcat(a[1..], b);
      Assoc(SerialiseOutput(a[0]), SerialiseOutputs(a[1..]), SerialiseOutputs(b));
      assert |a| == 1 ==> a[1..] == [];
    }
  }

  function SerialiseOutputs(os: seq<TxOutput>): Bytes {
    if os == [] then [] else SerialiseOutput(os[0]) + SerialiseOutputs(os[1..])
  }

  function ParseOutput(bs: Bytes): (r: Option<(TxOutput, Bytes)>)
    ensures r.Some? ==> |r.value.1| < |bs|
  {
    if |bs| < 8 then None
    else
      var size := ReadCompactSize(bs[8..]);
      if size.None? || |size.value.1| < size.value.0 then None
      else
        LEBound(bs[..8]);
        PowWidths();
        var (len, tail) := size.value;
        ReadShrinks(bs[8..]);
        Some((TxOutput(LE(bs[..8]), tail[..len]), tail[len..]))
  }

  lemma ReadShrinks(bs: Bytes)
    ensures ReadCompactSize(bs).Some? ==> |ReadCompactSize(bs).value.1| < |bs|
  {
  }

  /** Outputs are read until the input is used up; no count is needed. */
  function ParseOutputs(bs: Bytes): Option<seq<TxOutput>>
    decreases |bs|
  {
    if bs == [] then Some([])
    else
      var head := ParseOutput(bs);
      if head.None? then None
      else
        var tail := ParseOutputs(head.value.1);
        if tail.None? then None else Some([head.value.0] + tail.value)
  }

  lemma ScriptSplitIff(bs: Bytes, script: Script, rest: Bytes)
    ensures bs == script + rest <==> |bs| >= |script| && bs[..|script|] == script && bs[|script|..] == rest
  {
    if |bs| >= |script| {
      assert bs == bs[..|script|] + bs[|script|..];
    }
  }

  lemma ParseOutputIff(bs: Bytes, o: TxOutput, rest: Bytes)
    ensures ParseOutput(bs) == Some((o, rest)) <==> bs == SerialiseOutput(o) + rest
  {
    PowWidths();
    var body := CompactSize(|o.script|) + (o.script + rest);
    assert SerialiseOutput(o) + rest == ToLE(o.value, 8) + body;
    FixedWidthIff(bs, o.value, 8, body);
    if |bs| >= 8 {
      ReadCompactSizeIff(bs[8..], |o.script|, o.script + rest);
      var size := ReadCompactSize(bs[8..]);
      if size.Some? {
        ReadCompactSizeIff(bs[8..], size.value.0, size.value.1);
        ScriptSplitIff(size.value.1, o.script, rest);
      }
    }
  }

  lemma OutputNonEmpty(o: TxOutput)
    ensures |SerialiseOutput(o)| >= 8
  {
  }

  /** The decoder accepts exactly the serialisations, and returns what was
      serialised. */
  lemma {:induction false} ParseOutputsIff(bs: Bytes, os: seq<TxOutput>)
    ensures ParseOutputs(bs) == Some(os) <==> bs == SerialiseOutputs(os)
    decreases |os|
  {
    if os != [] {
      hide ParseOutput, SerialiseOutput;
      var tail := SerialiseOutputs(os[1..]);
      ParseOutputIff(bs, os[0], tail);
      var head := ParseOutput(bs);
      if head.Some? {
        ParseOutputsIff(head.value.1, os[1..]);
        ParseOutputIff(bs, os[0], head.value.1);
        assert os == [os[0]] + os[1..];
      }
      OutputNonEmpty(os[0]);
    }
  }

  lemma OutputsInjective(a: seq<TxOutput>, b: seq<TxOutput>)
    requires SerialiseOutputs(a) == SerialiseOutputs(b)
    ensures a == b
  {
    ParseOutputsIff(SerialiseOutputs(a), a);
    ParseOutputsIff(SerialiseOutputs(a), b);
  }

  // ----- sequences ---------------------------------------------------------

  function SerialiseSequences(seqs: seq<u32>): Bytes {
    if seqs == [] then [] else ToLE(seqs[0], 4) + SerialiseSequences(seqs[1..])
  }

  lemma U32Injective(a: u32, b: u32)
    requires ToLE(a, 4) == ToLE(b, 4)
    ensures a == b
  {
    PowWidths();
    LEToLE(a, 4);
    LEToLE(b, 4);
  }

  /** Sequence `i` in four little-endian bytes at offset 4i. */
  lemma {:induction false} SequenceAt(seqs: seq<u32>, i: nat)
    requires i < |seqs|
    ensures var s := SerialiseSequences(seqs);
            |s| == 4 * |seqs| && LE(s[4 * i..4 * i + 4]) == seqs[i]
  {
    hide ToLE, LE, Pow;
    var s, tail := SerialiseSequences(seqs), SerialiseSequences(seqs[1..]);
    PowWidths();
    LEToLE(seqs[0], 4);
    if i == 0 {
      assert s[0..4] == ToLE(seqs[0], 4);
      SequencesLength(seqs);
    } else {
      SequenceAt(seqs[1..], i - 1);
      assert s[4 * i..4 * i + 4] == tail[4 * (i - 1)..4 * (i - 1) + 4];
    }
  }

  lemma {:induction false} SequencesLength(seqs: seq<u32>)
    ensures |SerialiseSequences(seqs)| == 4 * |seqs|
  {
    if seqs != [] {
      SequencesLength(seqs[1..]);
    }
  }

  lemma {:induction false} SequencesInjective(a: seq<u32>, b: seq<u32>)
    requires SerialiseSequences(a) == SerialiseSequences(b)
    ensures a == b
    decreases |a|
  {
    hide ToLE;
    if a != [] && b != [] {
      SplitConcat(ToLE(a[0], 4), SerialiseSequences(a[1..]), ToLE(b[0], 4), SerialiseSequences(b[1..]));
      U32Injective(a[0], b[0]);
      SequencesInjective(a[1..], b[1..]);
      assert a == [a[0]] + a[1..] && b == [b[0]] + b[1..];
    }
  }

  // ----- the template preimage ---------------------------------------------

  function TemplatePreimage(nversion: u32, nlocktime: u32, scriptSigs: Bytes32, inputCount: u32,
                            sequencesHash: Bytes32, outputCount: u32, outputsHash: Bytes32, inputIndex: u32): Bytes
  {
    ToLE(nversion, 4) + (ToLE(nlocktime, 4) + (scriptSigs + (ToLE(inputCount, 4) + (sequencesHash
    + (ToLE(outputCount, 4) + (outputsHash + ToLE(inputIndex, 4)))))))
  }

  /** Where each field sits in the 116 bytes, in the order of the template hash
      of BIP-119. */
  lemma PreimageLayout(v: u32, l: u32, g: Bytes32, i: u32, s: Bytes32, o: u32, h: Bytes32, x: u32)
    ensures var p := TemplatePreimage(v, l, g, i, s, o, h, x);
            && |p| == 116
            && p[0..4] == ToLE(v, 4) && p[4..8] == ToLE(l, 4) && p[8..40] == g
            && p[40..44] == ToLE(i, 4) && p[44..76] == s
            && p[76..80] == ToLE(o, 4) && p[80..112] == h && p[112..116] == ToLE(x, 4)
  {
    hide ToLE;
    var p := TemplatePreimage(v, l, g, i, s, o, h, x);
    var t6: Bytes := h + ToLE(x, 4);
    var t5 := ToLE(o, 4) + t6;
    var t4: Bytes := s + t5;
    var t3 := ToLE(i, 4) + t4;
    var t2: Bytes := g + t3;
    assert p[0..] == ToLE(v, 4) + (ToLE(l, 4) + t2);
    Peel(p, 0, ToLE(v, 4), ToLE(l, 4) + t2);
    Peel(p, 4, ToLE(l, 4), t2);
    Peel(p, 8, g, t3);
    Peel(p, 40, ToLE(i, 4), t4);
    Peel(p, 44, s, t5);
    Peel(p, 76, ToLE(o, 4), t6);
    Peel(p, 80, h, ToLE(x, 4));
  }

  lemma Peel(p: Bytes, at: nat, head: Bytes, tail: Bytes)
    requires at <= |p| && p[at..] == head + tail
    ensures |p| == at + |head| + |tail| && p[at..at + |head|] == head && p[at + |head|..] == tail
  {
    assert p[at..][..|head|] == head && p[at..][|head|..] == tail;
  }

  /** Every field has a fixed place, so equal preimages have equal fields. */
  lemma PreimageInjective(v: u32, l: u32, g: Bytes32, i: u32, s: Bytes32, o: u32, h: Bytes32, x: u32,
                          v': u32, l': u32, g': Bytes32, i': u32, s': Bytes32, o': u32, h': Bytes32, x': u32)
    requires TemplatePreimage(v, l, g, i, s, o, h, x) == TemplatePreimage(v', l', g', i', s', o', h', x')
    ensures v == v' && l == l' && g == g' && i == i' && s == s' && o == o' && h == h' && x == x'
  {
    hide ToLE, TemplatePreimage;
    PreimageLayout(v, l, g, i, s, o, h, x);
    PreimageLayout(v', l', g', i', s', o', h', x');
    U32Injective(v, v');
    U32Injective(l, l');
    U32Injective(i, i');
    U32Injective(o, o');
    U32Injective(x, x');
  }

  // ----- tagged hashes -----------------------------------------------------

  /** The ASCII tags "TapLeaf" and "TapBranch" of BIP-341. */
  const TAP_LEAF: Bytes := [0x54, 0x61, 0x70, 0x4c, 0x65, 0x61, 0x66]
  const TAP_BRANCH: Bytes := [0x54, 0x61, 0x70, 0x42, 0x72, 0x61, 0x6e, 0x63, 0x68]

  lemma TagsSpelled()
    ensures |TAP_LEAF| == 7 && forall i :: 0 <= i < 7 ==> TAP_LEAF[i] == "TapLeaf"[i] as nat
    ensures |TAP_BRANCH| == 9 && forall i :: 0 <= i < 9 ==> TAP_BRANCH[i] == "TapBranch"[i] as nat
  {
  }

  function TaggedMessage(sha: Sha256, tag: Bytes, msg: Bytes): Bytes {
    sha(tag) + (sha(tag) + msg)
  }

  function TaggedHash(sha: Sha256, tag: Bytes, msg: Bytes): Bytes32 {
    sha(TaggedMessage(sha, tag, msg))
  }

  /** Equal tagged messages carry equal messages and tags of equal hash. */
  lemma TaggedMessageInjective(sha: Sha256, s: Bytes, t: Bytes, x: Bytes, y: Bytes)
    requires TaggedMessage(sha, s, x) == TaggedMessage(sha, t, y)
    ensures sha(s) == sha(t) && x == y
  {
    SplitConcat(sha(s), sha(s) + x, sha(t), sha(t) + y);
    SplitConcat(sha(s), x, sha(t), y);
  }

  function LeafMessage(script: Script): Bytes {
    [0xc0] + (CompactSize(|script|) + script)
  }

  lemma LeafMessageInjective(s: Script, t: Script)
    requires LeafMessage(s) == LeafMessage(t)
    ensures s == t
  {
    SplitConcat([0xc0], CompactSize(|s|) + s, [0xc0], CompactSize(|t|) + t);
    CompactSizePrefixFree(|s|, |t|, s, t);
  }

  // ----- the code ----------------------------------------------------------

  /** A growing byte vector; also the data a running hasher has absorbed. */
  class ByteBuffer {
    var bytes: Bytes

    constructor ()
      ensures bytes == []
    {
      bytes := [];
    }

    method Push(b: byte)
      modifies this
      ensures bytes == old(bytes) + [b]
    {
      bytes := bytes + [b];
    }

    method Extend(bs: Bytes)
      modifies this
      ensures bytes == old(bytes) + bs
    {
      bytes := bytes + bs;
    }
  }

  method PushCompactSize(buf: ByteBuffer, n: u64)
    modifies buf
    ensures buf.bytes == old(buf.bytes) + CompactSize(n)
  {
    hide ToLE;
    NoBytes(n);
    if n <= 0xfc {
      buf.Push(n);
    } else if n <= 0xffff {
      buf.Push(0xfd);
      buf.Extend(ToLE(n, 2));
    } else if n <= 0xffff_ffff {
      buf.Push(0xfe);
      buf.Extend(ToLE(n, 4));
    } else {
      buf.Push(0xff);
      buf.Extend(ToLE(n, 8));
    }
  }

  lemma SequencesUnfold(seqs: seq<u32>, i: nat)
    requires i < |seqs|
    ensures SerialiseSequences(seqs[i..]) == ToLE(seqs[i], 4) + SerialiseSequences(seqs[i + 1..])
  {
    assert seqs[i..][1..] == seqs[i + 1..];
  }

  lemma SequencesEnd(seqs: seq<u32>)
    ensures SerialiseSequences(seqs[|seqs|..]) == []
  {
  }

  method HashSequences(sha: Sha256, seqs: seq<u32>) returns (h: Bytes32)
    ensures h == sha(SerialiseSequences(seqs))
    ensures exists p: Bytes ::
              && h == sha(p) && |p| == 4 * |seqs|
              && forall i :: 0 <= i < |seqs| ==> LE(p[4 * i..4 * i + 4]) == seqs[i]
  {
    hide SerialiseSequences, ToLE;
    assert seqs[0..] == seqs;
    var hasher := new ByteBuffer();
    for i := 0 to |seqs|
      invariant fresh(hasher)
      invariant hasher.bytes + SerialiseSequences(seqs[i..]) == SerialiseSequences(seqs)
    {
      ghost var before := hasher.bytes;
      hasher.Extend(ToLE(seqs[i], 4));
      SequencesUnfold(seqs, i);
      Assoc(before, ToLE(seqs[i], 4), SerialiseSequences(seqs[i + 1..]));
    }
    SequencesEnd(seqs);
    assert hasher.bytes + [] == hasher.bytes;
    SequencesLength(seqs);
    forall i | 0 <= i < |seqs| {
      SequenceAt(seqs, i);
    }
    h := sha(hasher.bytes);
  }

  /** What the loop of `hash_outputs` feeds the hasher for one output. */
  method AbsorbOutput(hasher: ByteBuffer, o: TxOutput)
    modifies hasher
    ensures hasher.bytes == old(hasher.bytes) + SerialiseOutput(o)
  {
    hasher.Extend(ToLE(o.value, 8));
    var cs := new ByteBuffer();
    PushCompactSize(cs, |o.script|);
    hasher.Extend(cs.bytes);
    hasher.Extend(o.script);
    assert [] + CompactSize(|o.script|) == CompactSize(|o.script|);
    ConcatAssoc(old(hasher.bytes), ToLE(o.value, 8), CompactSize(|o.script|), o.script);
  }

  lemma ConcatAssoc(a: Bytes, b: Bytes, c: Bytes, d: Bytes)
    ensures a + b + c + d == a + (b + (c + d))
  {
  }

  lemma OutputsUnfold(os: seq<TxOutput>, i: nat)
    requires i < |os|
    ensures SerialiseOutputs(os[i..]) == SerialiseOutput(os[i]) + SerialiseOutputs(os[i + 1..])
  {
    assert os[i..][1..] == os[i + 1..];
  }

  lemma OutputsEnd(os: seq<TxOutput>)
    ensures SerialiseOutputs(os[|os|..]) == []
  {
  }

  method HashOutputs(sha: Sha256, os: seq<TxOutput>) returns (h: Bytes32)
    ensures h == sha(SerialiseOutputs(os))
  {
    hide SerialiseOutputs, SerialiseOutput;
    assert os[0..] == os;
    var hasher := new ByteBuffer();
    for i := 0 to |os|
      invariant fresh(hasher)
      invariant hasher.bytes + SerialiseOutputs(os[i..]) == SerialiseOutputs(os)
    {
      ghost var before := hasher.bytes;
      AbsorbOutput(hasher, os[i]);
      OutputsUnfold(os, i);
      Assoc(before, SerialiseOutput(os[i]), SerialiseOutputs(os[i + 1..]));
    }
    OutputsEnd(os);
    assert hasher.bytes + [] == hasher.bytes;
    h := sha(hasher.bytes);
  }

  method CtvTemplateHash(sha: Sha256, nversion: u32, nlocktime: u32, scriptsigHash: Option<Bytes32>, inputCount: u32,
                         sequencesHash: Bytes32, outputCount: u32, outputsHash: Bytes32, inputIndex: u32)
    returns (h: Bytes32)
    ensures h == sha(TemplatePreimage(nversion, nlocktime, if scriptsigHash.Some? then scriptsigHash.value else Zeros(32),
                                      inputCount, sequencesHash, outputCount, outputsHash, inputIndex))
  {
    hide *;
    var sigHash := if scriptsigHash.Some? then scriptsigHash.value else Zeros(32);
    var data := new ByteBuffer();
    data.Extend(ToLE(nversion, 4));
    data.Extend(ToLE(nlocktime, 4));
    data.Extend(sigHash);
    data.Extend(ToLE(inputCount, 4));
    data.Extend(sequencesHash);
    data.Extend(ToLE(outputCount, 4));
    data.Extend(outputsHash);
    data.Extend(ToLE(inputIndex, 4));
    PreimageInOrder(data.bytes, nversion, nlocktime, sigHash, inputCount, sequencesHash, outputCount, outputsHash, inputIndex);
    h := sha(data.bytes);
  }

  lemma PreimageInOrder(data: Bytes, v: u32, l: u32, g: Bytes32, i: u32, s: Bytes32, o: u32, h: Bytes32, x: u32)
    requires data == [] + ToLE(v, 4) + ToLE(l, 4) + g + ToLE(i, 4) + s + ToLE(o, 4) + h + ToLE(x, 4)
    ensures data == TemplatePreimage(v, l, g, i, s, o, h, x)
  {
    hide ToLE;
    EightInOrder(ToLE(v, 4), ToLE(l, 4), g, ToLE(i, 4), s, ToLE(o, 4), h, ToLE(x, 4));
  }

  lemma EightInOrder(a: Bytes, b: Bytes, c: Bytes, d: Bytes, e: Bytes, f: Bytes, g: Bytes, h: Bytes)
    ensures [] + a + b + c + d + e + f + g + h == a + (b + (c + (d + (e + (f + (g + h))))))
  {
    assert [] + a == a;
    Assoc(a + b + c + d + e + f, g, h);
    Assoc(a + b + c + d + e, f, g + h);
    Assoc(a + b + c + d, e, f + (g + h));
    Assoc(a + b + c, d, e + (f + (g + h)));
    Assoc(a + b, c, d + (e + (f + (g + h))));
    Assoc(a, b, c + (d + (e + (f + (g + h)))));
  }

  lemma Assoc(a: Bytes, b: Bytes, c: Bytes)
    ensures a + b + c == a + (b + c)
  {
  }

  method ComputeTaggedHash(sha: Sha256, tag: Bytes, msg: Bytes) returns (h: Bytes32)
    ensures h == TaggedHash(sha, tag, msg)
    ensures h == sha(sha(tag) + sha(tag) + msg)
  {
    Assoc(sha(tag), sha(tag), msg);
    var tagHash := sha(tag);
    var hasher := new ByteBuffer();
    hasher.Extend(tagHash);
    hasher.Extend(tagHash);
    hasher.Extend(msg);
    assert hasher.bytes == TaggedMessage(sha, tag, msg);
    h := sha(hasher.bytes);
  }

  lemma LeafMessageInOrder(tag: Bytes, size: Bytes, script: Bytes)
    ensures tag + tag + [0xc0] + size + script == tag + (tag + ([0xc0] + (size + script)))
  {
  }

  lemma Assoc4(tag: Bytes, a: Bytes, b: Bytes)
    ensures tag + tag + a + b == tag + (tag + (a + b))
  {
  }

  /** A leaf hash, spelled out. */
  lemma LeafHashExact(sha: Sha256, script: Script)
    ensures TaggedHash(sha, TAP_LEAF, LeafMessage(script))
         == sha(sha(TAP_LEAF) + sha(TAP_LEAF) + [0xc0] + CompactSize(|script|) + script)
  {
    hide CompactSize;
    LeafMessageInOrder(sha(TAP_LEAF), CompactSize(|script|), script);
  }

  /** A branch hash, spelled out: the numerically smaller child comes first. */
  lemma BranchHashExact(sha: Sha256, left: Bytes32, right: Bytes32)
    ensures var h := TaggedHash(sha, TAP_BRANCH, SortedPair(left, right));
            && (BE(left) <= BE(right) ==> h == sha(sha(TAP_BRANCH) + sha(TAP_BRANCH) + left + right))
            && (BE(right) <= BE(left) ==> h == sha(sha(TAP_BRANCH) + sha(TAP_BRANCH) + right + left))
  {
    hide BE, LexLe;
    LexIsNumeric(left, right);
    if BE(left) == BE(right) {
      BEInjective(left, right);
    }
    Assoc4(sha(TAP_BRANCH), left, right);
    Assoc4(sha(TAP_BRANCH), right, left);
  }

  method TapleafHash(sha: Sha256, script: Script) returns (h: Bytes32)
    ensures h == TaggedHash(sha, TAP_LEAF, LeafMessage(script))
    ensures h == sha(sha(TAP_LEAF) + sha(TAP_LEAF) + [0xc0] + CompactSize(|script|) + script)
  {
    hide CompactSize;
    LeafHashExact(sha, script);
    var data := new ByteBuffer();
    data.Push(0xc0);
    PushCompactSize(data, |script|);
    data.Extend(script);
    assert data.bytes == LeafMessage(script);
    h := ComputeTaggedHash(sha, TAP_LEAF, data.bytes);
  }

  method TapbranchHash(sha: Sha256, left: Bytes32, right: Bytes32) returns (h: Bytes32)
    ensures h == TaggedHash(sha, TAP_BRANCH, SortedPair(left, right))
    ensures BE(left) <= BE(right) ==> h == sha(sha(TAP_BRANCH) + sha(TAP_BRANCH) + left + right)
    ensures BE(right) <= BE(left) ==> h == sha(sha(TAP_BRANCH) + sha(TAP_BRANCH) + right + left)
  {
    hide BE, LexLe;
    BranchHashExact(sha, left, right);
    var (a, b) := if LexLe(left, right) then (left, right) else (right, left);
    var data := new ByteBuffer();
    data.Extend(a);
    data.Extend(b);
    assert data.bytes == SortedPair(left, right);
    h := ComputeTaggedHash(sha, TAP_BRANCH, data.bytes);
  }
}
