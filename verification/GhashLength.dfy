/**
 * When the tag monitor's hash is the hash of section 7.1 of NIST SP 800-38D for a
 * ciphertext without additional data: the monitor takes a short last block as it is
 * and always hashes the length 9728.
 */
module GhashLength {
  import opened Bytes
  import opened Gf128
  import opened Gf128Words
  import opened Ghash

  /** `[ct[i:i + 16] for i in range(0, len(ct), 16)]` */
  function Chunks(c: seq<byte>): (r: seq<seq<byte>>)
    ensures forall i :: 0 <= i < |r| ==> |r[i]| <= 16
    ensures c == [] <==> r == []
    decreases |c|
  {
    if c == [] then [] else if |c| <= 16 then [c] else [c[..16]] + Chunks(c[16..])
  }

  /** Nothing is lost, doubled or moved by the cut. */
  lemma {:induction false} ChunksJoin(c: seq<byte>)
    ensures Join(Chunks(c)) == c
    decreases |c|
  {
    if |c| > 16 {
      ChunksJoin(c[16..]);
      assert Chunks(c)[1..] == Chunks(c[16..]);
      assert c == c[..16] + c[16..];
    } else if c != [] {
      assert [c][1..] == [];
    }
  }

  lemma Shifted(c: seq<byte>, from: nat, end: nat)
    requires from <= end && end + 16 <= |c|
    ensures c[16..][from..end] == c[from + 16..end + 16]
  {
  }

  /** Chunk `i` is the octets from 16 * i on, 16 of them except at the end. */
  lemma {:induction false} ChunkAt(c: seq<byte>, i: nat)
    requires i < (|c| + 15) / 16
    ensures |Chunks(c)| == (|c| + 15) / 16
    ensures Chunks(c)[i] == c[16 * i..if 16 * i + 16 <= |c| then 16 * i + 16 else |c|]
    decreases |c|
  {
    if |c| > 16 {
      var rest := c[16..];
      ChunkAt(rest, if i > 0 then i - 1 else 0);
      if i > 0 {
        Shifted(c, 16 * (i - 1), if 16 * i <= |rest| then 16 * i else |rest|);
      }
    }
  }

  /** A block filled up with zero octets on the right. */
  function Pad(b: seq<byte>): (p: seq<byte>)
    requires |b| <= 16
    ensures |p| == 16 && p[..|b|] == b && forall i :: |b| <= i < 16 ==> p[i] == 0
  {
    b + seq(16 - |b|, _ => 0)
  }

  function StandardBlocks(chunks: seq<seq<byte>>): (r: seq<Block>)
    requires forall i :: 0 <= i < |chunks| ==> |chunks[i]| <= 16
    ensures |r| == |chunks| && forall i :: 0 <= i < |r| ==> r[i] == BlockOf(WordOf(Pad(chunks[i])))
  {
    seq(|chunks|, i requires 0 <= i < |chunks| => BlockOf(WordOf(Pad(chunks[i]))))
  }

  /** The monitor's hash with the length block for `bits`. */
  function MonitorHashWith(h: Block, c: seq<byte>, bits: Word): Block {
    Sum(h, MonitorBlocks(Chunks(c)) + [BlockOf(bits)])
  }

  function MonitorHash(h: Block, c: seq<byte>): Block { MonitorHashWith(h, c, MONITOR_LENGTH_BITS) }

  /** The monitor's call on the ciphertext of one packet. */
  method MonitorTag(h: Word, c: seq<byte>) returns (tag: seq<byte>)
    ensures |tag| == 16 && BlockOf(WordOf(tag)) == MonitorHash(BlockOf(h), c)
  {
    tag := Ghash.Ghash(h, Chunks(c));
  }

  /** GHASH of the padded ciphertext, [0]_64 and [len(C)]_64. */
  function StandardHash(h: Block, c: seq<byte>): Block
    requires 8 * |c| < 0x1_0000_0000_0000_0000
  {
    Sum(h, StandardBlocks(Chunks(c)) + [BlockOf(8 * |c|)])
  }

  // ----- differences of hashes ----------------------------------------------------------------

  function XorAll(xs: seq<Block>, ys: seq<Block>): (r: seq<Block>)
    requires |xs| == |ys|
    ensures |r| == |xs| && forall i :: 0 <= i < |r| ==> r[i] == Xor(xs[i], ys[i])
  {
    seq(|xs|, i requires 0 <= i < |xs| => Xor(xs[i], ys[i]))
  }

  lemma XorAllTail(xs: seq<Block>, ys: seq<Block>)
    requires |xs| == |ys| > 0
    ensures XorAll(xs, ys)[1..] == XorAll(xs[1..], ys[1..])
  {
  }

  /** The difference of two hashes is the hash of the difference. */
  lemma {:induction false} SumOfDifference(h: Block, xs: seq<Block>, ys: seq<Block>)
    requires |xs| == |ys|
    ensures Xor(Sum(h, xs), Sum(h, ys)) == Sum(h, XorAll(xs, ys))
    decreases |xs|
  {
    if xs == [] {
      XorZero(ZERO);
    } else {
      var power := HPower(h, |xs|);
      SumOfDifference(h, xs[1..], ys[1..]);
      XorAllTail(xs, ys);
      MulDistributes(power, xs[0], ys[0]);
      XorSwap(Mul(xs[0], power), Sum(h, xs[1..]), Mul(ys[0], power), Sum(h, ys[1..]));
    }
  }

  /** So for messages of one length it depends only on their bitwise difference. */
  lemma TagDifferenceDependsOnDifference(h: Block, a: seq<Block>, b: seq<Block>, a': seq<Block>, b': seq<Block>,
                                         l: Block)
    requires |a| == |b| == |a'| == |b'| && XorAll(a, b) == XorAll(a', b')
    ensures Xor(Sum(h, a + [l]), Sum(h, b + [l])) == Xor(Sum(h, a' + [l]), Sum(h, b' + [l]))
  {
    DifferenceOfTags(h, a, b, l);
    DifferenceOfTags(h, a', b', l);
  }

  lemma DifferenceOfTags(h: Block, a: seq<Block>, b: seq<Block>, l: Block)
    requires |a| == |b|
    ensures Xor(Sum(h, a + [l]), Sum(h, b + [l])) == Sum(h, XorAll(a, b) + [ZERO])
  {
    SumOfDifference(h, a + [l], b + [l]);
    XorAllAppend(a, b, l);
  }

  lemma XorAllAppend(a: seq<Block>, b: seq<Block>, l: Block)
    requires |a| == |b|
    ensures XorAll(a + [l], b + [l]) == XorAll(a, b) + [ZERO]
  {
    XorZero(l);
    var d, e := XorAll(a + [l], b + [l]), XorAll(a, b) + [ZERO];
    forall i | 0 <= i < |d| ensures d[i] == e[i] {
      if i < |a| {
        assert e[i] == Xor(a[i], b[i]);
      } else {
        assert d[i] == Xor(l, l);
      }
    }
  }

  lemma SumSkipsZero(h: Block, xs: seq<Block>)
    requires xs != [] && xs[0] == ZERO
    ensures Sum(h, xs) == Sum(h, xs[1..])
  {
    ActZero(HPower(h, |xs|));
    MulCommutative(ZERO, HPower(h, |xs|));
    XorZero(Sum(h, xs[1..]));
  }

  lemma EqualHeadsCancel(h: Block, xs: seq<Block>, ys: seq<Block>)
    requires |xs| == |ys| > 0 && xs[0] == ys[0]
    ensures Xor(Sum(h, xs), Sum(h, ys)) == Xor(Sum(h, xs[1..]), Sum(h, ys[1..]))
  {
    SumOfDifference(h, xs, ys);
    SumOfDifference(h, xs[1..], ys[1..]);
    XorZero(xs[0]);
    SumSkipsZero(h, XorAll(xs, ys));
    XorAllTail(xs, ys);
  }

  lemma SumCons(h: Block, x: Block, rest: seq<Block>, all: seq<Block>)
    requires all == [x] + rest
    ensures Sum(h, all) == Xor(Mul(x, HPower(h, |rest| + 1)), Sum(h, rest))
  {
    assert all[1..] == rest;
  }

  lemma HPowerOne(h: Block)
    ensures HPower(h, 1) == h
  {
    MulIdentity(h);
    assert HPower(h, 0) == ONE;
  }

  lemma SumOfOne(h: Block, b: Block)
    ensures Sum(h, [b]) == Mul(b, h)
  {
    SumCons(h, b, [], [b]);
    HPowerOne(h);
    XorZero(Mul(b, h));
  }

  lemma SumOfTwo(h: Block, a: Block, b: Block)
    ensures Sum(h, [a, b]) == Xor(Mul(a, Mul(h, h)), Mul(b, h))
  {
    SumCons(h, a, [b], [a, b]);
    SumOfOne(h, b);
    HPowerOne(h);
  }

  /** The padding error of the last block, as the monitor makes it. */
  function PadError(c: seq<byte>): Block
    decreases |c|
  {
    if c == [] then ZERO
    else if |c| <= 16 then Xor(BlockOf(WordOf(c)), BlockOf(WordOf(Pad(c))))
    else PadError(c[16..])
  }

  lemma ErrorOfTwo(h: Block, a: Block, a': Block, l: Block, l': Block)
    ensures Xor(Sum(h, [a, l]), Sum(h, [a', l'])) == Sum(h, [Xor(a, a'), Xor(l, l')])
  {
    SumOfDifference(h, [a, l], [a', l']);
    assert XorAll([a, l], [a', l']) == [Xor(a, a'), Xor(l, l')];
  }

  lemma ErrorOfOne(h: Block, l: Block, l': Block)
    ensures Xor(Sum(h, [l]), Sum(h, [l'])) == Sum(h, [ZERO, Xor(l, l')])
  {
    SumOfDifference(h, [l], [l']);
    assert XorAll([l], [l']) == [Xor(l, l')] == [ZERO, Xor(l, l')][1..];
    SumSkipsZero(h, [ZERO, Xor(l, l')]);
  }

  lemma BlocksOfCons(b: seq<byte>, rest: seq<seq<byte>>, all: seq<seq<byte>>)
    requires |b| == 16 && all == [b] + rest && forall i :: 0 <= i < |rest| ==> |rest[i]| <= 16
    ensures MonitorBlocks(all)[0] == StandardBlocks(all)[0]
    ensures MonitorBlocks(all)[1..] == MonitorBlocks(rest)
    ensures StandardBlocks(all)[1..] == StandardBlocks(rest)
  {
    assert Pad(b) == b;
    assert forall i :: 0 <= i < |rest| ==> all[i + 1] == rest[i];
    var ms, ss := MonitorBlocks(all)[1..], StandardBlocks(all)[1..];
    forall i | 0 <= i < |rest| ensures ms[i] == MonitorBlocks(rest)[i] && ss[i] == StandardBlocks(rest)[i] {
      assert ms[i] == MonitorBlocks(all)[i + 1] && ss[i] == StandardBlocks(all)[i + 1];
    }
  }

  /** Monitor and standard differ by the padding error times h^2 plus the length error times h. */
  lemma {:induction false} HashError(h: Block, c: seq<byte>, l: Block, l': Block)
    ensures Xor(Sum(h, MonitorBlocks(Chunks(c)) + [l]), Sum(h, StandardBlocks(Chunks(c)) + [l']))
            == Sum(h, [PadError(c), Xor(l, l')])
    decreases |c|
  {
    if |c| <= 16 {
      ShortError(h, c, l, l');
    } else {
      LongError(h, c, l, l');
      HashError(h, c[16..], l, l');
    }
  }

  lemma ShortError(h: Block, c: seq<byte>, l: Block, l': Block)
    requires |c| <= 16
    ensures Xor(Sum(h, MonitorBlocks(Chunks(c)) + [l]), Sum(h, StandardBlocks(Chunks(c)) + [l']))
            == Sum(h, [PadError(c), Xor(l, l')])
  {
    var ms, ss := MonitorBlocks(Chunks(c)) + [l], StandardBlocks(Chunks(c)) + [l'];
    if c == [] {
      assert ms == [l] && ss == [l'];
      ErrorOfOne(h, l, l');
    } else {
      var a, a' := BlockOf(WordOf(c)), BlockOf(WordOf(Pad(c)));
      assert ms == [a, l] && ss == [a', l'];
      ErrorOfTwo(h, a, a', l, l');
    }
  }

  lemma LongError(h: Block, c: seq<byte>, l: Block, l': Block)
    requires |c| > 16
    ensures Xor(Sum(h, MonitorBlocks(Chunks(c)) + [l]), Sum(h, StandardBlocks(Chunks(c)) + [l']))
            == Xor(Sum(h, MonitorBlocks(Chunks(c[16..])) + [l]), Sum(h, StandardBlocks(Chunks(c[16..])) + [l']))
  {
    var ms, ss := MonitorBlocks(Chunks(c)) + [l], StandardBlocks(Chunks(c)) + [l'];
    BlocksOfCons(c[..16], Chunks(c[16..]), Chunks(c));
    assert ms[1..] == MonitorBlocks(Chunks(c[16..])) + [l];
    assert ss[1..] == StandardBlocks(Chunks(c[16..])) + [l'];
    EqualHeadsCancel(h, ms, ss);
  }

  // ----- two points where a non-zero error shows ---------------------------------------------

  lemma SumAtOne(a: Block, b: Block)
    ensures Sum(ONE, [a, b]) == Xor(a, b)
  {
    SumOfTwo(ONE, a, b);
    MulIdentity(ONE);
    MulIdentity(a);
    MulIdentity(b);
  }

  lemma MulByU(a: Block)
    ensures Mul(a, TimesU(ONE)) == TimesU(a)
  {
    ActTimesU(a, ONE);
    ActOnOne(a);
  }

  lemma SumAtU(a: Block, b: Block)
    ensures Sum(TimesU(ONE), [a, b]) == TimesU(Xor(TimesU(a), b))
  {
    var u := TimesU(ONE);
    SumOfTwo(u, a, b);
    MulAssociative(a, u, u);
    MulByU(a);
    MulByU(TimesU(a));
    MulByU(b);
    TimesULinear(TimesU(a), b);
  }

  lemma TimesUInjective(d: Block)
    requires TimesU(d) == ZERO
    ensures d == ZERO
  {
    assert !TimesU(d)[0];
    forall i | 0 <= i < 127 ensures !d[i] { assert !TimesU(d)[i + 1]; }
  }

  /** u has no fixed point but zero: 1 + u is not a zero divisor. */
  lemma TimesUFixesOnlyZero(d: Block)
    requires TimesU(d) == d
    ensures d == ZERO
  {
    FixedPointBits(d);
    var i := 7;
    while i < 127
      invariant 7 <= i <= 127 && !d[i]
    {
      assert d[i + 1] == TimesU(d)[i + 1];
      i := i + 1;
    }
    var j := 0;
    while j < 127
      invariant 0 <= j <= 127 && forall k :: 0 <= k <= j ==> !d[k]
    {
      assert d[j + 1] == TimesU(d)[j + 1];
      j := j + 1;
    }
  }

  lemma FixedPointBits(d: Block)
    requires TimesU(d) == d
    ensures !d[7] && d[0] == d[127]
  {
    assert d[0] == TimesU(d)[0];
    assert d[1] == TimesU(d)[1];
    assert d[2] == TimesU(d)[2];
    assert d[3] == TimesU(d)[3];
    assert d[4] == TimesU(d)[4];
    assert d[5] == TimesU(d)[5];
    assert d[6] == TimesU(d)[6];
    assert d[7] == TimesU(d)[7];
  }

  /** If the error vanishes at h = 1 and at h = u, there is none. */
  lemma ErrorsVanish(pad: Block, length: Block)
    requires Sum(ONE, [pad, length]) == ZERO && Sum(TimesU(ONE), [pad, length]) == ZERO
    ensures length == ZERO
  {
    SumAtOne(pad, length);
    SumAtU(pad, length);
    XorIsZero(pad, length);
    TimesUInjective(Xor(TimesU(pad), length));
    XorIsZero(TimesU(pad), length);
    TimesUFixesOnlyZero(pad);
  }

  lemma {:induction false} NoPadError(c: seq<byte>)
    requires |c| % 16 == 0
    ensures PadError(c) == ZERO
    decreases |c|
  {
    if 0 < |c| <= 16 {
      assert Pad(c) == c;
      XorZero(BlockOf(WordOf(c)));
    } else if c != [] {
      NoPadError(c[16..]);
    }
  }

  lemma AgreementIsZeroError(h: Block, c: seq<byte>, bits: Word)
    requires 8 * |c| < 0x1_0000_0000_0000_0000
    ensures MonitorHashWith(h, c, bits) == StandardHash(h, c)
            <==> Sum(h, [PadError(c), Xor(BlockOf(bits), BlockOf(8 * |c|))]) == ZERO
  {
    HashError(h, c, BlockOf(bits), BlockOf(8 * |c|));
    XorIsZero(MonitorHashWith(h, c, bits), StandardHash(h, c));
  }

  lemma SumOfZeros(h: Block)
    ensures Sum(h, [ZERO, ZERO]) == ZERO
  {
    SumOfTwo(h, ZERO, ZERO);
    ActZero(Mul(h, h));
    ActZero(h);
    MulCommutative(ZERO, Mul(h, h));
    MulCommutative(ZERO, h);
    XorZero(ZERO);
  }

  /** With any length constant: agreement for every key means whole blocks of that length. */
  lemma AgreesIffLengthMatches(c: seq<byte>, bits: Word)
    requires 8 * |c| < 0x1_0000_0000_0000_0000 && bits % 128 == 0
    ensures (forall h: Block :: MonitorHashWith(h, c, bits) == StandardHash(h, c)) <==> 8 * |c| == bits
  {
    var l, l' := BlockOf(bits), BlockOf(8 * |c|);
    if 8 * |c| == bits {
      NoPadError(c);
      XorZero(l);
      forall h: Block ensures MonitorHashWith(h, c, bits) == StandardHash(h, c) {
        AgreementIsZeroError(h, c, bits);
        SumOfZeros(h);
      }
    }
    if forall h: Block :: MonitorHashWith(h, c, bits) == StandardHash(h, c) {
      AgreementIsZeroError(ONE, c, bits);
      AgreementIsZeroError(TimesU(ONE), c, bits);
      ErrorsVanish(PadError(c), Xor(l, l'));
      XorIsZero(l, l');
      BlocksDetermineWords(bits, 8 * |c|);
    }
  }

  /**
   * The monitor's hash is the standard one for every hash key exactly when the ciphertext
   * has 1,216 octets, the 76 blocks its length constant was written for.
   */
  lemma MonitorAgreesIff76Blocks(c: seq<byte>)
    requires 8 * |c| < 0x1_0000_0000_0000_0000
    ensures (forall h: Block :: MonitorHash(h, c) == StandardHash(h, c)) <==> |c| == 1216
  {
    AgreesIffLengthMatches(c, MONITOR_LENGTH_BITS);
    assert forall h: Block :: MonitorHash(h, c) == MonitorHashWith(h, c, MONITOR_LENGTH_BITS);
  }
}
