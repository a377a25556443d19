/** `ghash` of the tag monitor, against section 6.4 and section 7.1 of NIST SP 800-38D. */
module Ghash {
  import opened Bytes
  import opened Gf128
  import opened Gf128Words

  /** The length block the monitor hashes: 9728 bits, whatever the ciphertext. */
  const MONITOR_LENGTH_BITS: Word := 9728

  function HPower(h: Block, k: nat): Block { if k == 0 then ONE else Mul(HPower(h, k - 1), h) }

  /** GHASH as a sum: block i of n is multiplied by h^(n + 1 - i). */
  function Sum(h: Block, xs: seq<Block>): Block {
    if xs == [] then ZERO else Xor(Mul(xs[0], HPower(h, |xs|)), Sum(h, xs[1..]))
  }

  /** GHASH as section 6.4 computes it. */
  function Horner(h: Block, xs: seq<Block>, y: Block): Block
    decreases |xs|
  {
    if xs == [] then y else Horner(h, xs[1..], Mul(Xor(y, xs[0]), h))
  }

  lemma {:induction false} HornerIsSum(h: Block, xs: seq<Block>, y: Block)
    ensures Horner(h, xs, y) == Xor(Mul(y, HPower(h, |xs|)), Sum(h, xs))
    decreases |xs|
  {
    if xs == [] {
      MulIdentity(y);
      XorZero(y);
    } else {
      var x, power := xs[0], HPower(h, |xs| - 1);
      HornerIsSum(h, xs[1..], Mul(Xor(y, x), h));
      MulAssociative(Xor(y, x), h, power);
      MulCommutative(h, power);
      MulDistributes(HPower(h, |xs|), y, x);
      XorAssoc(Mul(y, HPower(h, |xs|)), Mul(x, HPower(h, |xs|)), Sum(h, xs[1..]));
    }
  }

  lemma {:induction false} HornerAppend(h: Block, xs: seq<Block>, x: Block, y: Block)
    ensures Horner(h, xs + [x], y) == Mul(Xor(Horner(h, xs, y), x), h)
    decreases |xs|
  {
    if xs == [] {
      assert xs + [x] == [x] && [x][1..] == [];
    } else {
      assert (xs + [x])[1..] == xs[1..] + [x];
      HornerAppend(h, xs[1..], x, Mul(Xor(y, xs[0]), h));
    }
  }

  // ----- the method -----------------------------------------------------------------------

  /** `int.from_bytes(b, "big")` */
  function WordOf(b: seq<byte>): Word
    requires |b| <= 16
  {
    FromBEBound(b);
    Pow256Bound(|b|);
    FromBE(b)
  }

  lemma Pow256Bound(k: nat)
    requires k <= 16
    ensures Pow256(k) <= TWO_128
  {
    Pow256Of8And16();
    Pow256Grows(k, 16);
  }

  lemma {:induction false} Pow256Grows(j: nat, k: nat)
    requires j <= k
    ensures Pow256(j) <= Pow256(k)
    decreases k
  {
    if j < k { Pow256Grows(j, k - 1); }
  }

  function MonitorBlocks(blocks: seq<seq<byte>>): (r: seq<Block>)
    requires forall i :: 0 <= i < |blocks| ==> |blocks[i]| <= 16
    ensures |r| == |blocks| && forall i :: 0 <= i < |r| ==> r[i] == BlockOf(WordOf(blocks[i]))
  {
    seq(|blocks|, i requires 0 <= i < |blocks| => BlockOf(WordOf(blocks[i])))
  }

  lemma AbsorbStep(h: Block, xs: seq<Block>, i: nat, y: Word, b: Word, y': Word)
    requires i < |xs| && xs[i] == BlockOf(b) && BlockOf(y) == Horner(h, xs[..i], ZERO)
    requires XorInt(y, b) < TWO_128 && BlockOf(y') == Mul(BlockOf(XorInt(y, b)), h)
    ensures BlockOf(y') == Horner(h, xs[..i + 1], ZERO)
  {
    BlockOfXor(y, b);
    HornerAppend(h, xs[..i], xs[i], ZERO);
    assert xs[..i + 1] == xs[..i] + [xs[i]];
  }

  /** The hash is the sum over the given blocks and the constant length block. */
  method Ghash(h: Word, blocks: seq<seq<byte>>) returns (tag: seq<byte>)
    requires forall i :: 0 <= i < |blocks| ==> |blocks[i]| <= 16
    ensures |tag| == 16
    ensures BlockOf(WordOf(tag)) == Sum(BlockOf(h), MonitorBlocks(blocks) + [BlockOf(MONITOR_LENGTH_BITS)])
  {
    ghost var xs := MonitorBlocks(blocks) + [BlockOf(MONITOR_LENGTH_BITS)];
    var y: Word := 0;
    BlockOfZero();
    for i := 0 to |blocks|
      invariant BlockOf(y) == Horner(BlockOf(h), xs[..i], ZERO)
    {
      var b := WordOf(blocks[i]);
      BlockOfXor(y, b);
      var y' := GfMul(XorInt(y, b), h);
      AbsorbStep(BlockOf(h), xs, i, y, b, y');
      y := y';
    }
    BlockOfXor(y, MONITOR_LENGTH_BITS);
    var y' := GfMul(XorInt(y, MONITOR_LENGTH_BITS), h);
    AbsorbStep(BlockOf(h), xs, |blocks|, y, MONITOR_LENGTH_BITS, y');
    assert xs[..|blocks| + 1] == xs;
    SumFromZero(BlockOf(h), xs);
    tag := TagOf(y');
  }

  /** `y.to_bytes(16, "big")` */
  function TagOf(y: Word): (tag: seq<byte>)
    ensures |tag| == 16 && WordOf(tag) == y
  {
    Pow256Of8And16();
    EncodeDecode(y, 16);
    ToBE(y, 16)
  }

  lemma SumFromZero(h: Block, xs: seq<Block>)
    ensures Horner(h, xs, ZERO) == Sum(h, xs)
  {
    HornerIsSum(h, xs, ZERO);
    ActZero(HPower(h, |xs|));
    MulCommutative(ZERO, HPower(h, |xs|));
    XorZero(Sum(h, xs));
  }
}
