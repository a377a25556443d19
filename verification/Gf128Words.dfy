/** `gf_mul` on integers below 2^128, and the bit strings they stand for. */
module Gf128Words {
  import opened Gf128

  const TWO_128: nat := 0x1_0000_0000_0000_0000_0000_0000_0000_0000
  const R_WORD: nat := 0xE100_0000_0000_0000_0000_0000_0000_0000

  type Word = n: nat | n < TWO_128

  function Pow2(k: nat): (p: nat)
    ensures p > 0
  {
    if k == 0 then 1 else 2 * Pow2(k - 1)
  }

  /** `x >> s` */
  function Shr(x: nat, s: nat): nat { if s == 0 then x else Shr(x / 2, s - 1) }

  /** `a ^ b` */
  function XorInt(a: nat, b: nat): nat {
    if a == 0 && b == 0 then 0
    else 2 * XorInt(a / 2, b / 2) + if a % 2 != b % 2 then 1 else 0
  }

  /** The low `k` bits of `n`, most significant first. */
  function Bits(n: nat, k: nat): (s: seq<bool>)
    ensures |s| == k
  {
    if k == 0 then [] else Bits(n / 2, k - 1) + [n % 2 == 1]
  }

  function BlockOf(w: nat): Block { Bits(w, 128) }

  lemma {:induction false} BitsAt(n: nat, k: nat, i: nat)
    requires i < k
    ensures Bits(n, k)[i] == (Shr(n, k - 1 - i) % 2 == 1)
  {
    if i < k - 1 { BitsAt(n / 2, k - 1, i); }
  }

  lemma {:induction false} BitsInjective(a: nat, b: nat, k: nat)
    requires a < Pow2(k) && b < Pow2(k) && Bits(a, k) == Bits(b, k)
    ensures a == b
  {
    if k > 0 {
      var s, t := Bits(a, k), Bits(b, k);
      assert s[..k - 1] == Bits(a / 2, k - 1) && t[..k - 1] == Bits(b / 2, k - 1);
      assert s[k - 1] == (a % 2 == 1) && t[k - 1] == (b % 2 == 1);
      BitsInjective(a / 2, b / 2, k - 1);
    }
  }

  lemma {:induction false} BitsXor(a: nat, b: nat, k: nat)
    ensures forall i :: 0 <= i < k ==> Bits(XorInt(a, b), k)[i] == (Bits(a, k)[i] != Bits(b, k)[i])
  {
    if k > 0 {
      var x := XorInt(a, b);
      assert x / 2 == XorInt(a / 2, b / 2) && (x % 2 == 1 <==> a % 2 != b % 2);
      BitsXor(a / 2, b / 2, k - 1);
    }
  }

  lemma {:induction false} XorBound(a: nat, b: nat, k: nat)
    requires a < Pow2(k) && b < Pow2(k)
    ensures XorInt(a, b) < Pow2(k)
  {
    if k > 0 { XorBound(a / 2, b / 2, k - 1); }
  }

  lemma {:induction false} BitsHalf(v: nat, k: nat)
    requires k > 0 && v < Pow2(k)
    ensures Bits(v / 2, k) == [false] + Bits(v, k)[..k - 1]
  {
    assert Bits(v, k)[..k - 1] == Bits(v / 2, k - 1);
    LeadingZero(v / 2, k - 1);
  }

  lemma {:induction false} LeadingZero(n: nat, k: nat)
    requires n < Pow2(k)
    ensures Bits(n, k + 1) == [false] + Bits(n, k)
  {
    if k > 0 { LeadingZero(n / 2, k - 1); }
  }

  function Shl(n: nat, j: nat): nat { if j == 0 then n else 2 * Shl(n, j - 1) }

  lemma {:induction false} BitsShl(n: nat, k: nat, j: nat)
    ensures Bits(Shl(n, j), k + j) == Bits(n, k) + Zeros(j)
  {
    if j > 0 {
      BitsShl(n, k, j - 1);
      assert Shl(n, j) / 2 == Shl(n, j - 1) && Shl(n, j) % 2 == 0;
      assert Zeros(j - 1) + [false] == Zeros(j);
    }
  }

  lemma Shl4(n: nat, j: nat)
    ensures Shl(n, j + 4) == 0x10 * Shl(n, j)
  {
    assert Shl(n, j + 2) == 2 * Shl(n, j + 1);
    assert Shl(n, j + 4) == 2 * Shl(n, j + 3);
  }

  lemma Shl8(n: nat, j: nat)
    ensures Shl(n, j + 8) == 0x100 * Shl(n, j)
  {
    Shl4(n, j);
    Shl4(n, j + 4);
  }

  lemma Shl40(n: nat, j: nat)
    ensures Shl(n, j + 40) == 0x100_0000_0000 * Shl(n, j)
  {
    Shl8(n, j);
    Shl8(n, j + 8);
    Shl8(n, j + 16);
    Shl8(n, j + 24);
    Shl8(n, j + 32);
  }

  lemma RWordIsShl()
    ensures Shl(0xE1, 120) == R_WORD
  {
    Shl40(0xE1, 0);
    Shl40(0xE1, 40);
    Shl40(0xE1, 80);
  }

  lemma RWordIsR()
    ensures BlockOf(R_WORD) == R()
  {
    RWordIsShl();
    BitsShl(0xE1, 8, 120);
    assert Bits(0xE1, 8) == [true, true, true, false, false, false, false, true];
    assert Bits(0xE1, 8) + Zeros(120) == R();
  }

  lemma {:induction false} Pow2IsShl(k: nat)
    ensures Pow2(k) == Shl(1, k)
  {
    if k > 0 { Pow2IsShl(k - 1); }
  }

  lemma Pow2Of128()
    ensures Pow2(128) == TWO_128
  {
    Pow2IsShl(128);
    Shl8(1, 0);
    Shl40(1, 8);
    Shl40(1, 48);
    Shl40(1, 88);
  }

  // ----- the loop -----------------------------------------------------------------------------

  lemma BlockOfXor(a: Word, b: Word)
    ensures XorInt(a, b) < TWO_128 && BlockOf(XorInt(a, b)) == Xor(BlockOf(a), BlockOf(b))
  {
    Pow2Of128();
    XorBound(a, b, 128);
    BitsXor(a, b, 128);
  }

  lemma BlockOfHalf(v: Word)
    ensures BlockOf(v / 2) == [false] + BlockOf(v)[..127] && BlockOf(v)[127] == (v % 2 == 1)
  {
    Pow2Of128();
    BitsHalf(v, 128);
  }

  lemma BlocksDetermineWords(a: Word, b: Word)
    requires BlockOf(a) == BlockOf(b)
    ensures a == b
  {
    Pow2Of128();
    BitsInjective(a, b, 128);
  }

  /** `(v >> 1) ^ R if v & 1 else v >> 1` multiplies by u. */
  function Halve(v: Word): (r: Word)
    ensures BlockOf(r) == TimesU(BlockOf(v))
  {
    BlockOfHalf(v);
    RWordIsR();
    BlockOfXor(v / 2, R_WORD);
    if v % 2 == 1 then XorInt(v / 2, R_WORD) else v / 2
  }

  /** `z ^ v if (x >> (127 - i)) & 1 else z` */
  function AddIfSet(x: Word, i: nat, z: Word, v: Word): (r: Word)
    requires i < 128
    ensures BlockOf(r) == if BlockOf(x)[i] then Xor(BlockOf(z), BlockOf(v)) else BlockOf(z)
  {
    BitsAt(x, 128, i);
    BlockOfXor(z, v);
    if Shr(x, 127 - i) % 2 == 1 then XorInt(z, v) else z
  }

  lemma StepOfMul(p: Block, i: nat, z: Block, v: Block)
    requires i < 128
    ensures Xor(z, Act(p[i..], v)) == Xor(if p[i] then Xor(z, v) else z, Act(p[i + 1..], TimesU(v)))
  {
    assert p[i..][1..] == p[i + 1..] && p[i..][0] == p[i];
    XorAssoc(z, if p[i] then v else ZERO, Act(p[i + 1..], TimesU(v)));
    XorZero(z);
  }

  /** What is still to be added to `z` after bit `i` of `x`. */
  ghost function Rest(x: Word, i: nat, z: Word, v: Word): Block
    requires i <= 128
  {
    Xor(BlockOf(z), Act(BlockOf(x)[i..], BlockOf(v)))
  }

  lemma RestStep(x: Word, i: nat, z: Word, v: Word, z': Word, v': Word)
    requires i < 128 && BlockOf(v') == TimesU(BlockOf(v))
    requires BlockOf(z') == if BlockOf(x)[i] then Xor(BlockOf(z), BlockOf(v)) else BlockOf(z)
    ensures Rest(x, i, z, v) == Rest(x, i + 1, z', v')
  {
    StepOfMul(BlockOf(x), i, BlockOf(z), BlockOf(v));
  }

  lemma RestEnds(x: Word, y: Word, z: Word, v: Word)
    ensures Rest(x, 0, 0, y) == Mul(BlockOf(x), BlockOf(y))
    ensures Rest(x, 128, z, v) == BlockOf(z)
  {
    BlockOfZero();
    assert BlockOf(x)[0..] == BlockOf(x) && BlockOf(x)[128..] == [];
    XorZero(Mul(BlockOf(x), BlockOf(y)));
    XorZero(BlockOf(z));
  }

  /** `gf_mul` computes the product of the blocks its arguments stand for. */
  method GfMul(x: Word, y: Word) returns (z: Word)
    ensures BlockOf(z) == Mul(BlockOf(x), BlockOf(y))
  {
    z := 0;
    var v: Word := y;
    RestEnds(x, y, z, v);
    for i := 0 to 128
      invariant Rest(x, i, z, v) == Mul(BlockOf(x), BlockOf(y))
    {
      ghost var z0, v0 := z, v;
      z := AddIfSet(x, i, z, v);
      v := Halve(v);
      RestStep(x, i, z0, v0, z, v);
    }
    RestEnds(x, y, z, v);
  }

  lemma BlockOfZero()
    ensures BlockOf(0) == ZERO
  {
    BitsShl(0, 0, 128);
    ShlZero(128);
  }

  lemma {:induction false} ShlZero(k: nat)
    ensures Shl(0, k) == 0
  {
    if k > 0 { ShlZero(k - 1); }
  }
}
