/**
 * The field GF(2^128) of GCM on 128-bit strings, leftmost bit first, as in section 6.3 of
 * NIST SP 800-38D: bit i is the coefficient of u^i, and u^128 = u^7 + u^2 + u + 1.
 */
module Gf128 {
  type Block = s: seq<bool> | |s| == 128 witness Zeros(128)

  function Zeros(n: nat): (z: seq<bool>)
    ensures |z| == n && forall i :: 0 <= i < n ==> !z[i]
  {
    seq(n, _ => false)
  }

  /** A polynomial over GF(2), constant coefficient first. */
  type Poly = seq<bool>

  function Xor(a: Block, b: Block): (c: Block)
    ensures forall i :: 0 <= i < 128 ==> c[i] == (a[i] != b[i])
  {
    seq(128, i requires 0 <= i < 128 => a[i] != b[i])
  }

  const ZERO: Block := Zeros(128)

  /** u^j */
  function Unit(j: nat): (c: Block)
    requires j < 128
    ensures forall i :: 0 <= i < 128 ==> c[i] == (i == j)
  {
    seq(128, i => i == j)
  }

  const ONE: Block := Unit(0)

  /** 0xE1 followed by 120 zero bits: what u^128 reduces to. */
  function R(): (r: Block)
    ensures forall i :: 0 <= i < 128 ==> r[i] == (i in {0, 1, 2, 7})
  {
    seq(128, i => i in {0, 1, 2, 7})
  }

  /** Multiplication by u: `(v >> 1) ^ R if v & 1 else v >> 1`. */
  function TimesU(v: Block): Block {
    var shifted: Block := [false] + v[..127];
    if v[127] then Xor(shifted, R()) else shifted
  }

  /** p(u) * y, one coefficient at a time: the sum of u^i * y over the set coefficients i. */
  function Act(p: Poly, y: Block): Block
    decreases |p|
  {
    if p == [] then ZERO
    else Xor(if p[0] then y else ZERO, Act(p[1..], TimesU(y)))
  }

  /** The block product of section 6.3. */
  function Mul(x: Block, y: Block): Block { Act(x, y) }

  // ----- exclusive or ---------------------------------------------------------------------

  lemma XorAssoc(a: Block, b: Block, c: Block)
    ensures Xor(Xor(a, b), c) == Xor(a, Xor(b, c))
  {
  }

  lemma XorZero(a: Block)
    ensures Xor(a, ZERO) == Xor(ZERO, a) == a && Xor(a, a) == ZERO
  {
  }

  lemma XorSwap(a: Block, b: Block, c: Block, d: Block)
    ensures Xor(Xor(a, b), Xor(c, d)) == Xor(Xor(a, c), Xor(b, d))
  {
  }

  /** Blocks are equal exactly when their sum is zero. */
  lemma XorIsZero(a: Block, b: Block)
    ensures Xor(a, b) == ZERO <==> a == b
  {
    if Xor(a, b) == ZERO {
      assert forall i :: 0 <= i < 128 ==> !Xor(a, b)[i];
    }
  }

  // ----- the action of polynomials --------------------------------------------------------

  lemma TimesULinear(a: Block, b: Block)
    ensures TimesU(Xor(a, b)) == Xor(TimesU(a), TimesU(b))
  {
  }

  lemma {:induction false} ActLinear(p: Poly, a: Block, b: Block)
    ensures Act(p, Xor(a, b)) == Xor(Act(p, a), Act(p, b))
    decreases |p|
  {
    if p == [] {
      XorZero(ZERO);
    } else {
      TimesULinear(a, b);
      ActLinear(p[1..], TimesU(a), TimesU(b));
      XorSwap(a, Act(p[1..], TimesU(a)), b, Act(p[1..], TimesU(b)));
      XorZero(ZERO);
      XorSwap(ZERO, Act(p[1..], TimesU(a)), ZERO, Act(p[1..], TimesU(b)));
    }
  }

  lemma {:induction false} ActTimesU(p: Poly, y: Block)
    ensures Act(p, TimesU(y)) == TimesU(Act(p, y))
    decreases |p|
  {
    assert TimesU(ZERO) == ZERO;
    if p != [] {
      ActTimesU(p[1..], TimesU(y));
      TimesULinear(if p[0] then y else ZERO, Act(p[1..], TimesU(y)));
    }
  }

  lemma {:induction false} ActZero(p: Poly)
    ensures Act(p, ZERO) == ZERO
    decreases |p|
  {
    assert TimesU(ZERO) == ZERO;
    XorZero(ZERO);
    if p != [] { ActZero(p[1..]); }
  }

  /** Polynomials act as commuting maps. */
  lemma {:induction false} ActCommutes(p: Poly, q: Poly, y: Block)
    ensures Act(p, Act(q, y)) == Act(q, Act(p, y))
    decreases |p|
  {
    ActZero(q);
    if p != [] {
      ActTimesU(q, y);
      ActCommutes(p[1..], q, TimesU(y));
      ActLinear(q, if p[0] then y else ZERO, Act(p[1..], TimesU(y)));
    }
  }

  lemma TimesUOfUnit(j: nat)
    requires j < 128
    ensures TimesU(Unit(j)) == if j < 127 then Unit(j + 1) else R()
  {
    if j < 127 {
      assert ([false] + Unit(j)[..127]) == Unit(j + 1);
    } else {
      assert ([false] + Unit(j)[..127]) == ZERO;
      XorZero(R());
    }
  }

  /** The coefficients of p moved up by j places. */
  function Place(p: Poly, j: nat): Block
    requires |p| + j <= 128
  {
    Zeros(j) + p + Zeros(128 - j - |p|)
  }

  lemma PlaceStep(p: Poly, j: nat)
    requires p != [] && |p| + j <= 128
    ensures Place(p, j) == Xor(if p[0] then Unit(j) else ZERO, Place(p[1..], j + 1))
  {
  }

  /** Acting on u^j moves the coefficients up by j places, as long as none passes u^127. */
  lemma {:induction false} ActOnUnit(p: Poly, j: nat)
    requires |p| + j <= 128 && j < 128
    ensures Act(p, Unit(j)) == Place(p, j)
    decreases |p|
  {
    if p == [] {
      assert Place(p, j) == ZERO;
    } else {
      TimesUOfUnit(j);
      PlaceStep(p, j);
      if j < 127 {
        ActOnUnit(p[1..], j + 1);
      } else {
        assert p[1..] == [] && Place([], 128) == ZERO;
      }
    }
  }

  lemma ActOnOne(x: Block)
    ensures Act(x, ONE) == x
  {
    ActOnUnit(x, 0);
    assert Place(x, 0) == x;
  }

  // ----- the ring laws --------------------------------------------------------------------

  lemma MulCommutative(x: Block, y: Block)
    ensures Mul(x, y) == Mul(y, x)
  {
    ActOnOne(x);
    ActOnOne(y);
    ActCommutes(x, y, ONE);
  }

  lemma MulAssociative(x: Block, y: Block, z: Block)
    ensures Mul(Mul(x, y), z) == Mul(x, Mul(y, z))
  {
    MulCommutative(Mul(x, y), z);
    ActCommutes(z, x, y);
    MulCommutative(y, z);
  }

  lemma MulDistributes(x: Block, y: Block, z: Block)
    ensures Mul(x, Xor(y, z)) == Xor(Mul(x, y), Mul(x, z))
    ensures Mul(Xor(y, z), x) == Xor(Mul(y, x), Mul(z, x))
  {
    ActLinear(x, y, z);
    MulCommutative(Xor(y, z), x);
    MulCommutative(y, x);
    MulCommutative(z, x);
  }

  lemma MulIdentity(x: Block)
    ensures Mul(ONE, x) == Mul(x, ONE) == x
  {
    ActOnOne(x);
    MulCommutative(ONE, x);
  }

  // ----- the same product as polynomials modulo u^128 + u^7 + u^2 + u + 1 -------------------

  function PolyAdd(p: Poly, q: Poly): Poly
    decreases |p|
  {
    if p == [] then q else if q == [] then p else [p[0] != q[0]] + PolyAdd(p[1..], q[1..])
  }

  function PolyMul(p: Poly, q: Poly): Poly
    decreases |p|
  {
    if p == [] then [] else PolyAdd(if p[0] then q else [], [false] + PolyMul(p[1..], q))
  }

  function Modulus(): (m: Poly)
    ensures |m| == 129 && forall i :: 0 <= i <= 128 ==> m[i] == (i in {0, 1, 2, 7, 128})
  {
    seq(129, i => i in {0, 1, 2, 7, 128})
  }

  /** The residue of a polynomial, read off at u. */
  function Residue(p: Poly): Block { Act(p, ONE) }

  lemma {:induction false} ActPolyAdd(p: Poly, q: Poly, y: Block)
    ensures Act(PolyAdd(p, q), y) == Xor(Act(p, y), Act(q, y))
    decreases |p|
  {
    if p == [] {
      XorZero(Act(q, y));
    } else if q == [] {
      XorZero(Act(p, y));
    } else {
      ActPolyAdd(p[1..], q[1..], TimesU(y));
      assert PolyAdd(p, q)[1..] == PolyAdd(p[1..], q[1..]);
      var a, b := if p[0] then y else ZERO, if q[0] then y else ZERO;
      XorSwap(a, Act(p[1..], TimesU(y)), b, Act(q[1..], TimesU(y)));
      XorZero(y);
      XorZero(ZERO);
    }
  }

  lemma {:induction false} ActPolyMul(p: Poly, q: Poly, y: Block)
    ensures Act(PolyMul(p, q), y) == Act(p, Act(q, y))
    decreases |p|
  {
    if p != [] {
      var high := PolyMul(p[1..], q);
      ActPolyAdd(if p[0] then q else [], [false] + high, y);
      assert ([false] + high)[1..] == high;
      XorZero(Act(high, TimesU(y)));
      ActPolyMul(p[1..], q, TimesU(y));
      ActTimesU(q, y);
    }
  }

  /** u^k * y */
  function Power(k: nat, y: Block): Block { if k == 0 then y else Power(k - 1, TimesU(y)) }

  lemma {:induction false} PowerOfUnit(k: nat, j: nat)
    requires k + j <= 128 && j < 128
    ensures Power(k, Unit(j)) == if k + j < 128 then Unit(k + j) else R()
    decreases k
  {
    if k > 0 {
      TimesUOfUnit(j);
      if j < 127 {
        PowerOfUnit(k - 1, j + 1);
      }
    }
  }

  lemma ActCons(a: bool, q: Poly, y: Block)
    ensures Act([a] + q, y) == Xor(if a then y else ZERO, Act(q, TimesU(y)))
  {
    assert ([a] + q)[1..] == q;
  }

  lemma {:induction false} ActAppend(p: Poly, q: Poly, r: Poly, y: Block)
    requires r == p + q
    ensures Act(r, y) == Xor(Act(p, y), Act(q, Power(|p|, y)))
    decreases |p|
  {
    if p == [] {
      assert r == q;
      XorZero(Act(q, y));
    } else {
      var first, rest, last := if p[0] then y else ZERO, Act(p[1..], TimesU(y)), Act(q, Power(|p|, y));
      TailOfConcat(p, q, r);
      ActAppend(p[1..], q, r[1..], TimesU(y));
      XorAssoc(first, rest, last);
      assert Act(r, y) == Xor(first, Xor(rest, last));
    }
  }

  lemma TailOfConcat(p: Poly, q: Poly, r: Poly)
    requires p != [] && r == p + q
    ensures r != [] && r[0] == p[0] && r[1..] == p[1..] + q
  {
  }

  lemma ActAppendBit(p: Poly, b: bool, y: Block)
    ensures Act(p + [b], y) == Xor(Act(p, y), if b then Power(|p|, y) else ZERO)
  {
    ActAppend(p, [b], p + [b], y);
    assert [b] == [b] + [];
    ActCons(b, [], Power(|p|, y));
    XorZero(if b then Power(|p|, y) else ZERO);
  }

  /**
   * Independent characterization: residues of polynomials multiply as the polynomials do,
   * every block is the residue of its own coefficients, and the GCM modulus has residue zero.
   */
  lemma MulIsPolynomialProduct(p: Poly, q: Poly, x: Block)
    ensures Residue(PolyMul(p, q)) == Mul(Residue(p), Residue(q))
    ensures Residue(PolyAdd(p, q)) == Xor(Residue(p), Residue(q))
    ensures Residue(x) == x
    ensures Residue(Modulus()) == ZERO
  {
    ActPolyMul(p, q, ONE);
    ActCommutes(p, q, ONE);
    ActOnOne(Residue(p));
    ActCommutes(Residue(p), q, ONE);
    ActPolyAdd(p, q, ONE);
    ActOnOne(x);
    ResidueOfModulus();
  }

  lemma ResidueOfModulus()
    ensures Residue(Modulus()) == ZERO
  {
    assert Modulus() == R() + [true];
    ActAppendBit(R(), true, ONE);
    PowerOfUnit(128, 0);
    ActOnOne(R());
    XorZero(R());
  }
}
