/** Octets and octet strings, shared by every module. */
module Bytes {
  type byte = x: int | 0 <= x < 256

  datatype Option<+T> = None | Some(value: T)

  /** The pieces of a list joined in order. */
  function Join(parts: seq<seq<byte>>): (s: seq<byte>) {
    if parts == [] then [] else parts[0] + Join(parts[1..])
  }

  // ----- big-endian integers ----------------------------------------------------------------

  function Pow256(k: nat): (p: nat)
    ensures p > 0
  {
    if k == 0 then 1 else 256 * Pow256(k - 1)
  }

  lemma Pow256Add4(k: nat)
    ensures Pow256(k + 4) == 0x1_0000_0000 * Pow256(k)
  {
    assert Pow256(k + 2) == 256 * Pow256(k + 1);
    assert Pow256(k + 4) == 256 * Pow256(k + 3);
  }

  lemma Pow256Of8And16()
    ensures Pow256(8) == 0x1_0000_0000_0000_0000
    ensures Pow256(16) == 0x1_0000_0000_0000_0000_0000_0000_0000_0000
  {
    Pow256Add4(0);
    Pow256Add4(4);
    Pow256Add4(8);
    Pow256Add4(12);
  }

  /** The low `k` octets of `n`, most significant first. */
  function ToBE(n: nat, k: nat): (s: seq<byte>)
    ensures |s| == k
  {
    if k == 0 then [] else ToBE(n / 256, k - 1) + [n % 256]
  }

  function FromBE(s: seq<byte>): nat {
    if s == [] then 0 else 256 * FromBE(s[..|s| - 1]) + s[|s| - 1]
  }

  lemma {:induction false} FromBEBound(s: seq<byte>)
    ensures FromBE(s) < Pow256(|s|)
  {
    if s != [] { FromBEBound(s[..|s| - 1]); }
  }

  /** The first octet is the most significant one. */
  lemma {:induction false} FirstOctetLeads(s: seq<byte>)
    requires s != []
    ensures FromBE(s) == s[0] * Pow256(|s| - 1) + FromBE(s[1..])
  {
    var n := |s| - 1;
    if n > 0 {
      FirstOctetLeads(s[..n]);
      assert s[1..][..n - 1] == s[..n][1..] && s[1..][n - 1] == s[n];
      Regroup(s[0], Pow256(n - 1), FromBE(s[..n][1..]), s[n]);
    }
  }

  lemma Regroup(first: int, power: int, middle: int, last: int)
    ensures 256 * (first * power + middle) + last == first * (256 * power) + (256 * middle + last)
  {
  }

  lemma {:induction false} EncodeDecode(n: nat, k: nat)
    requires n < Pow256(k)
    ensures FromBE(ToBE(n, k)) == n
  {
    if k > 0 {
      EncodeDecode(n / 256, k - 1);
      assert ToBE(n, k)[..k - 1] == ToBE(n / 256, k - 1);
    }
  }

  lemma {:induction false} DecodeEncode(s: seq<byte>)
    ensures ToBE(FromBE(s), |s|) == s
  {
    if s != [] {
      DecodeEncode(s[..|s| - 1]);
      assert s == s[..|s| - 1] + [s[|s| - 1]];
    }
  }
}
