/** Big-endian integers of a fixed number of bytes. */
module BigEndian {
  import opened Prelude

  /** 256 to the power `k`. */
  function Pow256(k: nat): nat {
    if k == 0 then 1 else 256 * Pow256(k - 1)
  }

  function ToBytes(n: nat, k: nat): (b: Bytes)
    ensures |b| == k
  {
    if k == 0 then [] else ToBytes(n / 256, k - 1) + [n % 256]
  }

  function FromBytes(b: Bytes): nat {
    if b == [] then 0 else FromBytes(b[..|b| - 1]) * 256 + b[|b| - 1]
  }

  lemma {:induction false} FromTo(n: nat, k: nat)
    requires n < Pow256(k)
    ensures FromBytes(ToBytes(n, k)) == n
  {
    if k > 0 {
      FromTo(n / 256, k - 1);
      assert ToBytes(n, k)[..k - 1] == ToBytes(n / 256, k - 1);
    }
  }

  lemma {:induction false} FromBound(b: Bytes)
    ensures FromBytes(b) < Pow256(|b|)
  {
    if b != [] { FromBound(b[..|b| - 1]); }
  }

  lemma {:induction false} ToBytesInjective(m: nat, n: nat, k: nat)
    requires m < Pow256(k) && n < Pow256(k) && ToBytes(m, k) == ToBytes(n, k)
    ensures m == n
  {
    FromTo(m, k);
    FromTo(n, k);
  }
}
