/** The Concat KDF with SHA-256 (RFC 7518, section 4.6.2) as one hash round. */
module ConcatKdf {
  import opened Prelude
  import opened BigEndian

  const U32: nat := 0x1_0000_0000
  const HASH_BYTES := 32

  /** `(len as u32).to_be_bytes()` followed by the data. */
  function Prefixed(data: Bytes): Bytes {
    ToBytes(|data| % U32, 4) + data
  }

  function Present(field: Option<Bytes>): Bytes {
    if field.Some? then field.value else []
  }

  /** What round `round` hashes. */
  function RoundInput(round: nat, z: Bytes, algorithm: Bytes, apu: Bytes, apv: Bytes, bits: nat): Bytes {
    ToBytes(round, 4) + (z + (Prefixed(algorithm) + (Prefixed(apu) + (Prefixed(apv) + ToBytes(bits, 4)))))
  }

  /** `concat_kdf_sha256`: a single round, truncated to the requested length. */
  method ConcatKdfSha256(
    sha: Bytes -> Bytes, z: Bytes, algorithm: Bytes, apu: Option<Bytes>, apv: Option<Bytes>, bits: nat)
    returns (key: Bytes)
    requires |sha(RoundInput(1, z, algorithm, Present(apu), Present(apv), bits))| == HASH_BYTES
    requires bits / 8 <= HASH_BYTES
    ensures key == OneRound(sha, z, algorithm, apu, apv, bits)
  {
    var hasher := ToBytes(1, 4);
    hasher := hasher + z;
    hasher := Update(hasher, Some(algorithm));
    hasher := Update(hasher, apu);
    hasher := Update(hasher, apv);
    hasher := hasher + ToBytes(bits, 4);
    UpdatesConcatenate(ToBytes(1, 4), z, Prefixed(algorithm), Prefixed(Present(apu)), Prefixed(Present(apv)),
                       ToBytes(bits, 4));
    key := sha(hasher)[..bits / 8];
  }

  /** A length-prefixed field; an absent one is a zero length. */
  method Update(hasher: Bytes, field: Option<Bytes>) returns (r: Bytes)
    ensures r == hasher + Prefixed(Present(field))
  {
    if field.Some? {
      r := hasher + ToBytes(|field.value| % U32, 4);
      r := r + field.value;
    } else {
      r := hasher + ToBytes(0, 4);
      assert Prefixed([]) == ToBytes(0, 4);
    }
  }

  lemma UpdatesConcatenate(r: Bytes, z: Bytes, a: Bytes, u: Bytes, v: Bytes, b: Bytes)
    ensures r + z + a + u + v + b == r + (z + (a + (u + (v + b))))
  {
  }

  function OneRound(
    sha: Bytes -> Bytes, z: Bytes, algorithm: Bytes, apu: Option<Bytes>, apv: Option<Bytes>, bits: nat): Bytes
    requires |sha(RoundInput(1, z, algorithm, Present(apu), Present(apv), bits))| == HASH_BYTES
    requires bits / 8 <= HASH_BYTES
  {
    sha(RoundInput(1, z, algorithm, Present(apu), Present(apv), bits))[..bits / 8]
  }

  // ---------------------------------------------------------------- the general construction

  /** The outputs of rounds 1 to `n`, concatenated. */
  function Rounds(sha: Bytes -> Bytes, z: Bytes, algorithm: Bytes, apu: Bytes, apv: Bytes, bits: nat, n: nat): Bytes {
    if n == 0 then []
    else Rounds(sha, z, algorithm, apu, apv, bits, n - 1) + sha(RoundInput(n, z, algorithm, apu, apv, bits))
  }

  /** As many rounds as the key needs, then the leading bytes. */
  function RoundCount(bits: nat): nat { (bits + 255) / 256 }

  /** For every byte-aligned key of at most 256 bits the single round is the whole construction. */
  lemma {:induction false} OneRoundIsEnough(
    sha: Bytes -> Bytes, z: Bytes, algorithm: Bytes, apu: Option<Bytes>, apv: Option<Bytes>, bits: nat)
    requires |sha(RoundInput(1, z, algorithm, Present(apu), Present(apv), bits))| == HASH_BYTES
    requires bits % 8 == 0 && bits <= 256
    ensures bits / 8 <= |Rounds(sha, z, algorithm, Present(apu), Present(apv), bits, RoundCount(bits))|
    ensures OneRound(sha, z, algorithm, apu, apv, bits) ==
            Rounds(sha, z, algorithm, Present(apu), Present(apv), bits, RoundCount(bits))[..bits / 8]
  {
    var first := sha(RoundInput(1, z, algorithm, Present(apu), Present(apv), bits));
    assert RoundCount(bits) == if bits == 0 then 0 else 1;
    assert Rounds(sha, z, algorithm, Present(apu), Present(apv), bits, 0) == [];
    assert [] + first == first;
    assert Rounds(sha, z, algorithm, Present(apu), Present(apv), bits, 1) == first;
  }

  /** The round of Appendix C of RFC 7518, whatever the shared secret: counter, secret, "A128GCM", "Alice", "Bob" and
      128 bits, in this order, each field after its length. */
  lemma AppendixC(z: Bytes, alg: Bytes, apu: Bytes, apv: Bytes)
    requires alg == [65, 49, 50, 56, 71, 67, 77] && apu == [65, 108, 105, 99, 101] && apv == [66, 111, 98]
    ensures RoundInput(1, z, alg, apu, apv, 128) ==
            [0, 0, 0, 1] + z + ([0, 0, 0, 7] + alg + ([0, 0, 0, 5] + apu) + ([0, 0, 0, 3] + apv) + [0, 0, 0, 128])
  {
    SmallCount(1);
    SmallCount(128);
    ShortField(alg);
    ShortField(apu);
    ShortField(apv);
    FourFields([0, 0, 0, 1], z, [0, 0, 0, 7] + alg, [0, 0, 0, 5] + apu, [0, 0, 0, 3] + apv, [0, 0, 0, 128]);
  }

  lemma SmallCount(n: nat)
    requires n < 256
    ensures ToBytes(n, 4) == [0, 0, 0, n]
  {
    assert ToBytes(0, 0) == [] && ToBytes(0, 1) == [0] && ToBytes(0, 2) == [0, 0] && ToBytes(0, 3) == [0, 0, 0];
  }

  lemma ShortField(data: Bytes)
    requires |data| < 256
    ensures Prefixed(data) == [0, 0, 0, |data|] + data
  {
    PrefixedCounts(data);
    SmallCount(|data|);
  }

  lemma FourFields(round: Bytes, z: Bytes, a: Bytes, u: Bytes, v: Bytes, bits: Bytes)
    ensures round + (z + (a + (u + (v + bits)))) == round + z + (a + u + v + bits)
  {
  }

  // ---------------------------------------------------------------- injectivity

  lemma {:induction false} CountedInjective(a: Bytes, x: Bytes, b: Bytes, y: Bytes, k: nat)
    requires |a| < Pow256(k) && |b| < Pow256(k) && ToBytes(|a|, k) + a + x == ToBytes(|b|, k) + b + y
    ensures a == b && x == y
  {
    var la, lb := ToBytes(|a|, k), ToBytes(|b|, k);
    assert la + a + x == la + (a + x) && lb + b + y == lb + (b + y);
    CancelPrefix(la, a + x, lb, b + y);
    ToBytesInjective(|a|, |b|, k);
    CancelPrefix(a, x, b, y);
  }

  lemma {:induction false} PrefixedInjective(a: Bytes, x: Bytes, b: Bytes, y: Bytes)
    requires |a| < U32 && |b| < U32 && Prefixed(a) + x == Prefixed(b) + y
    ensures a == b && x == y
  {
    FourBytesReach();
    PrefixedCounts(a);
    PrefixedCounts(b);
    CountedInjective(a, x, b, y, 4);
  }

  lemma PrefixedCounts(a: Bytes)
    requires |a| < U32
    ensures Prefixed(a) == ToBytes(|a|, 4) + a
  {
    SmallMod(|a|);
  }

  lemma SmallMod(n: nat)
    requires n < U32
    ensures n % U32 == n
  {
  }

  lemma FourBytesReach()
    ensures Pow256(4) == U32
  {
  }

  /** For 32-byte secrets and fields below 2^32 bytes, the hashed bytes determine every input; an absent
      party field and an empty one are the only inputs that are not told apart. */
  lemma {:induction false} InputDeterminesFields(
    z1: Bytes, alg1: Bytes, apu1: Option<Bytes>, apv1: Option<Bytes>, bits1: nat,
    z2: Bytes, alg2: Bytes, apu2: Option<Bytes>, apv2: Option<Bytes>, bits2: nat)
    requires |z1| == |z2| == 32 && |alg1| < U32 && |alg2| < U32 && bits1 < U32 && bits2 < U32
    requires |Present(apu1)| < U32 && |Present(apu2)| < U32 && |Present(apv1)| < U32 && |Present(apv2)| < U32
    ensures RoundInput(1, z1, alg1, Present(apu1), Present(apv1), bits1) ==
            RoundInput(1, z2, alg2, Present(apu2), Present(apv2), bits2)
            <==>
            z1 == z2 && alg1 == alg2 &&
            Present(apu1) == Present(apu2) && Present(apv1) == Present(apv2) && bits1 == bits2
  {
    var v1, v2 := Prefixed(Present(apv1)) + ToBytes(bits1, 4), Prefixed(Present(apv2)) + ToBytes(bits2, 4);
    var u1, u2 := Prefixed(Present(apu1)) + v1, Prefixed(Present(apu2)) + v2;
    var a1, a2 := Prefixed(alg1) + u1, Prefixed(alg2) + u2;
    if RoundInput(1, z1, alg1, Present(apu1), Present(apv1), bits1) ==
       RoundInput(1, z2, alg2, Present(apu2), Present(apv2), bits2)
    {
      CancelPrefix(ToBytes(1, 4), z1 + a1, ToBytes(1, 4), z2 + a2);
      CancelPrefix(z1, a1, z2, a2);
      PrefixedInjective(alg1, u1, alg2, u2);
      PrefixedInjective(Present(apu1), v1, Present(apu2), v2);
      PrefixedInjective(Present(apv1), ToBytes(bits1, 4), Present(apv2), ToBytes(bits2, 4));
      FourBytesReach();
      ToBytesInjective(bits1, bits2, 4);
    }
  }
}
