/** The hand-written DER walker that cuts a SubjectPublicKeyInfo out of a certificate by searching for the
    EC public-key OID and scanning backwards (X.690, section 8.1.3; RFC 5280, section 4.1). */
module DerSpki {
  import opened Prelude
  import opened BigEndian

  const SEQUENCE: byte := 0x30
  const EC_OID: Bytes := [0x2a, 0x86, 0x48, 0xce, 0x3d, 0x02, 0x01]

  /** One arc of an object identifier: seven bits an octet, the high bit set on all but the last (section 8.19 of
      X.690). */
  function Arc(n: nat): Bytes {
    (if n < 0x80 then [] else Continued(n / 0x80)) + [n % 0x80]
  }

  function Continued(n: nat): Bytes {
    (if n < 0x80 then [] else Continued(n / 0x80)) + [0x80 + n % 0x80]
  }

  /** The bytes searched for are id-ecPublicKey, 1.2.840.10045.2.1 (RFC 5480, section 2.1.1). */
  lemma EcOidIsIdEcPublicKey()
    ensures EC_OID == [40 * 1 + 2] + Arc(840) + Arc(10045) + Arc(2) + Arc(1)
  {
  }

  // ---------------------------------------------------------------- JavaScript arithmetic

  const TWO31: int := 0x8000_0000
  const TWO32: int := 0x1_0000_0000

  /** The signed 32-bit value of an integer, as after `<<` and `|`. */
  function Int32(x: int): int {
    (x + TWO31) % TWO32 - TWO31
  }

  /** Reading past the end gives `undefined`, which counts as 0 in bit operations. */
  function At(bytes: Bytes, i: int): byte {
    if 0 <= i < |bytes| then bytes[i] else 0
  }

  // ---------------------------------------------------------------- readTlvBounds

  /** `len` after `k` length octets following position `pos`. */
  function LengthValue(bytes: Bytes, pos: int, k: nat): int {
    if k == 0 then 0 else Int32(LengthValue(bytes, pos, k - 1) * 256) + At(bytes, pos + k)
  }

  function TlvBounds(bytes: Bytes, offset: int): (int, int) {
    var first := At(bytes, offset + 1);
    if first >= 0x80 then
      var start := offset + 2 + (first - 0x80);
      (start, start + LengthValue(bytes, offset + 1, first - 0x80))
    else (offset + 2, offset + 2 + first)
  }

  method ReadTlvBounds(bytes: Bytes, offset: nat) returns (start: int, end: int)
    requires offset + 1 < |bytes|
    ensures (start, end) == TlvBounds(bytes, offset)
  {
    var pos := offset + 1;
    var len := 0;
    if bytes[pos] >= 0x80 {
      var numBytes := bytes[pos] - 0x80;
      for k := 0 to numBytes
        invariant pos == offset + 1 + k
        invariant len == LengthValue(bytes, offset + 1, k)
      {
        pos := pos + 1;
        len := Int32(len * 256) + (if pos < |bytes| then bytes[pos] else 0);
      }
      pos := pos + 1;
    } else {
      len := bytes[pos];
      pos := pos + 1;
    }
    return pos, pos + len;
  }

  // ---------------------------------------------------------------- DER lengths

  function Octets(n: nat): nat {
    if n < 256 then 1 else 1 + Octets(n / 256)
  }

  /** The DER encoding of a length: short form below 128, else the fewest octets. */
  function DerLength(n: nat): Bytes
    requires Octets(n) < 127
  {
    if n < 0x80 then [n] else [0x80 + Octets(n)] + ToBytes(n, Octets(n))
  }

  lemma {:induction false} OctetsSuffice(n: nat)
    ensures n < Pow256(Octets(n))
  {
    if n >= 256 { OctetsSuffice(n / 256); }
  }

  lemma Int32Periodic(x: int, m: int)
    ensures Int32(x + m * TWO32) == Int32(x)
  {
  }

  lemma Int32Append(x: int, b: byte)
    ensures Int32(x * 256) + b == Int32(x * 256 + b)
  {
    var q, r := (x * 256 + TWO31) / TWO32, (x * 256 + TWO31) % TWO32;
    assert r == 256 * (x + 0x80_0000 - 0x100_0000 * q);
    assert r <= TWO32 - 256;
    assert x * 256 + b + TWO31 == q * TWO32 + (r + b);
  }

  /** Reading the octets of a number gives the number as a signed 32-bit value. */
  lemma {:induction false} LengthIsInt32(bytes: Bytes, pos: int, octets: Bytes)
    requires 0 <= pos && pos + |octets| < |bytes| && bytes[pos + 1..pos + 1 + |octets|] == octets
    ensures LengthValue(bytes, pos, |octets|) == Int32(FromBytes(octets))
  {
    if octets != [] {
      var k := |octets| - 1;
      var x := FromBytes(octets[..k]);
      assert bytes[pos + 1..pos + 1 + k] == bytes[pos + 1..pos + 1 + |octets|][..k];
      LengthIsInt32(bytes, pos, octets[..k]);
      assert bytes[pos + 1..pos + 1 + |octets|][k] == bytes[pos + |octets|];
      var m := (x + TWO31) / TWO32;
      assert Int32(x) == x - m * TWO32;
      assert Int32(x) * 256 == x * 256 + (-m * 256) * TWO32;
      Int32Periodic(x * 256, -m * 256);
      Int32Append(x, octets[k]);
    }
  }

  /** A DER header of a body of `n` bytes at position `p`. */
  predicate HeaderAt(bytes: Bytes, p: nat, n: nat)
    requires Octets(n) < 127
  {
    p + 1 + |DerLength(n)| <= |bytes| && bytes[p + 1..p + 1 + |DerLength(n)|] == DerLength(n)
  }

  /** `readTlvBounds` on a DER header: the body start, and the length as a signed 32-bit value after it. */
  lemma {:induction false} BoundsAt(bytes: Bytes, p: nat, n: nat)
    requires Octets(n) < 127 && HeaderAt(bytes, p, n)
    ensures TlvBounds(bytes, p) == (p + 1 + |DerLength(n)|, p + 1 + |DerLength(n)| + Int32(n))
  {
    assert bytes[p + 1] == bytes[p + 1..p + 1 + |DerLength(n)|][0] == DerLength(n)[0];
    if n >= 0x80 {
      var octets := ToBytes(n, Octets(n));
      assert bytes[p + 2..p + 2 + |octets|] == bytes[p + 1..p + 1 + |DerLength(n)|][1..] == octets;
      LengthIsInt32(bytes, p + 1, octets);
      OctetsSuffice(n);
      FromTo(n, Octets(n));
    }
  }

  /** `readTlvBounds` inverts DER length encoding exactly for bodies below 2^31 bytes. */
  lemma {:induction false} BoundsInvertDerLength(bytes: Bytes, p: nat, n: nat)
    requires Octets(n) < 127 && HeaderAt(bytes, p, n)
    ensures TlvBounds(bytes, p) == (p + 1 + |DerLength(n)|, p + 1 + |DerLength(n)| + n) <==> n < TWO31
  {
    BoundsAt(bytes, p, n);
    assert -TWO31 <= Int32(n) < TWO31;
  }

  // ---------------------------------------------------------------- the backward scan

  /** A SEQUENCE tag at `i` whose declared extent covers `target`. */
  predicate Covers(bytes: Bytes, i: nat, target: int)
    requires i < |bytes|
  {
    bytes[i] == SEQUENCE && TlvBounds(bytes, i).0 <= target < TlvBounds(bytes, i).1
  }

  function EnclosingFrom(bytes: Bytes, i: int, target: int): (r: int)
    requires i < |bytes|
    ensures r == -1 || 0 <= r <= i
    decreases i + 1
  {
    if i < 0 then -1 else if Covers(bytes, i, target) then i else EnclosingFrom(bytes, i - 1, target)
  }

  /** `findEnclosingSequence`. */
  method FindEnclosingSequence(bytes: Bytes, contentStart: nat) returns (r: int)
    requires contentStart <= |bytes|
    ensures r == EnclosingFrom(bytes, contentStart - 2, contentStart)
  {
    var i := contentStart - 2;
    while i >= 0
      invariant i <= contentStart - 2
      invariant EnclosingFrom(bytes, i, contentStart) == EnclosingFrom(bytes, contentStart - 2, contentStart)
    {
      if bytes[i] == SEQUENCE {
        var start, end := ReadTlvBounds(bytes, i);
        if start <= contentStart && contentStart < end { return i; }
      }
      i := i - 1;
    }
    return -1;
  }

  predicate OidAt(bytes: Bytes, i: nat) {
    i + |EC_OID| <= |bytes| && forall j :: 0 <= j < |EC_OID| ==> bytes[i + j] == EC_OID[j]
  }

  /** `bytes.slice(start, end)` for a non-negative start: the end is clamped. */
  function Slice(bytes: Bytes, start: nat, end: int): Bytes {
    var e := if end > |bytes| then |bytes| else end;
    if start <= e then bytes[start..e] else []
  }

  /** The search from position `i` on. */
  function ExtractFrom(bytes: Bytes, i: nat): Option<Bytes>
    decreases |bytes| - i
  {
    if i >= |bytes| - |EC_OID| then None
    else if OidAt(bytes, i) && i >= 6 && EnclosingFrom(bytes, i - 6, i - 4) >= 0 then
      var start := EnclosingFrom(bytes, i - 6, i - 4);
      Some(Slice(bytes, start, TlvBounds(bytes, start).1))
    else ExtractFrom(bytes, i + 1)
  }

  /** The inner loop with its `continue outer`. */
  method MatchesOid(bytes: Bytes, i: nat) returns (found: bool)
    requires i + |EC_OID| <= |bytes|
    ensures found <==> OidAt(bytes, i)
  {
    for j := 0 to |EC_OID|
      invariant forall k :: 0 <= k < j ==> bytes[i + k] == EC_OID[k]
    {
      if bytes[i + j] != EC_OID[j] { return false; }
    }
    return true;
  }

  /** `extractSpkiFromCert`. */
  method ExtractSpki(bytes: Bytes) returns (r: Option<Bytes>)
    ensures r == ExtractFrom(bytes, 0)
  {
    var i := 0;
    while i < |bytes| - |EC_OID|
      invariant 0 <= i
      invariant ExtractFrom(bytes, i) == ExtractFrom(bytes, 0)
      decreases |bytes| - i
    {
      var found := MatchesOid(bytes, i);
      var algIdStart := i - 4;
      if found && algIdStart >= 2 {
        var start := FindEnclosingSequence(bytes, algIdStart);
        if start >= 0 {
          var _, end := ReadTlvBounds(bytes, start);
          return Some(Slice(bytes, start, end));
        }
      }
      i := i + 1;
    }
    return None;
  }

  // ---------------------------------------------------------------- what it finds

  lemma OctetsSmall(n: nat)
    requires n < 0x1_0000
    ensures Octets(n) == if n < 256 then 1 else 2
  {
  }

  /** DER lengths below 64 KiB: one, two or three octets. */
  function ShortDer(n: nat): (b: Bytes)
    requires n < 0x1_0000
    ensures b == if n < 0x80 then [n] else if n < 0x100 then [0x81, n] else [0x82, n / 256, n % 256]
  {
    OctetsSmall(n);
    assert n < 0x100 ==> ToBytes(n, 1) == [n];
    assert n >= 0x100 ==> ToBytes(n / 256, 1) == [n / 256];
    DerLength(n)
  }

  /** The body of an EC SubjectPublicKeyInfo: an AlgorithmIdentifier with its own length, the OID and the
      curve parameters, then the key. */
  function SpkiBody(params: Bytes, key: Bytes): Bytes
    requires |params| + 9 < 0x1_0000
  {
    [SEQUENCE] + (ShortDer(|params| + 9) + ([0x06, 0x07] + (EC_OID + (params + key))))
  }

  function Spki(body: Bytes): Bytes
    requires |body| < 0x1_0000
  {
    [SEQUENCE] + (ShortDer(|body|) + body)
  }

  /** Number of octets of the identifier's length. */
  function IdOctets(params: Bytes): nat
    requires |params| + 9 < 0x1_0000
  {
    |ShortDer(|params| + 9)|
  }

  /** The lengths `n` of a body that mislead the backward scan when the identifier's length takes `d` octets:
      an octet of a two-octet length reads as a SEQUENCE tag whose extent covers the identifier's body.
      The scan starts two bytes before that body, so the low octet is only reached when `d` exceeds one. */
  predicate Misleading(n: nat, d: nat) {
    n >= 0x100 && ((d >= 2 && n % 256 == 0x30) || HighMisleads(n, d))
  }

  predicate HighMisleads(n: nat, d: nat) {
    n / 256 == 0x30 && (d <= n % 256 < 0x80 || 0x80 < n % 256 < 0x80 + d)
  }

  /** A DER structure at `p` whose body, of `n` bytes, starts with an AlgorithmIdentifier of `m` bytes. */
  predicate SpkiAt(bytes: Bytes, p: nat, n: nat, m: nat)
    requires n < 0x1_0000 && m < 0x1_0000
  {
    var length, inner := ShortDer(n), ShortDer(m);
    var start := p + 1 + |length|;
    && start + n <= |bytes| && 1 + |inner| + m <= n && bytes[p] == SEQUENCE && bytes[start] == SEQUENCE
    && (forall j :: 0 <= j < |length| ==> bytes[p + 1 + j] == length[j])
    && forall j :: 0 <= j < |inner| ==> bytes[start + 1 + j] == inner[j]
  }

  /** Bounds of a structure whose length octets are the DER length of `n`. */
  lemma {:induction false} ShortBounds(bytes: Bytes, p: nat, n: nat)
    requires n < 0x1_0000 && p + 1 + |ShortDer(n)| <= |bytes|
    requires forall j :: 0 <= j < |ShortDer(n)| ==> bytes[p + 1 + j] == ShortDer(n)[j]
    ensures TlvBounds(bytes, p) == (p + 1 + |ShortDer(n)|, p + 1 + |ShortDer(n)| + n)
  {
    OctetsSmall(n);
    assert bytes[p + 1..p + 1 + |DerLength(n)|] == DerLength(n);
    BoundsInvertDerLength(bytes, p, n);
  }

  /** The extent declared at `i` when the octet after it is a long form of `k` octets. */
  lemma LongFormBounds(bytes: Bytes, i: nat, k: nat)
    requires i + 1 < |bytes| && bytes[i + 1] == 0x80 + k
    ensures TlvBounds(bytes, i).0 == i + 2 + k
    ensures k == 0 ==> TlvBounds(bytes, i).1 == i + 2
    ensures k == 1 ==> TlvBounds(bytes, i).1 == i + 3 + At(bytes, i + 2)
    ensures k == 2 ==> TlvBounds(bytes, i).1 == i + 4 + At(bytes, i + 2) * 256 + At(bytes, i + 3)
  {
    assert LengthValue(bytes, i + 1, 0) == 0;
    assert LengthValue(bytes, i + 1, 1) == At(bytes, i + 2);
    assert LengthValue(bytes, i + 1, 2) == At(bytes, i + 2) * 256 + At(bytes, i + 3);
  }

  /** What the scan meets at the identifier itself and at the low octet of the body's length. */
  lemma {:induction false} NearCovers(bytes: Bytes, p: nat, n: nat, m: nat)
    requires 0x100 <= n < 0x1_0000 && m < 0x1_0000 && SpkiAt(bytes, p, n, m)
    ensures var d := |ShortDer(m)|;
            && !Covers(bytes, p + 4, p + 3 + d)
            && (d >= 2 ==> (Covers(bytes, p + 3, p + 3 + d) <==> n % 256 == 0x30))
  {
    ShortBounds(bytes, p + 4, m);
    assert bytes[p + 3] == ShortDer(n)[2] == n % 256;
    assert bytes[p + 4] == SEQUENCE;
  }

  /** What it meets at the high octet. */
  lemma {:induction false} HighCovers(bytes: Bytes, p: nat, n: nat, m: nat)
    requires 0x100 <= n < 0x1_0000 && m < 0x1_0000 && SpkiAt(bytes, p, n, m)
    ensures Covers(bytes, p + 2, p + 3 + |ShortDer(m)|) <==> HighMisleads(n, |ShortDer(m)|)
  {
    var d, low := |ShortDer(m)|, n % 256;
    assert bytes[p + 2] == ShortDer(n)[1] == n / 256 && bytes[p + 3] == ShortDer(n)[2] == low;
    assert bytes[p + 5] == ShortDer(m)[0];
    if low >= 0x80 { LongFormBounds(bytes, p + 2, low - 0x80); }
  }

  /** Where the scan from the identifier's body stops. */
  function FoundStart(p: nat, n: nat, d: nat): nat {
    if n < 0x100 || !Misleading(n, d) then p
    else if d >= 2 && n % 256 == 0x30 then p + 3
    else p + 2
  }

  lemma {:induction false} EnclosingOfShort(bytes: Bytes, p: nat, n: nat, m: nat)
    requires n < 0x100 && m < 0x1_0000 && SpkiAt(bytes, p, n, m)
    ensures var c := p + |ShortDer(n)| + |ShortDer(m)|; EnclosingFrom(bytes, c - 2, c) == p
  {
    var length, d := ShortDer(n), |ShortDer(m)|;
    var c := p + |length| + d;
    ShortBounds(bytes, p, n);
    assert Covers(bytes, p, c);
    assert bytes[p + 1] == length[0] && (|length| == 2 ==> bytes[p + 2] == length[1] == n);
    if |length| == 2 {
      assert EnclosingFrom(bytes, p + 1, c) == p;
      assert d == 2 ==> EnclosingFrom(bytes, p + 2, c) == p;
    }
  }

  /** The backward scan from the identifier's body stops at the header, or early inside a misleading length. */
  lemma {:induction false} EnclosingOfBody(bytes: Bytes, p: nat, n: nat, m: nat)
    requires n < 0x1_0000 && m < 0x1_0000 && SpkiAt(bytes, p, n, m)
    ensures var c := p + |ShortDer(n)| + |ShortDer(m)|;
            EnclosingFrom(bytes, c - 2, c) == FoundStart(p, n, |ShortDer(m)|)
  {
    if n < 0x100 {
      EnclosingOfShort(bytes, p, n, m);
    } else {
      var d := |ShortDer(m)|;
      var c := p + 3 + d;
      ShortBounds(bytes, p, n);
      NearCovers(bytes, p, n, m);
      HighCovers(bytes, p, n, m);
      assert Covers(bytes, p, c) && bytes[p + 1] == ShortDer(n)[0] == 0x82;
      assert EnclosingFrom(bytes, p + 1, c) == p;
      assert EnclosingFrom(bytes, p + 2, c) == if HighMisleads(n, d) then p + 2 else p;
      assert d >= 2 ==> EnclosingFrom(bytes, p + 3, c) == FoundStart(p, n, d);
    }
  }

  /** What is cut out there is the whole structure exactly when the length is not misleading. */
  lemma {:induction false} CutIsWhole(bytes: Bytes, p: nat, n: nat, m: nat)
    requires n < 0x1_0000 && m < 0x1_0000 && SpkiAt(bytes, p, n, m)
    ensures var found := FoundStart(p, n, |ShortDer(m)|);
            Slice(bytes, found, TlvBounds(bytes, found).1) == bytes[p..p + 1 + |ShortDer(n)| + n]
            <==> !Misleading(n, |ShortDer(m)|)
  {
    var d := |ShortDer(m)|;
    ShortBounds(bytes, p, n);
    if Misleading(n, d) {
      MisledIsDifferent(bytes, p, n, m);
    }
  }

  lemma {:induction false} MisledIsDifferent(bytes: Bytes, p: nat, n: nat, m: nat)
    requires n < 0x1_0000 && m < 0x1_0000 && SpkiAt(bytes, p, n, m) && Misleading(n, |ShortDer(m)|)
    ensures var found := FoundStart(p, n, |ShortDer(m)|);
            Slice(bytes, found, TlvBounds(bytes, found).1) != bytes[p..p + 4 + n]
  {
    var d, low := |ShortDer(m)|, n % 256;
    var found := FoundStart(p, n, d);
    assert bytes[p + 3] == ShortDer(n)[2] == low && bytes[p + 5] == ShortDer(m)[0];
    if found == p + 2 && low >= 0x80 {
      LongFormBounds(bytes, p + 2, low - 0x80);
      if low == 0x82 { LookalikeDiffers(bytes, p, n, m, TlvBounds(bytes, p + 2).1); }
    }
  }

  /** The one misleading cut that can be as long as the structure starts with another identifier length. */
  lemma {:induction false} LookalikeDiffers(bytes: Bytes, p: nat, n: nat, m: nat, end: int)
    requires n == 0x3082 && m < 0x1_0000 && SpkiAt(bytes, p, n, m) && |ShortDer(m)| == 3
    ensures Slice(bytes, p + 2, end) != bytes[p..p + 4 + n]
  {
    assert bytes[p + 5] == ShortDer(m)[0] == 0x82 && bytes[p + 6] == ShortDer(m)[1] && bytes[p + 7] == ShortDer(m)[2];
    if |Slice(bytes, p + 2, end)| == n + 4 {
      assert Slice(bytes, p + 2, end)[4] == bytes[p + 6] && Slice(bytes, p + 2, end)[5] == bytes[p + 7];
      assert bytes[p..p + 4 + n][4] == bytes[p + 4] && bytes[p..p + 4 + n][5] == bytes[p + 5];
    }
  }

  lemma {:induction false} SkipNonMatches(bytes: Bytes, lo: nat, hi: nat)
    requires lo <= hi && hi <= |bytes| - |EC_OID|
    requires forall i :: lo <= i < hi ==> !OidAt(bytes, i)
    ensures ExtractFrom(bytes, lo) == ExtractFrom(bytes, hi)
    decreases hi - lo
  {
    if lo < hi { SkipNonMatches(bytes, lo + 1, hi); }
  }

  /** The search ends at the first OID that is not at the very end, if the backward scan from there finds an
      enclosing structure. */
  lemma {:induction false} ExtractHere(bytes: Bytes, i: nat, start: nat)
    requires 6 <= i <= |bytes| - |EC_OID| && OidAt(bytes, i) && EnclosingFrom(bytes, i - 6, i - 4) == start
    requires forall k :: 0 <= k < i ==> !OidAt(bytes, k)
    ensures ExtractFrom(bytes, 0) ==
            if i + |EC_OID| < |bytes| then Some(Slice(bytes, start, TlvBounds(bytes, start).1)) else None
  {
    SkipNonMatches(bytes, 0, i);
  }

  predicate NoOidBefore(bytes: Bytes, i: nat) {
    forall k :: 0 <= k < i ==> !OidAt(bytes, k)
  }

  /** Extraction from a certificate that holds the structure at `p`, with the first OID in its identifier. */
  lemma {:induction false} ExtractsStructure(bytes: Bytes, p: nat, n: nat, m: nat)
    requires n < 0x1_0000 && m < 0x1_0000 && SpkiAt(bytes, p, n, m)
    requires var i := p + 4 + |ShortDer(n)| + |ShortDer(m)|;
             i + |EC_OID| <= |bytes| && OidAt(bytes, i) && NoOidBefore(bytes, i)
    ensures ExtractFrom(bytes, 0) == Some(bytes[p..p + 1 + |ShortDer(n)| + n]) <==>
            !Misleading(n, |ShortDer(m)|) && p + 4 + |ShortDer(n)| + |ShortDer(m)| + |EC_OID| < |bytes|
  {
    var d := |ShortDer(m)|;
    EnclosingOfBody(bytes, p, n, m);
    ExtractHere(bytes, p + 4 + |ShortDer(n)| + d, FoundStart(p, n, d));
    CutIsWhole(bytes, p, n, m);
  }

  /** The outcome for a certificate that holds the structure `spki`, whose body has `n` bytes. */
  predicate ExtractsIff(bytes: Bytes, spki: Bytes, n: nat, d: nat, oidIsLast: bool) {
    && (ExtractFrom(bytes, 0) == Some(spki) <==> !Misleading(n, d) && !oidIsLast)
    && (n < 0x100 ==> (ExtractFrom(bytes, 0) == Some(spki) <==> !oidIsLast))
  }

  /** For every certificate in which the EC OID first occurs inside a SubjectPublicKeyInfo with a body
      below 64 KiB, the walker returns exactly that structure if and only if its length is not
      misleading for that identifier and the OID does not end the input; below 256 bytes no length is
      misleading. */
  lemma {:induction false} ExtractsSpkiExactly(bytes: Bytes, pre: Bytes, params: Bytes, key: Bytes, post: Bytes)
    requires |params| + 9 < 0x1_0000 && |SpkiBody(params, key)| < 0x1_0000
    requires bytes == pre + (Spki(SpkiBody(params, key)) + post)
    requires NoOidBefore(bytes, |pre| + |ShortDer(|SpkiBody(params, key)|)| + IdOctets(params) + 4)
    ensures var body := SpkiBody(params, key);
            ExtractsIff(bytes, Spki(body), |body|, IdOctets(params), |params| + |key| + |post| == 0)
  {
    var body := SpkiBody(params, key);
    SpkiInside(bytes, pre, body, params, key, post);
    ExtractsAt(bytes, |pre|, Spki(body), |body|, |params| + 9, |params| + |key| + |post|);
  }

  /** The same in terms of where the structure lies and how long its parts are. */
  lemma {:induction false} ExtractsAt(bytes: Bytes, p: nat, spki: Bytes, n: nat, m: nat, rest: nat)
    requires n < 0x1_0000 && m < 0x1_0000 && SpkiAt(bytes, p, n, m)
    requires var i := p + 4 + |ShortDer(n)| + |ShortDer(m)|;
             OidAt(bytes, i) && NoOidBefore(bytes, i) && |bytes| == i + |EC_OID| + rest
    requires p + 1 + |ShortDer(n)| + n <= |bytes| && bytes[p..p + 1 + |ShortDer(n)| + n] == spki
    ensures ExtractsIff(bytes, spki, n, |ShortDer(m)|, rest == 0)
  {
    ExtractsStructure(bytes, p, n, m);
  }

  /** Where the parts of a body lie. */
  lemma {:induction false} BodyParts(params: Bytes, key: Bytes)
    requires |params| + 9 < 0x1_0000
    ensures var body, inner := SpkiBody(params, key), ShortDer(|params| + 9);
            && |body| == 10 + |inner| + |params| + |key| && body[0] == SEQUENCE
            && (forall j :: 0 <= j < |inner| ==> body[1 + j] == inner[j])
            && body[3 + |inner|..10 + |inner|] == EC_OID
  {
  }

  /** Where a body lies in a certificate. */
  lemma {:induction false} BodyInside(bytes: Bytes, pre: Bytes, body: Bytes, post: Bytes)
    requires |body| < 0x1_0000 && bytes == pre + (Spki(body) + post)
    ensures var length := ShortDer(|body|);
            var start := |pre| + 1 + |length|;
            && start + |body| <= |bytes| && bytes[|pre|..start + |body|] == Spki(body) && bytes[|pre|] == SEQUENCE
            && (forall j :: 0 <= j < |length| ==> bytes[|pre| + 1 + j] == length[j])
            && bytes[start..start + |body|] == body && |bytes| == start + |body| + |post|
  {
    assert bytes == pre + [SEQUENCE] + ShortDer(|body|) + body + post;
  }

  /** Where the parts of an embedded SubjectPublicKeyInfo lie. */
  lemma {:induction false} SpkiInside(bytes: Bytes, pre: Bytes, body: Bytes, params: Bytes, key: Bytes, post: Bytes)
    requires |params| + 9 < 0x1_0000 && |body| < 0x1_0000
    requires body == SpkiBody(params, key) && bytes == pre + (Spki(body) + post)
    ensures var i := |pre| + 4 + |ShortDer(|body|)| + IdOctets(params);
            && SpkiAt(bytes, |pre|, |body|, |params| + 9) && OidAt(bytes, i)
            && bytes[|pre|..|pre| + 1 + |ShortDer(|body|)| + |body|] == Spki(body)
            && |bytes| == i + |EC_OID| + |params| + |key| + |post|
  {
    BodyInside(bytes, pre, body, post);
    PartsAt(bytes, |pre| + 1 + |ShortDer(|body|)|, params, key);
  }

  /** The parts of a body that lies at `start`. */
  lemma {:induction false} PartsAt(bytes: Bytes, start: nat, params: Bytes, key: Bytes)
    requires |params| + 9 < 0x1_0000 && start + |SpkiBody(params, key)| <= |bytes|
    requires bytes[start..start + |SpkiBody(params, key)|] == SpkiBody(params, key)
    ensures var inner := ShortDer(|params| + 9);
            && bytes[start] == SEQUENCE && |SpkiBody(params, key)| == 10 + |inner| + |params| + |key|
            && (forall j :: 0 <= j < |inner| ==> bytes[start + 1 + j] == inner[j])
            && OidAt(bytes, start + 3 + |inner|)
  {
    var body, inner := SpkiBody(params, key), ShortDer(|params| + 9);
    BodyParts(params, key);
    assert forall j :: 0 <= j < |body| ==> bytes[start + j] == body[j];
    assert forall j :: 0 <= j < |inner| ==> bytes[start + (1 + j)] == inner[j];
    forall j | 0 <= j < |EC_OID| ensures bytes[start + 3 + |inner| + j] == EC_OID[j] {
      assert body[3 + |inner|..10 + |inner|][j] == body[3 + |inner| + j] == bytes[start + (3 + |inner| + j)];
    }
  }
}
