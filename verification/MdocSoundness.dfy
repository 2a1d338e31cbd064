/** What acceptance of an mDoc presentation guarantees, for every library. */
module MdocSoundness {
  import opened Prelude
  import opened Cbor
  import opened Json
  import opened MdocLibrary
  import opened MdocVerification
  import Decoder = MdocDecoder
  import CborCodec

  // ---------------------------------------------------------------- the two parsers agree

  /** The decoder and the verifier navigate to the same document, although each tolerates tags in
      places where the other does not. */
  lemma {:induction false} ParsersOpenSameDocument(lib: Library, encoded: string)
    requires Decoder.DecodePresentation(lib, encoded).Ok? && Open(lib, encoded).Ok?
    ensures var decoded, o := Decoder.DecodePresentation(lib, encoded).value, Open(lib, encoded).value;
            decoded.docType == o.docType && decoded.namespaces == Decoder.NamespaceClaims(lib, o.nameSpaces)
  {
    var cbor := lib.read(FromBase64(lib, encoded).value).value;
    assert Decoder.ExtractDocument(cbor).value == FirstDocument(cbor).value;
  }

  /** `name = value` under `ns` comes from an item that hashes, re-encoded, to the digest the issuer's
      object lists under that namespace and the item's own digestID. */
  ghost predicate ClaimVouched(lib: Library, nameSpaces: Entries, mso: Mso, ns: string, name: string, value: Json) {
    exists k: nat, j: nat ::
      && Decoder.ReadsAs(lib, nameSpaces, k, j, ns, name, value)
      && ns in mso.valueDigests
      && ItemVouched(lib, mso.digestAlgorithm, mso.valueDigests[ns], nameSpaces[k].1.items[j])
  }

  lemma {:induction false} ClaimIsVouched(lib: Library, nameSpaces: Entries, mso: Mso, ns: string, name: string)
    requires DigestsHold(lib, nameSpaces, mso)
    requires ns in Decoder.NamespaceClaims(lib, nameSpaces) && name in Decoder.NamespaceClaims(lib, nameSpaces)[ns]
    ensures ClaimVouched(lib, nameSpaces, mso, ns, name, Decoder.NamespaceClaims(lib, nameSpaces)[ns][name])
  {
    var k := Decoder.NamespaceHasEntry(lib, nameSpaces, ns);
    var items := nameSpaces[k].1.items;
    var j := Decoder.ClaimHasItem(lib, items, name);
    assert EntryHolds(lib, nameSpaces[k], mso) && items[j] in items;
    assert Decoder.ReadsAs(lib, nameSpaces, k, j, ns, name, Decoder.NamespaceClaims(lib, nameSpaces)[ns][name]);
  }

  /** Acceptance means that the parts open and that every check on them passes. */
  lemma {:induction false} AcceptedOpens(lib: Library, encoded: string, s: Session, now: int)
    requires VerifyPresentation(lib, encoded, s, now).Ok?
    ensures Decoder.DecodePresentation(lib, encoded).Ok? && Open(lib, encoded).Ok?
    ensures IssuerObject(lib, Open(lib, encoded).value.issuerSigned).Ok?
    ensures var r := VerifyPresentation(lib, encoded, s, now).value;
            var decoded := Decoder.DecodePresentation(lib, encoded).value;
            var o := Open(lib, encoded).value;
            var (mso, trusted) := IssuerObject(lib, o.issuerSigned).value;
            && mso.docType == o.docType && DigestsHold(lib, o.nameSpaces, mso) && decoded.namespaces != map[]
            && r.claims == ClaimsJson(decoded.namespaces) && r.namespace == Least(decoded.namespaces.Keys)
            && r.docType == o.docType && r.issuerTrusted == trusted && r.notExpired
  {
  }

  ghost predicate AllVouched(lib: Library, nameSpaces: Entries, mso: Mso) {
    var namespaces := Decoder.NamespaceClaims(lib, nameSpaces);
    forall ns, name | ns in namespaces && name in namespaces[ns] ::
      ClaimVouched(lib, nameSpaces, mso, ns, name, namespaces[ns][name])
  }

  lemma {:induction false} DigestsVouchForAll(lib: Library, nameSpaces: Entries, mso: Mso)
    requires DigestsHold(lib, nameSpaces, mso)
    ensures AllVouched(lib, nameSpaces, mso)
  {
    var namespaces := Decoder.NamespaceClaims(lib, nameSpaces);
    forall ns, name | ns in namespaces && name in namespaces[ns]
      ensures ClaimVouched(lib, nameSpaces, mso, ns, name, namespaces[ns][name])
    {
      ClaimIsVouched(lib, nameSpaces, mso, ns, name);
    }
  }

  /** Every claim of an accepted presentation is vouched for by the object the issuer signed, and the
      document type is the one the issuer signed. */
  lemma {:induction false} AcceptedClaimsAreVouched(lib: Library, encoded: string, s: Session, now: int)
    requires VerifyPresentation(lib, encoded, s, now).Ok?
    ensures Open(lib, encoded).Ok? && IssuerObject(lib, Open(lib, encoded).value.issuerSigned).Ok?
    ensures var r := VerifyPresentation(lib, encoded, s, now).value;
            var o := Open(lib, encoded).value;
            var (mso, trusted) := IssuerObject(lib, o.issuerSigned).value;
            var namespaces := Decoder.NamespaceClaims(lib, o.nameSpaces);
            && namespaces != map[] && r.claims == ClaimsJson(namespaces) && r.namespace in namespaces
            && r.docType == o.docType == mso.docType && r.issuerTrusted == trusted && r.notExpired
            && AllVouched(lib, o.nameSpaces, mso)
  {
    AcceptedOpens(lib, encoded, s, now);
    ParsersOpenSameDocument(lib, encoded);
    var o := Open(lib, encoded).value;
    DigestsVouchForAll(lib, o.nameSpaces, IssuerObject(lib, o.issuerSigned).value.0);
  }

  // ---------------------------------------------------------------- what was signed

  /** The signature verifies over the COSE signature structure of this payload, with no external data. */
  predicate SignedOver(lib: Library, cose: CoseSign1, key: PublicKey, payload: Bytes) {
    var data := lib.write(Array([Text("Signature1"), Bytes(cose.protectedBytes), Bytes([]), Bytes(payload)]));
    match AlgorithmOf(cose)
    case Err(_) => false
    case Ok(alg) =>
      || (alg in {-7, -35, -36} && |cose.signature| == (if alg == -7 then 64 else if alg == -35 then 96 else 132) &&
          lib.ecdsa(key, alg, data, cose.signature))
      || (alg in {-257, -258, -259} && lib.rsa(key, alg, data, cose.signature))
  }

  lemma {:induction false} SignatureCheckMeans(lib: Library, cose: CoseSign1, key: PublicKey, payload: Bytes)
    ensures CheckSignature(lib, cose, key, payload).Ok? <==> SignedOver(lib, cose, key, payload)
  {
    assert SigStructure(cose.protectedBytes, [], payload) ==
           Array([Text("Signature1"), Bytes(cose.protectedBytes), Bytes([]), Bytes(payload)]);
  }

  /** The issuer's object was read out of a payload signed with the key its certificate chain ends in. */
  lemma {:induction false} IssuerObjectIsSigned(lib: Library, issuerSigned: Entries)
    returns (cose: CoseSign1, chain: seq<Bytes>, key: PublicKey)
    requires IssuerObject(lib, issuerSigned).Ok?
    ensures var (mso, trusted) := IssuerObject(lib, issuerSigned).value;
            && Get(issuerSigned, "issuerAuth").Some?
            && ParseCose(lib, Get(issuerSigned, "issuerAuth").value) == Ok(cose)
            && X5Chain(cose) == Ok(chain) && chain != [] && lib.chain(chain) == Some((key, trusted))
            && cose.payload.Some? && SignedOver(lib, cose, key, cose.payload.value)
            && ParsedMso(lib, cose.payload.value) == Ok(mso)
  {
    cose := ParseCose(lib, Get(issuerSigned, "issuerAuth").value).value;
    chain := X5Chain(cose).value;
    key := lib.chain(chain).value.0;
    SignatureCheckMeans(lib, cose, key, cose.payload.value);
  }

  /** The stated limits of validity parse and enclose the present. */
  predicate InTime(lib: Library, mso: Mso, now: int) {
    && (mso.validFrom.Some? ==> lib.rfc3339(mso.validFrom.value).Some? && lib.rfc3339(mso.validFrom.value).value <= now)
    && (mso.validUntil.Some? ==>
          lib.rfc3339(mso.validUntil.value).Some? && now <= lib.rfc3339(mso.validUntil.value).value)
  }

  /** Acceptance, from the inside out: issuer object, digests, holder and time have all been checked. */
  lemma {:induction false} AcceptedMeansAllChecked(lib: Library, encoded: string, s: Session, now: int)
    requires VerifyPresentation(lib, encoded, s, now).Ok?
    ensures Open(lib, encoded).Ok? && IssuerObject(lib, Open(lib, encoded).value.issuerSigned).Ok?
    ensures var o := Open(lib, encoded).value;
            var mso := IssuerObject(lib, o.issuerSigned).value.0;
            && mso.docType == o.docType && DigestsHold(lib, o.nameSpaces, mso)
            && CheckDevice(lib, o.document, o.docType, mso, s).Ok? && InTime(lib, mso, now)
  {
  }

  // ---------------------------------------------------------------- selective disclosure

  /** Every item shown in `fewer` is shown in `more` under the same namespace. */
  ghost predicate DisclosesNoMore(fewer: Entries, more: Entries) {
    forall e | e in fewer && e.0.Text? ::
      && Untag(e.1).Array?
      && exists f :: f in more && f.0 == e.0 && Untag(f.1).Array? &&
                     forall item | item in Untag(e.1).items :: item in Untag(f.1).items
  }

  /** Dropping, repeating or reordering items and namespaces never breaks the digest check. */
  lemma {:induction false} FewerItemsStillHold(lib: Library, fewer: Entries, more: Entries, mso: Mso)
    requires DigestsHold(lib, more, mso) && DisclosesNoMore(fewer, more)
    ensures DigestsHold(lib, fewer, mso)
  {
  }

  // ---------------------------------------------------------------- one object, one reading

  /** The CBOR library reads back what it wrote for this value. */
  ghost predicate Survives(lib: Library, v: Value) {
    lib.read(lib.write(v)) == Some(v) && lib.readWhole(lib.write(v)) == Some(v)
  }

  ghost predicate CodecLaws(lib: Library) {
    forall v :: Encodable(v) ==> Survives(lib, v)
  }

  lemma {:induction false} WriteInjective(lib: Library, v: Value, w: Value)
    requires Survives(lib, v) && Survives(lib, w)
    ensures lib.write(v) == lib.write(w) <==> v == w
  {
  }

  /** The library with the concrete codec of `CborCodec` in place of its CBOR functions. */
  function WithConcreteCodec(lib: Library): Library {
    lib.(write := v => if Encodable(v) then CborCodec.Encode(v) else [],
         read := b => CborCodec.FromReader(b),
         readWhole := b => match CborCodec.Decode(b)
                           case Some((v, rest)) => if rest == [] then Some(v) else None
                           case None => None)
  }

  /** The laws hold of a real codec. */
  lemma {:induction false} ConcreteCodecIsLawful(lib: Library)
    ensures CodecLaws(WithConcreteCodec(lib))
  {
    forall v | Encodable(v) ensures Survives(WithConcreteCodec(lib), v) {
      CborCodec.DecodeEncode(v, []);
      assert CborCodec.Encode(v) + [] == CborCodec.Encode(v);
    }
  }

  /** The encodings of the two items do not collide under the named hash. */
  ghost predicate Apart(lib: Library, algorithm: string, x: Value, y: Value) {
    match AlgorithmNamed(algorithm)
    case None => true
    case Some(h) => lib.hash(h, lib.write(x)) == lib.hash(h, lib.write(y)) ==> lib.write(x) == lib.write(y)
  }

  predicate FitsLength(item: Value) {
    ItemBytes(item).Some? ==> |ItemBytes(item).value| < U64
  }

  /** Two items vouched for under the same namespace and digestID of one issuer object are the same
      bytes, so they read as the same element with the same value. */
  lemma {:induction false} SameDigestSameClaim(lib: Library, mso: Mso, ns: string, x: Value, y: Value)
    requires CodecLaws(lib) && ns in mso.valueDigests
    requires ItemVouched(lib, mso.digestAlgorithm, mso.valueDigests[ns], x)
    requires ItemVouched(lib, mso.digestAlgorithm, mso.valueDigests[ns], y)
    requires Apart(lib, mso.digestAlgorithm, x, y) && FitsLength(x) && FitsLength(y)
    ensures ItemDigestId(lib, x) == ItemDigestId(lib, y) ==>
              x == y && Decoder.ParseItem(lib, x) == Decoder.ParseItem(lib, y)
  {
    if ItemDigestId(lib, x) == ItemDigestId(lib, y) {
      assert Encodable(x) && Encodable(y);
      WriteInjective(lib, x, y);
    }
  }

  /** Two accepted presentations that carry the same issuer object agree on name and value of every
      element they both disclose: items with the same namespace and digestID are equal. */
  lemma {:induction false} PresentationsAgree(
    lib: Library, first: Entries, second: Entries, mso: Mso, ns: string, k: nat, i: nat, l: nat, j: nat)
    requires CodecLaws(lib) && DigestsHold(lib, first, mso) && DigestsHold(lib, second, mso)
    requires k < |first| && first[k].0 == Text(ns) && first[k].1.Array? && i < |first[k].1.items|
    requires l < |second| && second[l].0 == Text(ns) && second[l].1.Array? && j < |second[l].1.items|
    requires Apart(lib, mso.digestAlgorithm, first[k].1.items[i], second[l].1.items[j])
    requires FitsLength(first[k].1.items[i]) && FitsLength(second[l].1.items[j])
    ensures ItemDigestId(lib, first[k].1.items[i]) == ItemDigestId(lib, second[l].1.items[j]) ==>
              Decoder.ParseItem(lib, first[k].1.items[i]) == Decoder.ParseItem(lib, second[l].1.items[j])
  {
    assert EntryHolds(lib, first[k], mso) && EntryHolds(lib, second[l], mso);
    assert first[k].1.items[i] in first[k].1.items && second[l].1.items[j] in second[l].1.items;
    SameDigestSameClaim(lib, mso, ns, first[k].1.items[i], second[l].1.items[j]);
  }

  // ---------------------------------------------------------------- two accepted presentations

  ghost predicate IsItem(nameSpaces: Entries, item: Value) {
    exists k :: 0 <= k < |nameSpaces| && nameSpaces[k].1.Array? && item in nameSpaces[k].1.items
  }

  /** The claim comes from an item that the issuer's object vouches for under this digestID. */
  ghost predicate VouchedBy(
    lib: Library, nameSpaces: Entries, mso: Mso, ns: string, name: string, value: Json, id: nat)
  {
    ns in mso.valueDigests &&
    exists item :: IsItem(nameSpaces, item) && ItemDigestId(lib, item) == Some(id) &&
                   ItemVouched(lib, mso.digestAlgorithm, mso.valueDigests[ns], item) &&
                   Decoder.ParseItem(lib, item) == Ok((name, value))
  }

  /** No item of one presentation collides with an item of the other, and all fit 64-bit lengths. */
  ghost predicate ItemsDistinguished(lib: Library, algorithm: string, first: Entries, second: Entries) {
    && (forall x, y :: IsItem(first, x) && IsItem(second, y) ==> Apart(lib, algorithm, x, y))
    && forall x :: IsItem(first, x) || IsItem(second, x) ==> FitsLength(x)
  }

  /** Every claim the presentation yields is vouched for under some digestID. */
  ghost predicate AllVouchedBy(lib: Library, nameSpaces: Entries, mso: Mso) {
    var namespaces := Decoder.NamespaceClaims(lib, nameSpaces);
    forall ns, name | ns in namespaces && name in namespaces[ns] ::
      exists id :: VouchedBy(lib, nameSpaces, mso, ns, name, namespaces[ns][name], id)
  }

  lemma {:induction false} VouchedHasDigestId(
    lib: Library, nameSpaces: Entries, mso: Mso, ns: string, name: string, value: Json) returns (id: nat)
    requires ClaimVouched(lib, nameSpaces, mso, ns, name, value)
    ensures VouchedBy(lib, nameSpaces, mso, ns, name, value, id)
  {
    var k: nat, j: nat :| Decoder.ReadsAs(lib, nameSpaces, k, j, ns, name, value) && ns in mso.valueDigests &&
                          ItemVouched(lib, mso.digestAlgorithm, mso.valueDigests[ns], nameSpaces[k].1.items[j]);
    var item := nameSpaces[k].1.items[j];
    id := ItemDigestId(lib, item).value;
    assert IsItem(nameSpaces, item);
  }

  lemma {:induction false} AcceptedHaveDigestIds(lib: Library, encoded: string, s: Session, now: int)
    requires VerifyPresentation(lib, encoded, s, now).Ok?
    ensures Open(lib, encoded).Ok? && IssuerObject(lib, Open(lib, encoded).value.issuerSigned).Ok?
    ensures AllVouchedBy(lib, Open(lib, encoded).value.nameSpaces,
                         IssuerObject(lib, Open(lib, encoded).value.issuerSigned).value.0)
  {
    AcceptedClaimsAreVouched(lib, encoded, s, now);
    var nameSpaces := Open(lib, encoded).value.nameSpaces;
    var mso := IssuerObject(lib, Open(lib, encoded).value.issuerSigned).value.0;
    var namespaces := Decoder.NamespaceClaims(lib, nameSpaces);
    forall ns, name | ns in namespaces && name in namespaces[ns]
      ensures exists id :: VouchedBy(lib, nameSpaces, mso, ns, name, namespaces[ns][name], id)
    {
      var id := VouchedHasDigestId(lib, nameSpaces, mso, ns, name, namespaces[ns][name]);
    }
  }

  lemma {:induction false} SameIdSameClaim(
    lib: Library, first: Entries, second: Entries, mso: Mso, ns: string, id: nat,
    name: string, value: Json, other: string, otherValue: Json)
    requires CodecLaws(lib) && ItemsDistinguished(lib, mso.digestAlgorithm, first, second)
    requires VouchedBy(lib, first, mso, ns, name, value, id) && VouchedBy(lib, second, mso, ns, other, otherValue, id)
    ensures name == other && value == otherValue
  {
    var x :| IsItem(first, x) && ItemDigestId(lib, x) == Some(id) &&
             ItemVouched(lib, mso.digestAlgorithm, mso.valueDigests[ns], x) &&
             Decoder.ParseItem(lib, x) == Ok((name, value));
    var y :| IsItem(second, y) && ItemDigestId(lib, y) == Some(id) &&
             ItemVouched(lib, mso.digestAlgorithm, mso.valueDigests[ns], y) &&
             Decoder.ParseItem(lib, y) == Ok((other, otherValue));
    SameDigestSameClaim(lib, mso, ns, x, y);
  }

  /** Two presentations accepted with the same issuer object, in whatever sessions and at whatever times:
      every claim of either is vouched for under a digestID, and claims of one namespace vouched for under
      one digestID have the same name and value. */
  lemma {:induction false} AcceptedPresentationsAgree(
    lib: Library, first: string, s: Session, now: int, second: string, t: Session, later: int)
    requires VerifyPresentation(lib, first, s, now).Ok? && VerifyPresentation(lib, second, t, later).Ok?
    requires Open(lib, first).Ok? && IssuerObject(lib, Open(lib, first).value.issuerSigned).Ok?
    requires Open(lib, second).Ok? && IssuerObject(lib, Open(lib, second).value.issuerSigned).Ok?
    requires IssuerObject(lib, Open(lib, first).value.issuerSigned).value.0 ==
             IssuerObject(lib, Open(lib, second).value.issuerSigned).value.0
    requires CodecLaws(lib)
    requires ItemsDistinguished(lib, IssuerObject(lib, Open(lib, first).value.issuerSigned).value.0.digestAlgorithm,
                                Open(lib, first).value.nameSpaces, Open(lib, second).value.nameSpaces)
    ensures var mso := IssuerObject(lib, Open(lib, first).value.issuerSigned).value.0;
            var a, b := Open(lib, first).value.nameSpaces, Open(lib, second).value.nameSpaces;
            && AllVouchedBy(lib, a, mso) && AllVouchedBy(lib, b, mso)
            && forall ns, id, name, value, other, otherValue ::
                 VouchedBy(lib, a, mso, ns, name, value, id) && VouchedBy(lib, b, mso, ns, other, otherValue, id) ==>
                 name == other && value == otherValue
  {
    AcceptedHaveDigestIds(lib, first, s, now);
    AcceptedHaveDigestIds(lib, second, t, later);
    var mso := IssuerObject(lib, Open(lib, first).value.issuerSigned).value.0;
    var a, b := Open(lib, first).value.nameSpaces, Open(lib, second).value.nameSpaces;
    forall ns, id, name, value, other, otherValue |
      VouchedBy(lib, a, mso, ns, name, value, id) && VouchedBy(lib, b, mso, ns, other, otherValue, id)
      ensures name == other && value == otherValue
    {
      SameIdSameClaim(lib, a, b, mso, ns, id, name, value, other, otherValue);
    }
  }
}
