/** Building and verifying are inverse: an issued presentation is accepted exactly for the session it
    was bound to, inside its validity window, and returns exactly the issued claims. */
module MdocRoundTrip {
  import opened Prelude
  import opened Cbor
  import opened Json
  import opened MdocLibrary
  import opened MdocVerification
  import opened MdocIssuing
  import opened MdocSoundness
  import Decoder = MdocDecoder

  // ---------------------------------------------------------------- assumptions on this issuance

  function ItemMapOf(iss: Issuance, i: nat): Value
    requires i < |iss.claims| == |iss.salts|
  {
    ItemMap(i, iss.salts[i], iss.claims[i].0, iss.claims[i].1)
  }

  ghost predicate ItemsSurvive(lib: Library, iss: Issuance)
    requires |iss.claims| == |iss.salts|
  {
    |iss.claims| < U64 && forall i | 0 <= i < |iss.claims| :: Survives(lib, ItemMapOf(iss, i))
  }

  function DeviceAuthenticationOf(lib: Library, docType: string, s: Session): Value {
    DeviceAuthentication(Transcript(lib, s), docType, lib.write(Map([])))
  }

  function DevicePayload(lib: Library, docType: string, s: Session): Value {
    Tag(24, Bytes(lib.write(DeviceAuthenticationOf(lib, docType, s))))
  }

  ghost predicate SessionSurvives(lib: Library, docType: string, s: Session) {
    && Survives(lib, HandoverInfo(s)) && Survives(lib, Transcript(lib, s))
    && Survives(lib, DeviceAuthenticationOf(lib, docType, s)) && Survives(lib, DevicePayload(lib, docType, s))
    && Survives(lib, SigStructure(ProtectedBytes(lib), [], lib.write(DevicePayload(lib, docType, s))))
  }

  /** The CBOR library reads back each structure the builder or this check encodes. */
  ghost predicate AllSurvive(lib: Library, iss: Issuance, s: Session)
    requires |iss.claims| == |iss.salts|
  {
    && Survives(lib, DeviceResponse(lib, iss)) && Survives(lib, Map(ES256_HEADER))
    && Survives(lib, Map(MsoEntries(lib, iss))) && Survives(lib, Map(CoseKeyEntries(iss)))
    && Survives(lib, IssuerAuth(lib, iss)) && Survives(lib, DeviceSignature(lib, iss))
    && ItemsSurvive(lib, iss)
    && SessionSurvives(lib, iss.docType, BoundSession(iss)) && SessionSurvives(lib, iss.docType, s)
  }

  /** COSE headers and keys built here parse. */
  predicate CoseParses(lib: Library, iss: Issuance) {
    && ProtectedBytes(lib) != []
    && lib.headerParses(ES256_HEADER) && lib.headerParses([]) && lib.headerParses(ChainHeader(iss))
    && lib.keyParses(CoseKeyEntries(iss))
  }

  /** Ideal 64-byte signatures: the certificate carries the issuer key, and a device signature verifies
      for exactly the data it was made over. */
  ghost predicate SignaturesIdeal(
    lib: Library, iss: Issuance, s: Session, issuerKey: PublicKey, deviceKey: PublicKey, trusted: bool)
    requires |iss.claims| == |iss.salts|
  {
    var signed, checked := DeviceData(lib, iss.docType, BoundSession(iss)), DeviceData(lib, iss.docType, s);
    && lib.chain([iss.issuerCert, iss.caCert]) == Some((issuerKey, trusted))
    && lib.point(1, iss.deviceX, iss.deviceY) == Some(deviceKey)
    && |iss.issuerSign(IssuerData(lib, iss))| == 64
    && lib.ecdsa(issuerKey, -7, IssuerData(lib, iss), iss.issuerSign(IssuerData(lib, iss)))
    && |iss.deviceSign(signed)| == 64
    && (lib.ecdsa(deviceKey, -7, checked, iss.deviceSign(signed)) <==> checked == signed)
  }

  ghost predicate HandoversDoNotCollide(lib: Library, iss: Issuance, s: Session) {
    lib.hash(Sha256, lib.write(HandoverInfo(BoundSession(iss)))) == lib.hash(Sha256, lib.write(HandoverInfo(s))) ==>
      lib.write(HandoverInfo(BoundSession(iss))) == lib.write(HandoverInfo(s))
  }

  // ---------------------------------------------------------------- opening

  lemma {:induction false} DocumentFields(lib: Library, iss: Issuance)
    requires |iss.claims| == |iss.salts|
    ensures var d := DocumentEntries(lib, iss);
            && GetText(d, "docType") == Some(iss.docType)
            && Decoder.IssuerSigned(d) == Ok(IssuerSignedEntries(lib, iss))
            && MapField(d, "deviceSigned") == Ok(DeviceSignedEntries(lib, iss))
            && Decoder.NameSpaces(IssuerSignedEntries(lib, iss)) == Ok(NameSpaceEntries(lib, iss))
            && Get(IssuerSignedEntries(lib, iss), "issuerAuth") == Some(Tag(18, IssuerAuth(lib, iss)))
  {
    GetAt(DocumentEntries(lib, iss), "docType", 0);
    GetAt(DocumentEntries(lib, iss), "issuerSigned", 1);
    GetAt(DocumentEntries(lib, iss), "deviceSigned", 2);
    GetAt(IssuerSignedEntries(lib, iss), "nameSpaces", 0);
    GetAt(IssuerSignedEntries(lib, iss), "issuerAuth", 1);
  }

  lemma {:induction false} ResponseHoldsDocument(lib: Library, iss: Issuance)
    requires |iss.claims| == |iss.salts|
    ensures FirstDocument(DeviceResponse(lib, iss)) == Ok(Map(DocumentEntries(lib, iss)))
    ensures Decoder.ExtractDocument(DeviceResponse(lib, iss)) == Ok(Map(DocumentEntries(lib, iss)))
  {
    GetAt(DeviceResponse(lib, iss).entries, "documents", 0);
  }

  lemma {:induction false} OpensAsBuilt(lib: Library, iss: Issuance)
    requires |iss.claims| == |iss.salts| && Survives(lib, DeviceResponse(lib, iss))
    requires lib.fromUrlNoPad(Presentation(lib, iss)) == Some(lib.write(DeviceResponse(lib, iss)))
    ensures Open(lib, Presentation(lib, iss)) ==
            Ok(Opened(DocumentEntries(lib, iss), iss.docType, IssuerSignedEntries(lib, iss),
                      NameSpaceEntries(lib, iss)))
    ensures Decoder.DecodePresentation(lib, Presentation(lib, iss)) ==
            Ok(Decoder.DecodedMdoc(iss.docType, Decoder.NamespaceClaims(lib, NameSpaceEntries(lib, iss))))
  {
    ResponseHoldsDocument(lib, iss);
    DocumentFields(lib, iss);
  }

  // ---------------------------------------------------------------- the issuer's object

  lemma {:induction false} CoseParsesAsBuilt(
    lib: Library, unprotected: Entries, payload: Option<Bytes>, signature: Bytes)
    requires ProtectedBytes(lib) != [] && Survives(lib, Map(ES256_HEADER))
    requires lib.headerParses(ES256_HEADER) && lib.headerParses(unprotected)
    requires Survives(lib, CoseArray(ProtectedBytes(lib), unprotected, payload, signature))
    ensures ParseCose(lib, Tag(18, CoseArray(ProtectedBytes(lib), unprotected, payload, signature))) ==
            Ok(CoseSign1(ProtectedBytes(lib), ES256_HEADER, unprotected, payload, signature))
  {
  }

  lemma {:induction false} Es256Checks(lib: Library, cose: CoseSign1, key: PublicKey, payload: Bytes)
    requires cose.protected == ES256_HEADER && cose.protectedBytes == ProtectedBytes(lib) && |cose.signature| == 64
    ensures CheckSignature(lib, cose, key, payload).Ok? <==>
            lib.ecdsa(key, -7, lib.write(SigStructure(ProtectedBytes(lib), [], payload)), cose.signature)
  {
  }

  /** The digest table of the first `n` items. */
  function DigestTable(lib: Library, iss: Issuance, n: nat): Digests
    requires n <= |iss.claims| == |iss.salts|
  {
    map i | 0 <= i < n :: ItemDigest(lib, iss, i)
  }

  lemma {:induction false} DigestsParseAsBuilt(lib: Library, iss: Issuance, n: nat)
    requires n <= |iss.claims| == |iss.salts| && |iss.claims| < U64
    ensures DigestsOf(DigestEntries(lib, iss, n)) == Ok(DigestTable(lib, iss, n))
  {
    if n > 0 {
      DigestsParseAsBuilt(lib, iss, n - 1);
      var entries := DigestEntries(lib, iss, n);
      assert entries[..n - 1] == DigestEntries(lib, iss, n - 1);
      assert entries[n - 1] == (Integer(n - 1), Bytes(ItemDigest(lib, iss, n - 1)));
      assert DigestTable(lib, iss, n) == DigestTable(lib, iss, n - 1)[n - 1 := ItemDigest(lib, iss, n - 1)];
    }
  }

  function BuiltMso(lib: Library, iss: Issuance): Mso
    requires |iss.claims| == |iss.salts|
  {
    Mso(iss.docType, "SHA-256", map[iss.namespace := DigestTable(lib, iss, |iss.claims|)], CoseKeyEntries(iss),
        Some(iss.validFrom), Some(iss.validUntil))
  }

  lemma {:induction false} ValueDigestsParseAsBuilt(lib: Library, iss: Issuance)
    requires |iss.claims| == |iss.salts| && |iss.claims| < U64
    ensures ValueDigests([(Text(iss.namespace), Map(DigestEntries(lib, iss, |iss.claims|)))]) ==
            Ok(map[iss.namespace := DigestTable(lib, iss, |iss.claims|)])
  {
    var entries: Entries := [(Text(iss.namespace), Map(DigestEntries(lib, iss, |iss.claims|)))];
    DigestsParseAsBuilt(lib, iss, |iss.claims|);
    assert entries[..0] == [];
  }

  lemma {:induction false} MsoFieldsAsBuilt(lib: Library, iss: Issuance)
    requires |iss.claims| == |iss.salts|
    ensures var e := MsoEntries(lib, iss);
            && GetText(e, "docType") == Some(iss.docType) && GetText(e, "digestAlgorithm") == Some("SHA-256")
            && MapField(e, "valueDigests") ==
                 Ok([(Text(iss.namespace), Map(DigestEntries(lib, iss, |iss.claims|)))])
            && MapField(e, "deviceKeyInfo") == Ok([(Text("deviceKey"), Map(CoseKeyEntries(iss)))])
            && MapField(e, "validityInfo") == Ok(ValidityEntries(iss))
  {
    var e := MsoEntries(lib, iss);
    GetAt(e, "digestAlgorithm", 1);
    GetAt(e, "valueDigests", 2);
    GetAt(e, "deviceKeyInfo", 3);
    GetAt(e, "docType", 4);
    GetAt(e, "validityInfo", 5);
  }

  lemma {:induction false} ValidityAsBuilt(iss: Issuance)
    ensures TextField(ValidityEntries(iss), "validFrom") == Some(iss.validFrom)
    ensures TextField(ValidityEntries(iss), "validUntil") == Some(iss.validUntil)
  {
    GetAt(ValidityEntries(iss), "validFrom", 1);
    GetAt(ValidityEntries(iss), "validUntil", 2);
  }

  lemma {:induction false} MsoParsesAsBuilt(lib: Library, iss: Issuance)
    requires |iss.claims| == |iss.salts| && |iss.claims| < U64
    requires Survives(lib, Map(MsoEntries(lib, iss))) && Survives(lib, Map(CoseKeyEntries(iss)))
    requires lib.keyParses(CoseKeyEntries(iss))
    ensures ParsedMso(lib, MsoBytes(lib, iss)) == Ok(BuiltMso(lib, iss))
  {
    MsoFieldsAsBuilt(lib, iss);
    ValueDigestsParseAsBuilt(lib, iss);
    ValidityAsBuilt(iss);
    GetAt([(Text("deviceKey"), Map(CoseKeyEntries(iss)))], "deviceKey", 0);
    assert MsoValue(lib, MsoBytes(lib, iss)) == Ok(Map(MsoEntries(lib, iss)));
  }

  lemma {:induction false} ChainAsBuilt(iss: Issuance, cose: CoseSign1)
    requires cose.protected == ES256_HEADER && cose.unprotected == ChainHeader(iss)
    ensures X5Chain(cose) == Ok([iss.issuerCert, iss.caCert])
  {
    GetLabelAt(ChainHeader(iss), X5CHAIN, 0);
    assert GetLabel(ES256_HEADER, X5CHAIN) == None by { assert ES256_HEADER[1..] == []; }
    TwoCertificates(iss.issuerCert, iss.caCert);
  }

  lemma {:induction false} TwoCertificates(leaf: Bytes, ca: Bytes)
    ensures CertificateBytes([Bytes(leaf), Bytes(ca)]) == Ok([leaf, ca])
  {
    var both: seq<Value> := [Bytes(leaf), Bytes(ca)];
    var second: seq<Value> := [Bytes(ca)];
    assert both[1..] == second && second[1..] == [];
    assert CertificateBytes([]) == Ok([]) && [ca] + [] == [ca];
    assert CertificateBytes(second) == Ok([ca]);
    assert CertificateBytes(both) == Ok([leaf] + [ca]) && [leaf] + [ca] == [leaf, ca];
  }

  lemma {:induction false} IssuerObjectAsBuilt(
    lib: Library, iss: Issuance, s: Session, issuerKey: PublicKey, deviceKey: PublicKey, trusted: bool)
    requires |iss.claims| == |iss.salts|
    requires AllSurvive(lib, iss, s) && CoseParses(lib, iss)
    requires SignaturesIdeal(lib, iss, s, issuerKey, deviceKey, trusted)
    ensures IssuerObject(lib, IssuerSignedEntries(lib, iss)) == Ok((BuiltMso(lib, iss), trusted))
  {
    DocumentFields(lib, iss);
    var signature := iss.issuerSign(IssuerData(lib, iss));
    CoseParsesAsBuilt(lib, ChainHeader(iss), Some(MsoBytes(lib, iss)), signature);
    var cose := CoseSign1(ProtectedBytes(lib), ES256_HEADER, ChainHeader(iss), Some(MsoBytes(lib, iss)), signature);
    assert ParseCose(lib, Tag(18, IssuerAuth(lib, iss))) == Ok(cose);
    ChainAsBuilt(iss, cose);
    Es256Checks(lib, cose, issuerKey, MsoBytes(lib, iss));
    MsoParsesAsBuilt(lib, iss);
  }

  // ---------------------------------------------------------------- digests and claims

  lemma {:induction false} ItemReadsAsBuilt(lib: Library, iss: Issuance, i: nat)
    requires i < |iss.claims| == |iss.salts| && ItemsSurvive(lib, iss)
    ensures ItemDigestId(lib, Item(lib, iss, i)) == Some(i)
    ensures Decoder.ParseItem(lib, Item(lib, iss, i)) == Ok((iss.claims[i].0, ToJson(lib, iss.claims[i].1)))
  {
    var m := ItemMapOf(iss, i);
    assert Survives(lib, m);
    GetAt(m.entries, "digestID", 0);
    GetAt(m.entries, "elementIdentifier", 2);
    GetAt(m.entries, "elementValue", 3);
  }

  lemma Sha256Named()
    ensures AlgorithmNamed("SHA-256") == Some(Sha256)
  {
    assert LowerCase("SHA-256") == "sha-256";
  }

  lemma {:induction false} ItemIsVouched(lib: Library, iss: Issuance, i: nat)
    requires i < |iss.claims| == |iss.salts| && ItemsSurvive(lib, iss)
    ensures ItemVouched(lib, "SHA-256", DigestTable(lib, iss, |iss.claims|), Item(lib, iss, i))
  {
    Sha256Named();
    ItemReadsAsBuilt(lib, iss, i);
  }

  lemma {:induction false} DigestsHoldAsBuilt(lib: Library, iss: Issuance)
    requires |iss.claims| == |iss.salts| && ItemsSurvive(lib, iss)
    ensures DigestsHold(lib, NameSpaceEntries(lib, iss), BuiltMso(lib, iss))
  {
    var items := Items(lib, iss, |iss.claims|);
    forall item | item in items ensures ItemVouched(lib, "SHA-256", DigestTable(lib, iss, |iss.claims|), item) {
      var i :| 0 <= i < |items| && item == items[i];
      ItemIsVouched(lib, iss, i);
    }
  }

  /** The claims as a map: a later claim of the same name replaces an earlier one. */
  function ClaimMap(lib: Library, claims: seq<(string, Value)>): Decoder.Claims {
    if claims == [] then map[]
    else
      var n := |claims| - 1;
      ClaimMap(lib, claims[..n])[claims[n].0 := ToJson(lib, claims[n].1)]
  }

  lemma {:induction false} ItemClaimsAsBuilt(lib: Library, iss: Issuance, n: nat)
    requires n <= |iss.claims| == |iss.salts| && ItemsSurvive(lib, iss)
    ensures Decoder.ItemClaims(lib, Items(lib, iss, n)) == ClaimMap(lib, iss.claims[..n])
  {
    if n > 0 {
      ItemClaimsAsBuilt(lib, iss, n - 1);
      ItemReadsAsBuilt(lib, iss, n - 1);
      var items, claims := Items(lib, iss, n), iss.claims[..n];
      assert items[..n - 1] == Items(lib, iss, n - 1) && items[n - 1] == Item(lib, iss, n - 1);
      assert claims[..n - 1] == iss.claims[..n - 1] && claims[n - 1] == iss.claims[n - 1];
    }
  }

  lemma {:induction false} NamespacesAsBuilt(lib: Library, iss: Issuance)
    requires |iss.claims| == |iss.salts| && ItemsSurvive(lib, iss)
    ensures Decoder.NamespaceClaims(lib, NameSpaceEntries(lib, iss)) == map[iss.namespace := ClaimMap(lib, iss.claims)]
  {
    ItemClaimsAsBuilt(lib, iss, |iss.claims|);
    assert iss.claims[..|iss.claims|] == iss.claims;
    assert NameSpaceEntries(lib, iss)[..0] == [];
  }

  // ---------------------------------------------------------------- the device signature

  lemma {:induction false} DeviceFields(lib: Library, iss: Issuance)
    ensures DeviceNameSpaces(lib, DeviceSignedEntries(lib, iss)) == Ok(lib.write(Map([])))
    ensures MapField(DeviceSignedEntries(lib, iss), "deviceAuth") ==
            Ok([(Text("deviceSignature"), Tag(18, DeviceSignature(lib, iss)))])
    ensures Get([(Text("deviceSignature"), Tag(18, DeviceSignature(lib, iss)))], "deviceSignature") ==
            Some(Tag(18, DeviceSignature(lib, iss)))
  {
    GetAt(DeviceSignedEntries(lib, iss), "nameSpaces", 0);
    GetAt(DeviceSignedEntries(lib, iss), "deviceAuth", 1);
    GetAt([(Text("deviceSignature"), Tag(18, DeviceSignature(lib, iss)))], "deviceSignature", 0);
  }

  /** The device check, once its parts have been found, is the signature check. */
  lemma {:induction false} SignatureDecides(
    lib: Library, document: Entries, docType: string, mso: Mso, s: Session, deviceSigned: Entries, deviceAuth: Entries,
    signature: Value, cose: CoseSign1, key: PublicKey)
    requires MapField(document, "deviceSigned") == Ok(deviceSigned)
    requires DeviceNameSpaces(lib, deviceSigned) == Ok(lib.write(Map([])))
    requires MapField(deviceSigned, "deviceAuth") == Ok(deviceAuth)
    requires Get(deviceAuth, "deviceSignature") == Some(signature)
    requires ParseCose(lib, signature) == Ok(cose) && cose.payload == None
    requires PublicKeyOf(lib, mso.deviceKey) == Ok(key) && Survives(lib, Transcript(lib, s))
    ensures CheckDevice(lib, document, docType, mso, s).Ok? <==>
            (s.requiresEncryption ==> s.thumbprint.Some?) &&
            CheckSignature(lib, cose, key, lib.write(DevicePayload(lib, docType, s))).Ok?
  {
    assert DeviceAuthenticationBytes(lib, lib.write(Transcript(lib, s)), docType, lib.write(Map([]))) ==
           Ok(lib.write(DevicePayload(lib, docType, s)));
  }

  lemma {:induction false} DeviceCheckAsBuilt(
    lib: Library, iss: Issuance, s: Session, issuerKey: PublicKey, deviceKey: PublicKey, trusted: bool)
    requires |iss.claims| == |iss.salts|
    requires AllSurvive(lib, iss, s) && CoseParses(lib, iss)
    requires SignaturesIdeal(lib, iss, s, issuerKey, deviceKey, trusted)
    ensures CheckDevice(lib, DocumentEntries(lib, iss), iss.docType, BuiltMso(lib, iss), s).Ok? <==>
            (s.requiresEncryption ==> s.thumbprint.Some?) &&
            DeviceData(lib, iss.docType, s) == DeviceData(lib, iss.docType, BoundSession(iss))
  {
    var signature := iss.deviceSign(DeviceData(lib, iss.docType, BoundSession(iss)));
    DocumentFields(lib, iss);
    DeviceFields(lib, iss);
    CoseParsesAsBuilt(lib, [], None, signature);
    var cose := CoseSign1(ProtectedBytes(lib), ES256_HEADER, [], None, signature);
    KeyAsBuilt(lib, iss);
    SignatureDecides(lib, DocumentEntries(lib, iss), iss.docType, BuiltMso(lib, iss), s, DeviceSignedEntries(lib, iss),
                     [(Text("deviceSignature"), Tag(18, DeviceSignature(lib, iss)))],
                     Tag(18, DeviceSignature(lib, iss)), cose, deviceKey);
    Es256Checks(lib, cose, deviceKey, lib.write(DevicePayload(lib, iss.docType, s)));
  }

  lemma {:induction false} KeyAsBuilt(lib: Library, iss: Issuance)
    ensures PublicKeyOf(lib, CoseKeyEntries(iss)) ==
            OrElse(lib.point(1, iss.deviceX, iss.deviceY), "failed to reconstruct EC public key")
  {
    GetLabelAt(CoseKeyEntries(iss), 1, 0);
    GetLabelAt(CoseKeyEntries(iss), -1, 2);
    GetLabelAt(CoseKeyEntries(iss), -2, 3);
    GetLabelAt(CoseKeyEntries(iss), -3, 4);
  }

  /** What is signed determines the session: same bytes only for the same client, nonce, response URI
      and unencrypted mode. */
  lemma {:induction false} DeviceDataDeterminesSession(lib: Library, iss: Issuance, s: Session)
    requires SessionSurvives(lib, iss.docType, s) && SessionSurvives(lib, iss.docType, BoundSession(iss))
    requires HandoversDoNotCollide(lib, iss, s)
    requires s.requiresEncryption ==> s.thumbprint.Some?
    ensures DeviceData(lib, iss.docType, s) == DeviceData(lib, iss.docType, BoundSession(iss)) <==> SameSession(iss, s)
  {
  }

  // ---------------------------------------------------------------- the theorem

  predicate InWindow(lib: Library, iss: Issuance, now: int) {
    && lib.rfc3339(iss.validFrom).Some? && lib.rfc3339(iss.validUntil).Some?
    && lib.rfc3339(iss.validFrom).value <= now <= lib.rfc3339(iss.validUntil).value
  }

  predicate SameSession(iss: Issuance, s: Session) {
    !s.requiresEncryption && s.clientId == iss.clientId && s.nonce == iss.nonce && s.responseUri == iss.responseUri
  }

  /** Once the document, the issuer's object and the digests are settled, only the device check and the
      validity window decide. */
  lemma {:induction false} RestDecides(
    lib: Library, encoded: string, s: Session, now: int, o: Opened, namespaces: Decoder.Namespaces, mso: Mso,
    trusted: bool)
    requires Open(lib, encoded) == Ok(o)
    requires Decoder.DecodePresentation(lib, encoded) == Ok(Decoder.DecodedMdoc(o.docType, namespaces))
    requires IssuerObject(lib, o.issuerSigned) == Ok((mso, trusted))
    requires mso.docType == o.docType && DigestsHold(lib, o.nameSpaces, mso) && namespaces != map[]
    ensures var r := VerifyPresentation(lib, encoded, s, now);
            && (r.Ok? <==> CheckDevice(lib, o.document, o.docType, mso, s).Ok? && CheckValidity(lib, mso, now).Ok?)
            && (r.Ok? ==> r.value == Verified(ClaimsJson(namespaces), o.docType, Least(namespaces.Keys), true, trusted))
  {
  }

  lemma {:induction false} WindowDecides(lib: Library, iss: Issuance, now: int)
    requires |iss.claims| == |iss.salts|
    ensures CheckValidity(lib, BuiltMso(lib, iss), now).Ok? <==> InWindow(lib, iss, now)
  {
  }

  lemma {:induction false} SessionDecides(
    lib: Library, iss: Issuance, s: Session, issuerKey: PublicKey, deviceKey: PublicKey, trusted: bool)
    requires |iss.claims| == |iss.salts|
    requires AllSurvive(lib, iss, s) && CoseParses(lib, iss) && HandoversDoNotCollide(lib, iss, s)
    requires SignaturesIdeal(lib, iss, s, issuerKey, deviceKey, trusted)
    ensures CheckDevice(lib, DocumentEntries(lib, iss), iss.docType, BuiltMso(lib, iss), s).Ok? <==> SameSession(iss, s)
  {
    DeviceCheckAsBuilt(lib, iss, s, issuerKey, deviceKey, trusted);
    if s.requiresEncryption ==> s.thumbprint.Some? {
      DeviceDataDeterminesSession(lib, iss, s);
    }
  }

  /** An issued presentation is accepted if and only if the verifier supplies the same client_id, nonce
      and response_uri in the unencrypted mode, inside the validity window; it then returns exactly
      the issued claims, document type and namespace, and the trust of the issuer's chain. */
  lemma {:induction false} IssuedIsAcceptedExactly(
    lib: Library, iss: Issuance, s: Session, now: int, issuerKey: PublicKey, deviceKey: PublicKey, trusted: bool)
    requires |iss.claims| == |iss.salts|
    requires AllSurvive(lib, iss, s) && CoseParses(lib, iss) && HandoversDoNotCollide(lib, iss, s)
    requires SignaturesIdeal(lib, iss, s, issuerKey, deviceKey, trusted)
    requires lib.fromUrlNoPad(Presentation(lib, iss)) == Some(lib.write(DeviceResponse(lib, iss)))
    ensures var r := VerifyPresentation(lib, Presentation(lib, iss), s, now);
            && (r.Ok? <==> SameSession(iss, s) && InWindow(lib, iss, now))
            && (r.Ok? ==>
                  r.value == Verified(JObject(ClaimMap(lib, iss.claims)), iss.docType, iss.namespace, true, trusted))
  {
    var o := Opened(DocumentEntries(lib, iss), iss.docType, IssuerSignedEntries(lib, iss), NameSpaceEntries(lib, iss));
    OpensAsBuilt(lib, iss);
    IssuerObjectAsBuilt(lib, iss, s, issuerKey, deviceKey, trusted);
    DigestsHoldAsBuilt(lib, iss);
    NamespacesAsBuilt(lib, iss);
    OnlyNamespace(iss.namespace, ClaimMap(lib, iss.claims));
    RestDecides(lib, Presentation(lib, iss), s, now, o, map[iss.namespace := ClaimMap(lib, iss.claims)],
                BuiltMso(lib, iss), trusted);
    SessionDecides(lib, iss, s, issuerKey, deviceKey, trusted);
    WindowDecides(lib, iss, now);
  }

  lemma OnlyNamespace(ns: string, claims: Decoder.Claims)
    ensures var namespaces: Decoder.Namespaces := map[ns := claims];
            namespaces != map[] && Least(namespaces.Keys) == ns && ClaimsJson(namespaces) == JObject(claims)
  {
  }

  /** With distinct names nothing is lost: the returned object has exactly the issued names, each with
      its issued value. */
  lemma {:induction false} DistinctClaimsAllReturned(lib: Library, claims: seq<(string, Value)>, name: string)
    requires forall i, j :: 0 <= i < j < |claims| ==> claims[i].0 != claims[j].0
    ensures name in ClaimMap(lib, claims) <==> exists i :: 0 <= i < |claims| && claims[i].0 == name
    ensures forall i :: 0 <= i < |claims| && claims[i].0 == name ==>
            ClaimMap(lib, claims)[name] == ToJson(lib, claims[i].1)
  {
    if claims != [] {
      var n := |claims| - 1;
      DistinctClaimsAllReturned(lib, claims[..n], name);
      assert forall i :: 0 <= i < n ==> claims[..n][i] == claims[i];
    }
  }

  /** With a lawful CBOR library, structures that fit 64-bit lengths and hold valid text survive. */
  lemma {:induction false} EncodableSurvives(lib: Library, iss: Issuance, s: Session)
    requires |iss.claims| == |iss.salts| < U64 && CodecLaws(lib)
    requires Encodable(DeviceResponse(lib, iss)) && Encodable(Map(MsoEntries(lib, iss)))
    requires Encodable(Map(CoseKeyEntries(iss))) && Encodable(Map(ES256_HEADER))
    requires Encodable(IssuerAuth(lib, iss)) && Encodable(DeviceSignature(lib, iss))
    requires forall i | 0 <= i < |iss.claims| :: Encodable(ItemMapOf(iss, i))
    requires forall t | t == s || t == BoundSession(iss) ::
      && Encodable(HandoverInfo(t)) && Encodable(Transcript(lib, t))
      && Encodable(DeviceAuthenticationOf(lib, iss.docType, t)) && Encodable(DevicePayload(lib, iss.docType, t))
      && Encodable(SigStructure(ProtectedBytes(lib), [], lib.write(DevicePayload(lib, iss.docType, t))))
    ensures AllSurvive(lib, iss, s)
  {
    assert forall i | 0 <= i < |iss.claims| :: Survives(lib, ItemMapOf(iss, i));
    forall t | t == s || t == BoundSession(iss) ensures SessionSurvives(lib, iss.docType, t) {
    }
  }

  /** The builder's fixed PID comes back as exactly its four claims. */
  lemma PidClaimsReturned(lib: Library)
    ensures ClaimMap(lib, PID_CLAIMS) ==
            map["given_name" := JString("Test"), "family_name" := JString("User"),
                "birth_date" := JString("1990-01-01"), "age_over_18" := JBool(true)]
  {
    var c := PID_CLAIMS;
    assert c[..3][..2][..1][..0] == [];
    assert c[..3][..2][..1] == [c[0]] && c[..3][..2] == [c[0], c[1]] && c[..3] == [c[0], c[1], c[2]];
    assert ClaimMap(lib, [c[0]]) == map["given_name" := JString("Test")];
    assert ClaimMap(lib, [c[0], c[1]]) == map["given_name" := JString("Test"), "family_name" := JString("User")];
  }

  /** The builder's PID, accepted, is reported under its document type and namespace with its four claims. */
  lemma {:induction false} IssuedPidIsReturned(
    lib: Library, iss: Issuance, s: Session, now: int, issuerKey: PublicKey, deviceKey: PublicKey, trusted: bool)
    requires iss.docType == iss.namespace == PID && iss.claims == PID_CLAIMS && |iss.salts| == 4
    requires AllSurvive(lib, iss, s) && CoseParses(lib, iss) && HandoversDoNotCollide(lib, iss, s)
    requires SignaturesIdeal(lib, iss, s, issuerKey, deviceKey, trusted)
    requires lib.fromUrlNoPad(Presentation(lib, iss)) == Some(lib.write(DeviceResponse(lib, iss)))
    ensures var r := VerifyPresentation(lib, Presentation(lib, iss), s, now);
            && (r.Ok? <==> SameSession(iss, s) && InWindow(lib, iss, now))
            && (r.Ok? ==>
                  r.value.docType == r.value.namespace == PID && r.value.issuerTrusted == trusted &&
                  r.value.claims == JObject(map[
                    "given_name" := JString("Test"), "family_name" := JString("User"),
                    "birth_date" := JString("1990-01-01"), "age_over_18" := JBool(true)]))
  {
    PidClaimsReturned(lib);
    IssuedIsAcceptedExactly(lib, iss, s, now, issuerKey, deviceKey, trusted);
  }
}
