/** Building a signed mDoc `DeviceResponse` (ISO/IEC 18013-5, sections 9.1.2.4 and 9.1.3.4). */
module MdocIssuing {
  import opened Prelude
  import opened Cbor
  import opened MdocLibrary
  import opened MdocVerification

  /** Everything the builder is given or draws: claims with one random salt each, keys as signing
      functions with their public parts, the validity window and the session to bind to. */
  datatype Issuance = Issuance(
    docType: string, namespace: string,
    claims: seq<(string, Value)>, salts: seq<Bytes>,
    issuerSign: Bytes -> Bytes, issuerCert: Bytes, caCert: Bytes,
    deviceSign: Bytes -> Bytes, deviceX: Bytes, deviceY: Bytes,
    validFrom: string, validUntil: string,
    clientId: string, nonce: string, responseUri: string)

  function ItemMap(id: nat, salt: Bytes, name: string, value: Value): Value {
    Map([(Text("digestID"), Integer(id)), (Text("random"), Bytes(salt)),
         (Text("elementIdentifier"), Text(name)), (Text("elementValue"), value)])
  }

  /** IssuerSignedItemBytes of claim `i`. */
  function Item(lib: Library, iss: Issuance, i: nat): Value
    requires i < |iss.claims| == |iss.salts|
  {
    Tag(24, Bytes(lib.write(ItemMap(i, iss.salts[i], iss.claims[i].0, iss.claims[i].1))))
  }

  function ItemDigest(lib: Library, iss: Issuance, i: nat): Bytes
    requires i < |iss.claims| == |iss.salts|
  {
    lib.hash(Sha256, lib.write(Item(lib, iss, i)))
  }

  function Items(lib: Library, iss: Issuance, n: nat): seq<Value>
    requires n <= |iss.claims| == |iss.salts|
  {
    seq(n, i requires 0 <= i < n => Item(lib, iss, i))
  }

  function DigestEntries(lib: Library, iss: Issuance, n: nat): Entries
    requires n <= |iss.claims| == |iss.salts|
  {
    seq(n, i requires 0 <= i < n => (Integer(i), Bytes(ItemDigest(lib, iss, i))))
  }

  /** `build_issuer_signed_items`: one pass pushing items and digests. */
  method BuildIssuerSignedItems(lib: Library, iss: Issuance) returns (items: seq<Value>, digests: seq<(nat, Bytes)>)
    requires |iss.claims| == |iss.salts|
    ensures items == Items(lib, iss, |iss.claims|)
    ensures |digests| == |iss.claims|
    ensures forall i :: 0 <= i < |digests| ==> digests[i] == (i, ItemDigest(lib, iss, i))
  {
    items, digests := [], [];
    for id := 0 to |iss.claims|
      invariant items == Items(lib, iss, id)
      invariant |digests| == id && forall i :: 0 <= i < id ==> digests[i] == (i, ItemDigest(lib, iss, i))
    {
      var (name, value) := iss.claims[id];
      var encoded := lib.write(ItemMap(id, iss.salts[id], name, value));
      var tagged := Tag(24, Bytes(encoded));
      var digest := lib.hash(Sha256, lib.write(tagged));
      digests := digests + [(id, digest)];
      items := items + [tagged];
    }
  }

  // ---------------------------------------------------------------- signed structures

  function CoseKeyEntries(iss: Issuance): Entries {
    [(Integer(1), Integer(2)), (Integer(3), Integer(-7)), (Integer(-1), Integer(1)),
     (Integer(-2), Bytes(iss.deviceX)), (Integer(-3), Bytes(iss.deviceY))]
  }

  function ValidityEntries(iss: Issuance): Entries {
    [(Text("signed"), Text(iss.validFrom)), (Text("validFrom"), Text(iss.validFrom)),
     (Text("validUntil"), Text(iss.validUntil))]
  }

  /** `build_mso`. */
  function MsoEntries(lib: Library, iss: Issuance): Entries
    requires |iss.claims| == |iss.salts|
  {
    [(Text("version"), Text("1.0")),
     (Text("digestAlgorithm"), Text("SHA-256")),
     (Text("valueDigests"), Map([(Text(iss.namespace), Map(DigestEntries(lib, iss, |iss.claims|)))])),
     (Text("deviceKeyInfo"), Map([(Text("deviceKey"), Map(CoseKeyEntries(iss)))])),
     (Text("docType"), Text(iss.docType)),
     (Text("validityInfo"), Map(ValidityEntries(iss)))]
  }

  const ES256_HEADER: Entries := [(Integer(1), Integer(-7))]

  function ProtectedBytes(lib: Library): Bytes {
    lib.write(Map(ES256_HEADER))
  }

  function MsoBytes(lib: Library, iss: Issuance): Bytes
    requires |iss.claims| == |iss.salts|
  {
    lib.write(Map(MsoEntries(lib, iss)))
  }

  function CoseArray(protectedBytes: Bytes, unprotected: Entries, payload: Option<Bytes>, signature: Bytes): Value {
    Array([Bytes(protectedBytes), Map(unprotected),
           if payload.Some? then Bytes(payload.value) else Null, Bytes(signature)])
  }

  function IssuerData(lib: Library, iss: Issuance): Bytes
    requires |iss.claims| == |iss.salts|
  {
    lib.write(SigStructure(ProtectedBytes(lib), [], MsoBytes(lib, iss)))
  }

  function ChainHeader(iss: Issuance): Entries {
    [(Integer(33), Array([Bytes(iss.issuerCert), Bytes(iss.caCert)]))]
  }

  function IssuerAuth(lib: Library, iss: Issuance): Value
    requires |iss.claims| == |iss.salts|
  {
    CoseArray(ProtectedBytes(lib), ChainHeader(iss), Some(MsoBytes(lib, iss)), iss.issuerSign(IssuerData(lib, iss)))
  }

  /** The unencrypted session the response is bound to. */
  function BoundSession(iss: Issuance): Session {
    Session(iss.clientId, iss.nonce, iss.responseUri, false, None)
  }

  /** What the device key signs for a session. */
  function DeviceData(lib: Library, docType: string, s: Session): Bytes {
    lib.write(SigStructure(ProtectedBytes(lib), [],
      lib.write(Tag(24, Bytes(lib.write(DeviceAuthentication(Transcript(lib, s), docType, lib.write(Map([])))))))))
  }

  function DeviceSignature(lib: Library, iss: Issuance): Value {
    CoseArray(ProtectedBytes(lib), [], None, iss.deviceSign(DeviceData(lib, iss.docType, BoundSession(iss))))
  }

  // ---------------------------------------------------------------- the response

  function NameSpaceEntries(lib: Library, iss: Issuance): Entries
    requires |iss.claims| == |iss.salts|
  {
    [(Text(iss.namespace), Array(Items(lib, iss, |iss.claims|)))]
  }

  function IssuerSignedEntries(lib: Library, iss: Issuance): Entries
    requires |iss.claims| == |iss.salts|
  {
    [(Text("nameSpaces"), Map(NameSpaceEntries(lib, iss))), (Text("issuerAuth"), Tag(18, IssuerAuth(lib, iss)))]
  }

  function DeviceSignedEntries(lib: Library, iss: Issuance): Entries {
    [(Text("nameSpaces"), Tag(24, Bytes(lib.write(Map([]))))),
     (Text("deviceAuth"), Map([(Text("deviceSignature"), Tag(18, DeviceSignature(lib, iss)))]))]
  }

  function DocumentEntries(lib: Library, iss: Issuance): Entries
    requires |iss.claims| == |iss.salts|
  {
    [(Text("docType"), Text(iss.docType)),
     (Text("issuerSigned"), Map(IssuerSignedEntries(lib, iss))),
     (Text("deviceSigned"), Map(DeviceSignedEntries(lib, iss)))]
  }

  function DeviceResponse(lib: Library, iss: Issuance): Value
    requires |iss.claims| == |iss.salts|
  {
    Map([(Text("documents"), Array([Map(DocumentEntries(lib, iss))])), (Text("status"), Integer(0))])
  }

  /** The encoded presentation the builder is meant to produce. */
  function Presentation(lib: Library, iss: Issuance): string
    requires |iss.claims| == |iss.salts|
  {
    lib.toBase64Url(lib.write(DeviceResponse(lib, iss)))
  }

  // ---------------------------------------------------------------- the builder, step by step

  /** `build_openid4vp_session_transcript_direct_post`. */
  function SessionTranscriptDirectPost(lib: Library, clientId: string, nonce: string, responseUri: string): Bytes {
    var handoverInfo := Array([Text(clientId), Text(nonce), Null, Text(responseUri)]);
    var handover := Array([Text("OpenID4VPHandover"), Bytes(lib.hash(Sha256, lib.write(handoverInfo)))]);
    lib.write(Array([Null, Null, handover]))
  }

  /** `build_device_authentication`: the transcript is read back from its bytes. */
  function BuildDeviceAuthentication(lib: Library, transcript: Bytes, docType: string, nameSpaces: Bytes)
    : Result<Bytes, string>
  {
    var t :- OrElse(lib.read(transcript), "SessionTranscript is not CBOR");
    Ok(lib.write(Array([Text("DeviceAuthentication"), t, Text(docType), Tag(24, Bytes(nameSpaces))])))
  }

  /** `cose_sign1_sig_structure`. */
  function SignatureInput(lib: Library, protectedBytes: Bytes, externalAad: Bytes, payload: Bytes): Bytes {
    lib.write(Array([Text("Signature1"), Bytes(protectedBytes), Bytes(externalAad), Bytes(payload)]))
  }

  /** `build_mso`: the device key is read back from its bytes. */
  function BuildMso(
    lib: Library, docType: string, namespace: string, digests: seq<(nat, Bytes)>, deviceKey: Bytes,
    validFrom: string, validUntil: string): Result<Value, string>
  {
    var key :- OrElse(lib.read(deviceKey), "device key is not CBOR");
    var entries := seq(|digests|, i requires 0 <= i < |digests| => (Integer(digests[i].0), Bytes(digests[i].1)));
    Ok(Map([(Text("version"), Text("1.0")),
            (Text("digestAlgorithm"), Text("SHA-256")),
            (Text("valueDigests"), Map([(Text(namespace), Map(entries))])),
            (Text("deviceKeyInfo"), Map([(Text("deviceKey"), key)])),
            (Text("docType"), Text(docType)),
            (Text("validityInfo"), Map([(Text("signed"), Text(validFrom)), (Text("validFrom"), Text(validFrom)),
                                        (Text("validUntil"), Text(validUntil))]))]))
  }

  /** `build_cose_sign1`. */
  function BuildCoseSign1(
    protectedBytes: Bytes, unprotected: Entries, payload: Option<Bytes>, signature: Bytes): Value {
    Tag(18, Array([Bytes(protectedBytes), Map(unprotected),
                   match payload case Some(p) => Bytes(p) case None => Null,
                   Bytes(signature)]))
  }

  /** The builder reads back the device key and the transcript it has just written. */
  ghost predicate BuilderReadsBack(lib: Library, iss: Issuance) {
    && lib.read(lib.write(Map(CoseKeyEntries(iss)))) == Some(Map(CoseKeyEntries(iss)))
    && lib.read(lib.write(Transcript(lib, BoundSession(iss)))) == Some(Transcript(lib, BoundSession(iss)))
  }

  /** `build_eudi_pid_mdoc`, for any claims. */
  method BuildMdoc(lib: Library, iss: Issuance) returns (r: Result<string, string>)
    requires |iss.claims| == |iss.salts|
    ensures BuilderReadsBack(lib, iss) ==> r == Ok(Presentation(lib, iss))
    ensures r.Err? <==> lib.read(lib.write(Map(CoseKeyEntries(iss)))).None? ||
                        lib.read(lib.write(Transcript(lib, BoundSession(iss)))).None?
  {
    var items, digests := BuildIssuerSignedItems(lib, iss);
    var deviceKey := lib.write(Map([(Integer(1), Integer(2)), (Integer(3), Integer(-7)), (Integer(-1), Integer(1)),
                                    (Integer(-2), Bytes(iss.deviceX)), (Integer(-3), Bytes(iss.deviceY))]));
    var mso :- BuildMso(lib, iss.docType, iss.namespace, digests, deviceKey, iss.validFrom, iss.validUntil);
    var msoBytes := lib.write(mso);
    var issuerProtected := lib.write(Map([(Integer(1), Integer(-7))]));
    var issuerSignature := iss.issuerSign(SignatureInput(lib, issuerProtected, [], msoBytes));
    var x5chain := Array([Bytes(iss.issuerCert), Bytes(iss.caCert)]);
    var issuerAuth := BuildCoseSign1(issuerProtected, [(Integer(33), x5chain)], Some(msoBytes), issuerSignature);
    var emptyMap := lib.write(Map([]));
    var transcript := SessionTranscriptDirectPost(lib, iss.clientId, iss.nonce, iss.responseUri);
    var deviceAuth :- BuildDeviceAuthentication(lib, transcript, iss.docType, emptyMap);
    var deviceAuthBytes := lib.write(Tag(24, Bytes(deviceAuth)));
    var deviceSignature := iss.deviceSign(SignatureInput(lib, issuerProtected, [], deviceAuthBytes));
    var deviceCose := BuildCoseSign1(issuerProtected, [], None, deviceSignature);
    var issuerSigned := Map([(Text("nameSpaces"), Map([(Text(iss.namespace), Array(items))])),
                             (Text("issuerAuth"), issuerAuth)]);
    var deviceSigned := Map([(Text("nameSpaces"), Tag(24, Bytes(emptyMap))),
                             (Text("deviceAuth"), Map([(Text("deviceSignature"), deviceCose)]))]);
    var response := Map([(Text("documents"), Array([Map([(Text("docType"), Text(iss.docType)),
                                                         (Text("issuerSigned"), issuerSigned),
                                                         (Text("deviceSigned"), deviceSigned)])])),
                         (Text("status"), Integer(0))]);
    r := Ok(lib.toBase64Url(lib.write(response)));
    if BuilderReadsBack(lib, iss) {
      SignedAsMeant(lib, iss, digests, mso);
    }
  }

  /** The builder's own object and signature input are those the specification names. */
  lemma SignedAsMeant(lib: Library, iss: Issuance, digests: seq<(nat, Bytes)>, mso: Value)
    requires |iss.claims| == |iss.salts| == |digests| && BuilderReadsBack(lib, iss)
    requires forall i :: 0 <= i < |digests| ==> digests[i] == (i, ItemDigest(lib, iss, i))
    requires BuildMso(lib, iss.docType, iss.namespace, digests, lib.write(Map(CoseKeyEntries(iss))),
                      iss.validFrom, iss.validUntil) == Ok(mso)
    ensures mso == Map(MsoEntries(lib, iss))
    ensures SessionTranscriptDirectPost(lib, iss.clientId, iss.nonce, iss.responseUri) ==
            lib.write(Transcript(lib, BoundSession(iss)))
  {
    var entries := seq(|digests|, i requires 0 <= i < |digests| => (Integer(digests[i].0), Bytes(digests[i].1)));
    assert entries == DigestEntries(lib, iss, |iss.claims|);
  }

  const PID := "eu.europa.ec.eudi.pid.1"

  /** The four fixed claims of `build_eudi_pid_mdoc`. */
  const PID_CLAIMS: seq<(string, Value)> :=
    [("given_name", Text("Test")), ("family_name", Text("User")),
     ("birth_date", Text("1990-01-01")), ("age_over_18", Bool(true))]
}
