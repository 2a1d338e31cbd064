/** A presentation that was accepted for one session is accepted for no other. */
module MdocReplay {
  import opened Prelude
  import opened Cbor
  import opened Json
  import opened MdocLibrary
  import opened MdocVerification
  import opened MdocSoundness

  function AuthenticationFor(lib: Library, docType: string, nameSpaces: Bytes, s: Session): Value {
    DeviceAuthentication(Transcript(lib, s), docType, nameSpaces)
  }

  function PayloadFor(lib: Library, docType: string, nameSpaces: Bytes, s: Session): Bytes {
    lib.write(Tag(24, Bytes(lib.write(AuthenticationFor(lib, docType, nameSpaces, s)))))
  }

  /** The CBOR library reads back what this session makes the verifier encode. */
  ghost predicate SessionReads(lib: Library, docType: string, nameSpaces: Bytes, s: Session) {
    && Survives(lib, HandoverInfo(s)) && Survives(lib, Transcript(lib, s))
    && Survives(lib, AuthenticationFor(lib, docType, nameSpaces, s))
    && Survives(lib, Tag(24, Bytes(lib.write(AuthenticationFor(lib, docType, nameSpaces, s)))))
  }

  /** The device namespaces of the opened document, as they are signed. */
  function SignedNameSpaces(lib: Library, o: Opened): Result<Bytes, string> {
    var deviceSigned :- MapField(o.document, "deviceSigned");
    DeviceNameSpaces(lib, deviceSigned)
  }

  /** The device signature and key of the opened document. */
  function DeviceProof(lib: Library, o: Opened, mso: Mso): Result<(CoseSign1, PublicKey), string> {
    var deviceSigned :- MapField(o.document, "deviceSigned");
    var deviceAuth :- MapField(deviceSigned, "deviceAuth");
    var value :- OrElse(Get(deviceAuth, "deviceSignature"), "expected deviceSignature");
    var cose :- ParseCose(lib, value);
    var key :- PublicKeyOf(lib, mso.deviceKey);
    Ok((cose, key))
  }

  /** A device check that passes is a signature, by the key the issuer bound, over this session's payload. */
  lemma {:induction false} DeviceSignedThisSession(lib: Library, o: Opened, mso: Mso, s: Session)
    requires CheckDevice(lib, o.document, o.docType, mso, s).Ok?
    requires lib.read(lib.write(Transcript(lib, s))) == Some(Transcript(lib, s))
    ensures SignedNameSpaces(lib, o).Ok? && DeviceProof(lib, o, mso).Ok?
    ensures CheckSignature(lib, DeviceProof(lib, o, mso).value.0, DeviceProof(lib, o, mso).value.1,
                           PayloadFor(lib, o.docType, SignedNameSpaces(lib, o).value, s)).Ok?
    ensures DeviceProof(lib, o, mso).value.0.payload.None?
    ensures PublicKeyOf(lib, mso.deviceKey) == Ok(DeviceProof(lib, o, mso).value.1)
    ensures s.requiresEncryption ==> s.thumbprint.Some?
  {
  }

  ghost predicate HandoversDistinct(lib: Library, s: Session, t: Session) {
    var x, y := lib.write(HandoverInfo(s)), lib.write(HandoverInfo(t));
    lib.hash(Sha256, x) == lib.hash(Sha256, y) ==> x == y
  }

  lemma {:induction false} PayloadDeterminesHandover(
    lib: Library, docType: string, nameSpaces: Bytes, s: Session, t: Session)
    requires SessionReads(lib, docType, nameSpaces, s) && SessionReads(lib, docType, nameSpaces, t)
    requires HandoversDistinct(lib, s, t)
    requires PayloadFor(lib, docType, nameSpaces, s) == PayloadFor(lib, docType, nameSpaces, t)
    ensures HandoverInfo(s) == HandoverInfo(t)
  {
  }

  lemma HandoverDeterminesSession(s: Session, t: Session)
    requires HandoverInfo(s) == HandoverInfo(t)
    requires (s.requiresEncryption ==> s.thumbprint.Some?) && (t.requiresEncryption ==> t.thumbprint.Some?)
    ensures s.clientId == t.clientId && s.nonce == t.nonce && s.responseUri == t.responseUri
    ensures s.requiresEncryption == t.requiresEncryption
    ensures s.requiresEncryption ==> s.thumbprint == t.thumbprint
  {
  }

  /** The signature is good for one of the two payloads at most. */
  ghost predicate SignsOnePayload(lib: Library, cose: CoseSign1, key: PublicKey, x: Bytes, y: Bytes) {
    CheckSignature(lib, cose, key, x).Ok? && CheckSignature(lib, cose, key, y).Ok? ==> x == y
  }

  /** What telling two sessions apart by this document's device signature relies on: read-back of what the
      sessions make the verifier encode, no hash collision between the two handovers, and a signature
      that is not good for both payloads. */
  ghost predicate Separable(lib: Library, o: Opened, s: Session, t: Session) {
    && IssuerObject(lib, o.issuerSigned).Ok? && SignedNameSpaces(lib, o).Ok?
    && var mso, nameSpaces := IssuerObject(lib, o.issuerSigned).value.0, SignedNameSpaces(lib, o).value;
       && SessionReads(lib, o.docType, nameSpaces, s) && SessionReads(lib, o.docType, nameSpaces, t)
       && HandoversDistinct(lib, s, t) && DeviceProof(lib, o, mso).Ok?
       && var (cose, key) := DeviceProof(lib, o, mso).value;
          SignsOnePayload(lib, cose, key, PayloadFor(lib, o.docType, nameSpaces, s),
                          PayloadFor(lib, o.docType, nameSpaces, t))
  }

  /** If one presentation is accepted for two sessions, the sessions have the same client, nonce, response
      URI, encryption mode and response key. */
  lemma {:induction false} AcceptedForOneSessionOnly(
    lib: Library, encoded: string, s: Session, t: Session, now: int, later: int)
    requires VerifyPresentation(lib, encoded, s, now).Ok? && VerifyPresentation(lib, encoded, t, later).Ok?
    requires Open(lib, encoded).Ok? && Separable(lib, Open(lib, encoded).value, s, t)
    ensures s.clientId == t.clientId && s.nonce == t.nonce && s.responseUri == t.responseUri
    ensures s.requiresEncryption == t.requiresEncryption
    ensures s.requiresEncryption ==> s.thumbprint == t.thumbprint
  {
    var o := Open(lib, encoded).value;
    var mso := IssuerObject(lib, o.issuerSigned).value.0;
    AcceptedMeansAllChecked(lib, encoded, s, now);
    AcceptedMeansAllChecked(lib, encoded, t, later);
    SignedForOneSessionOnly(lib, o, mso, s, t);
  }

  lemma {:induction false} SignedForOneSessionOnly(lib: Library, o: Opened, mso: Mso, s: Session, t: Session)
    requires IssuerObject(lib, o.issuerSigned).Ok? && IssuerObject(lib, o.issuerSigned).value.0 == mso
    requires CheckDevice(lib, o.document, o.docType, mso, s).Ok? && CheckDevice(lib, o.document, o.docType, mso, t).Ok?
    requires Separable(lib, o, s, t)
    ensures s.clientId == t.clientId && s.nonce == t.nonce && s.responseUri == t.responseUri
    ensures s.requiresEncryption == t.requiresEncryption
    ensures s.requiresEncryption ==> s.thumbprint == t.thumbprint
  {
    DeviceSignedThisSession(lib, o, mso, s);
    DeviceSignedThisSession(lib, o, mso, t);
    PayloadDeterminesHandover(lib, o.docType, SignedNameSpaces(lib, o).value, s, t);
    HandoverDeterminesSession(s, t);
  }
}
