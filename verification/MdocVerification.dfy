/** End-to-end verification of an mDoc presentation (ISO/IEC 18013-5, sections 9.1.2.4 and 9.1.3.4). */
module MdocVerification {
  import opened Prelude
  import opened Cbor
  import opened Json
  import opened MdocLibrary
  import Decoder = MdocDecoder

  // ---------------------------------------------------------------- COSE

  datatype CoseSign1 = CoseSign1(
    protectedBytes: Bytes, protected: Entries, unprotected: Entries, payload: Option<Bytes>, signature: Bytes)

  /** A protected header is empty, or the bytes of a map. */
  function ProtectedHeader(lib: Library, b: Bytes): Result<Entries, string> {
    if b == [] then Ok([])
    else
      var v :- OrElse(lib.readWhole(b), "protected header is not CBOR");
      OrElse(AsMap(v), "protected header is not a map")
  }

  function CoseFields(lib: Library, v: Value): Result<CoseSign1, string> {
    if v.Array? && |v.items| == 4 && v.items[0].Bytes? && v.items[1].Map? &&
       (v.items[2].Bytes? || v.items[2].Null?) && v.items[3].Bytes?
    then
      var protected :- ProtectedHeader(lib, v.items[0].b);
      if lib.headerParses(protected) && lib.headerParses(v.items[1].entries) then
        Ok(CoseSign1(v.items[0].b, protected, v.items[1].entries,
                     if v.items[2].Bytes? then Some(v.items[2].b) else None, v.items[3].b))
      else Err("COSE header rejected")
    else Err("not a COSE_Sign1")
  }

  /** `parse_cose_sign1_from_value`: drop tag 18, serialise, parse. */
  function ParseCose(lib: Library, v: Value): Result<CoseSign1, string> {
    var untagged := match v case Tag(18, inner) => inner case other => other;
    var parsed :- OrElse(lib.readWhole(lib.write(untagged)), "COSE_Sign1 parse failed");
    CoseFields(lib, parsed)
  }

  const X5CHAIN := 33
  const ALG := 1

  function CertificateBytes(items: seq<Value>): Result<seq<Bytes>, string> {
    if items == [] then Ok([])
    else if !items[0].Bytes? then Err("x5chain array contains a non-byte-string certificate")
    else
      var rest :- CertificateBytes(items[1..]);
      Ok([items[0].b] + rest)
  }

  /** `extract_x5chain_from_cose`: the protected header is searched first. */
  function X5Chain(cose: CoseSign1): Result<seq<Bytes>, string> {
    var inProtected := GetLabel(cose.protected, X5CHAIN);
    var found :- OrElse(
      if inProtected.Some? then inProtected else GetLabel(cose.unprotected, X5CHAIN), "missing x5chain");
    match found
    case Bytes(b) => Ok([b])
    case Array(items) => CertificateBytes(items)
    case _ => Err("x5chain is neither a byte string nor an array")
  }

  function AlgorithmOf(cose: CoseSign1): Result<int, string> {
    var inProtected := GetLabel(cose.protected, ALG);
    var alg :- OrElse(if inProtected.Some? then inProtected else GetLabel(cose.unprotected, ALG), "missing alg");
    if alg.Integer? then Ok(alg.i) else Err("textual COSE alg is not supported")
  }

  /** `Sig_structure` of a COSE_Sign1 (section 4.4 of RFC 8152). */
  function SigStructure(protectedBytes: Bytes, externalAad: Bytes, payload: Bytes): Value {
    Array([Text("Signature1"), Bytes(protectedBytes), Bytes(externalAad), Bytes(payload)])
  }

  /** Half the length of a raw ECDSA signature. */
  function EcdsaPart(alg: int): Option<nat> {
    if alg == -7 then Some(32) else if alg == -35 then Some(48) else if alg == -36 then Some(66) else None
  }

  /** `verify_cose_sign1_*`: the signature covers the payload under the headers as received. */
  function CheckSignature(lib: Library, cose: CoseSign1, key: PublicKey, payload: Bytes): Result<(), string> {
    var alg :- AlgorithmOf(cose);
    var data := lib.write(SigStructure(cose.protectedBytes, [], payload));
    if EcdsaPart(alg).Some? then
      if |cose.signature| != 2 * EcdsaPart(alg).value then Err("invalid ECDSA signature length")
      else if lib.ecdsa(key, alg, data, cose.signature) then Ok(())
      else Err("COSE ECDSA signature verification failed")
    else if alg == -257 || alg == -258 || alg == -259 then
      if lib.rsa(key, alg, data, cose.signature) then Ok(()) else Err("COSE RSA signature verification failed")
    else Err("unsupported COSE signature algorithm")
  }

  // ---------------------------------------------------------------- MobileSecurityObject

  type Digests = map<nat, Bytes>

  datatype Mso = Mso(
    docType: string, digestAlgorithm: string, valueDigests: map<string, Digests>, deviceKey: Entries,
    validFrom: Option<string>, validUntil: Option<string>)

  /** The digests of one namespace; any malformed entry fails the whole parse. */
  function DigestsOf(entries: Entries): Result<Digests, string> {
    if entries == [] then Ok(map[])
    else
      var n := |entries| - 1;
      var before :- DigestsOf(entries[..n]);
      var id :- OrElse(AsU64(entries[n].0), "digestID is not an integer");
      var digest := Untag(entries[n].1);
      if digest.Bytes? then Ok(before[id := digest.b]) else Err("digest value is not a byte string")
  }

  /** All namespaces of `valueDigests`; entries whose key is not text are skipped. */
  function ValueDigests(entries: Entries): Result<map<string, Digests>, string> {
    if entries == [] then Ok(map[])
    else
      var n := |entries| - 1;
      var before :- ValueDigests(entries[..n]);
      if !entries[n].0.Text? then Ok(before)
      else
        var inner :- OrElse(AsMap(Untag(entries[n].1)), "valueDigests namespace entry is not a map");
        var digests :- DigestsOf(inner);
        Ok(before[entries[n].0.t := digests])
  }

  method ParseDigests(entries: Entries) returns (r: Result<Digests, string>)
    ensures r == DigestsOf(entries)
  {
    var digests: Digests := map[];
    for k := 0 to |entries|
      invariant DigestsOf(entries[..k]) == Ok(digests)
    {
      assert entries[..k + 1][..k] == entries[..k];
      PrefixDecides(entries, k + 1);
      var id :- OrElse(AsU64(entries[k].0), "digestID is not an integer");
      var digest := Untag(entries[k].1);
      if !digest.Bytes? {
        return Err("digest value is not a byte string");
      }
      digests := digests[id := digest.b];
    }
    assert entries[..|entries|] == entries;
    return Ok(digests);
  }

  /** An early return is final: an error in a prefix is the error of the whole. */
  lemma {:induction false} PrefixDecides(entries: Entries, k: nat)
    requires k <= |entries|
    ensures DigestsOf(entries[..k]).Err? ==> DigestsOf(entries) == DigestsOf(entries[..k])
  {
    if k < |entries| {
      var n := |entries| - 1;
      PrefixDecides(entries[..n], k);
      assert entries[..n][..k] == entries[..k];
    } else {
      assert entries[..k] == entries;
    }
  }

  method ParseValueDigests(entries: Entries) returns (r: Result<map<string, Digests>, string>)
    ensures r == ValueDigests(entries)
  {
    var parsed: map<string, Digests> := map[];
    for k := 0 to |entries|
      invariant ValueDigests(entries[..k]) == Ok(parsed)
    {
      assert entries[..k + 1][..k] == entries[..k];
      NamespacePrefixDecides(entries, k + 1);
      if entries[k].0.Text? {
        var inner :- OrElse(AsMap(Untag(entries[k].1)), "valueDigests namespace entry is not a map");
        var digests :- ParseDigests(inner);
        parsed := parsed[entries[k].0.t := digests];
      }
    }
    assert entries[..|entries|] == entries;
    return Ok(parsed);
  }

  lemma {:induction false} NamespacePrefixDecides(entries: Entries, k: nat)
    requires k <= |entries|
    ensures ValueDigests(entries[..k]).Err? ==> ValueDigests(entries) == ValueDigests(entries[..k])
  {
    if k < |entries| {
      var n := |entries| - 1;
      NamespacePrefixDecides(entries[..n], k);
      assert entries[..n][..k] == entries[..k];
    } else {
      assert entries[..k] == entries;
    }
  }

  /** Entry `k` is the last that gives a digest for `id`. */
  predicate GivesLast(entries: Entries, k: nat, id: nat) {
    && k < |entries| && Untag(entries[k].0) == Integer(id) && id <= 0xFFFF_FFFF_FFFF_FFFF
    && forall j :: k < j < |entries| ==> Untag(entries[j].0) != Integer(id)
  }

  /** A parsed table has exactly the digests of the entries, the last one of an id deciding. */
  lemma {:induction false} DigestsAreGiven(entries: Entries)
    requires DigestsOf(entries).Ok?
    ensures var digests := DigestsOf(entries).value;
            && (forall id :: id in digests ==> exists k: nat :: GivesLast(entries, k, id))
            && forall k: nat, id :: GivesLast(entries, k, id) ==>
                 id in digests && Untag(entries[k].1) == Bytes(digests[id])
  {
    if entries != [] {
      var n := |entries| - 1;
      var before, digests, last := entries[..n], DigestsOf(entries).value, AsU64(entries[n].0).value;
      DigestsAreGiven(before);
      assert forall j :: 0 <= j < n ==> before[j] == entries[j];
      assert GivesLast(entries, n, last);
      forall id | id in digests ensures exists k: nat :: GivesLast(entries, k, id) {
        if id != last {
          var k: nat :| GivesLast(before, k, id);
          assert GivesLast(entries, k, id);
        }
      }
      forall k: nat, id | GivesLast(entries, k, id) ensures id in digests && Untag(entries[k].1) == Bytes(digests[id]) {
        if k < n { assert GivesLast(before, k, id); }
      }
    }
  }

  /** Entry `k` is the last for the namespace. */
  predicate ListsLast(entries: Entries, k: nat, ns: string) {
    k < |entries| && entries[k].0 == Text(ns) && forall j :: k < j < |entries| ==> entries[j].0 != Text(ns)
  }

  /** However many namespaces there are, each keeps the digests of its own last entry. */
  lemma {:induction false} NamespacesAreListed(entries: Entries)
    requires ValueDigests(entries).Ok?
    ensures var listed := ValueDigests(entries).value;
            && (forall ns :: ns in listed ==> exists k: nat :: ListsLast(entries, k, ns))
            && forall k: nat, ns :: ListsLast(entries, k, ns) ==>
                 ns in listed && Untag(entries[k].1).Map? && DigestsOf(Untag(entries[k].1).entries) == Ok(listed[ns])
  {
    if entries != [] {
      var n := |entries| - 1;
      var before, listed := entries[..n], ValueDigests(entries).value;
      NamespacesAreListed(before);
      assert forall j :: 0 <= j < n ==> before[j] == entries[j];
      assert entries[n].0.Text? ==> ListsLast(entries, n, entries[n].0.t);
      forall ns | ns in listed ensures exists k: nat :: ListsLast(entries, k, ns) {
        if entries[n].0 != Text(ns) {
          var k: nat :| ListsLast(before, k, ns);
          assert ListsLast(entries, k, ns);
        }
      }
      forall k: nat, ns | ListsLast(entries, k, ns)
        ensures ns in listed && Untag(entries[k].1).Map? && DigestsOf(Untag(entries[k].1).entries) == Ok(listed[ns])
      {
        if k < n { assert ListsLast(before, k, ns); }
      }
    }
  }

  /** The object may be plain, in a byte string, or in a tagged byte string. */
  function MsoValue(lib: Library, payload: Bytes): Result<Value, string> {
    var v :- OrElse(lib.read(payload), "failed to parse issuerAuth payload");
    match v
    case Tag(24, inner) =>
      (match inner
       case Bytes(b) => OrElse(lib.read(b), "failed to parse MobileSecurityObject bytes")
       case other => Ok(other))
    case Bytes(b) => OrElse(lib.read(b), "failed to parse MobileSecurityObject bytes")
    case other => Ok(other)
  }

  function MapField(entries: Entries, key: string): Result<Entries, string> {
    var v :- OrElse(Get(entries, key), "missing " + key);
    OrElse(AsMap(Untag(v)), key + " is not a map")
  }

  function TextField(entries: Entries, key: string): Option<string> {
    match Get(entries, key)
    case Some(v) => AsText(v)
    case None => None
  }

  /** `CoseKey::from_slice` of the serialised key value. */
  function ParseCoseKey(lib: Library, v: Value): Result<Entries, string> {
    var parsed :- OrElse(lib.readWhole(lib.write(v)), "failed to parse deviceKey");
    var entries :- OrElse(AsMap(parsed), "deviceKey is not a map");
    if lib.keyParses(entries) then Ok(entries) else Err("failed to parse deviceKey COSE_Key")
  }

  /** `parse_mobile_security_object`. */
  function ParsedMso(lib: Library, payload: Bytes): Result<Mso, string> {
    var value :- MsoValue(lib, payload);
    var entries :- OrElse(AsMap(Untag(value)), "MobileSecurityObject is not a map");
    var docType :- OrElse(GetText(entries, "docType"), "missing docType");
    var digestAlgorithm :- OrElse(GetText(entries, "digestAlgorithm"), "missing digestAlgorithm");
    var digestEntries :- MapField(entries, "valueDigests");
    var valueDigests :- ValueDigests(digestEntries);
    var keyInfo :- MapField(entries, "deviceKeyInfo");
    var keyValue :- OrElse(Get(keyInfo, "deviceKey"), "deviceKeyInfo missing deviceKey");
    var deviceKey :- ParseCoseKey(lib, keyValue);
    var validity :- MapField(entries, "validityInfo");
    Ok(Mso(docType, digestAlgorithm, valueDigests, deviceKey,
           TextField(validity, "validFrom"), TextField(validity, "validUntil")))
  }

  function Lower(c: char): char {
    if 'A' <= c <= 'Z' then (c as int + 32) as char else c
  }

  function LowerCase(s: string): string {
    seq(|s|, i requires 0 <= i < |s| => Lower(s[i]))
  }

  function AlgorithmNamed(name: string): Option<HashAlgorithm> {
    var n := LowerCase(name);
    if n == "sha-256" || n == "sha256" then Some(Sha256)
    else if n == "sha-384" || n == "sha384" then Some(Sha384)
    else if n == "sha-512" || n == "sha512" then Some(Sha512)
    else None
  }

  /** The six names, and no others, in any mix of cases. */
  lemma AlgorithmsNamed(name: string)
    ensures AlgorithmNamed("SHA-256") == AlgorithmNamed("sha256") == AlgorithmNamed("Sha256") == Some(Sha256)
    ensures AlgorithmNamed("SHA-384") == AlgorithmNamed("sha384") == AlgorithmNamed("Sha384") == Some(Sha384)
    ensures AlgorithmNamed("SHA-512") == AlgorithmNamed("sha512") == AlgorithmNamed("Sha512") == Some(Sha512)
    ensures AlgorithmNamed(name).Some? ==> |name| in {6, 7}
  {
    assert LowerCase("SHA-256") == "sha-256" && LowerCase("sha256") == LowerCase("Sha256") == "sha256";
    assert LowerCase("SHA-384") == "sha-384" && LowerCase("sha384") == LowerCase("Sha384") == "sha384";
    assert LowerCase("SHA-512") == "sha-512" && LowerCase("sha512") == LowerCase("Sha512") == "sha512";
  }

  // ---------------------------------------------------------------- issuer-signed items

  /** The bytes inside an IssuerSignedItem. */
  function ItemBytes(item: Value): Option<Bytes> {
    match item
    case Tag(24, inner) => if inner.Bytes? then Some(inner.b) else None
    case Bytes(b) => Some(b)
    case _ => None
  }

  /** The digestID an item states about itself. */
  function ItemDigestId(lib: Library, item: Value): Option<nat> {
    if ItemBytes(item).None? || lib.read(ItemBytes(item).value).None? then None
    else
      var inner := Untag(lib.read(ItemBytes(item).value).value);
      if !inner.Map? || Get(inner.entries, "digestID").None? then None
      else AsU64(Get(inner.entries, "digestID").value)
  }

  /** The re-encoded item hashes to the digest stored under the item's own digestID. */
  predicate ItemVouched(lib: Library, algorithm: string, expected: Digests, item: Value) {
    var id := ItemDigestId(lib, item);
    var hash := AlgorithmNamed(algorithm);
    id.Some? && id.value in expected && hash.Some? && lib.hash(hash.value, lib.write(item)) == expected[id.value]
  }

  /** What the digest check must establish: every namespace entry with a text key has digests, is an
      array, and each of its items is vouched for. */
  predicate DigestsHold(lib: Library, nameSpaces: Entries, mso: Mso) {
    forall k :: 0 <= k < |nameSpaces| ==> EntryHolds(lib, nameSpaces[k], mso)
  }

  predicate EntryHolds(lib: Library, entry: (Value, Value), mso: Mso) {
    entry.0.Text? ==>
      && entry.0.t in mso.valueDigests
      && Untag(entry.1).Array?
      && forall item | item in Untag(entry.1).items ::
           ItemVouched(lib, mso.digestAlgorithm, mso.valueDigests[entry.0.t], item)
  }

  /** `verify_issuer_signed_item_digests`: nested loops with early returns. */
  method VerifyItemDigests(lib: Library, nameSpaces: Entries, mso: Mso) returns (ok: bool)
    ensures ok <==> DigestsHold(lib, nameSpaces, mso)
  {
    for k := 0 to |nameSpaces|
      invariant forall i :: 0 <= i < k ==> EntryHolds(lib, nameSpaces[i], mso)
    {
      var (key, value) := nameSpaces[k];
      if !key.Text? { continue; }
      if key.t !in mso.valueDigests || !Untag(value).Array? {
        assert !EntryHolds(lib, nameSpaces[k], mso);
        return false;
      }
      var expected, items := mso.valueDigests[key.t], Untag(value).items;
      for j := 0 to |items|
        invariant forall i :: 0 <= i < j ==> ItemVouched(lib, mso.digestAlgorithm, expected, items[i])
      {
        var bytes := ItemBytes(items[j]);
        var vouched := false;
        if bytes.Some? {
          var encoded := lib.write(items[j]);
          var inner := lib.read(bytes.value);
          if inner.Some? && Untag(inner.value).Map? {
            var stated := Get(Untag(inner.value).entries, "digestID");
            if stated.Some? && AsU64(stated.value).Some? && AsU64(stated.value).value in expected {
              var hash := AlgorithmNamed(mso.digestAlgorithm);
              vouched := hash.Some? && lib.hash(hash.value, encoded) == expected[AsU64(stated.value).value];
            }
          }
        }
        assert vouched == ItemVouched(lib, mso.digestAlgorithm, expected, items[j]);
        if !vouched {
          assert items[j] in items && !EntryHolds(lib, nameSpaces[k], mso);
          return false;
        }
      }
    }
    return true;
  }

  // ---------------------------------------------------------------- device authentication

  datatype Session = Session(
    clientId: string, nonce: string, responseUri: string, requiresEncryption: bool, thumbprint: Option<Bytes>)

  function HandoverInfo(s: Session): Value {
    Array([Text(s.clientId), Text(s.nonce),
           if s.requiresEncryption && s.thumbprint.Some? then Bytes(s.thumbprint.value) else Null,
           Text(s.responseUri)])
  }

  function TranscriptOf(handoverHash: Bytes): Value {
    Array([Null, Null, Array([Text("OpenID4VPHandover"), Bytes(handoverHash)])])
  }

  /** The transcript value of a session. */
  function Transcript(lib: Library, s: Session): Value {
    TranscriptOf(lib.hash(Sha256, lib.write(HandoverInfo(s))))
  }

  /** `build_openid4vp_session_transcript`. */
  function SessionTranscript(lib: Library, s: Session): Result<Bytes, string> {
    if s.requiresEncryption && s.thumbprint.None? then Err("thumbprint is required for encrypted responses")
    else Ok(lib.write(Transcript(lib, s)))
  }

  function DeviceAuthentication(transcript: Value, docType: string, deviceNameSpaces: Bytes): Value {
    Array([Text("DeviceAuthentication"), transcript, Text(docType), Tag(24, Bytes(deviceNameSpaces))])
  }

  /** `build_device_authentication_payload` wrapped as DeviceAuthenticationBytes. */
  function DeviceAuthenticationBytes(lib: Library, transcript: Bytes, docType: string, deviceNameSpaces: Bytes)
    : Result<Bytes, string>
  {
    var t :- OrElse(lib.read(transcript), "failed to parse SessionTranscript bytes");
    Ok(lib.write(Tag(24, Bytes(lib.write(DeviceAuthentication(t, docType, deviceNameSpaces))))))
  }

  /** `extract_device_namespaces_bytes`. */
  function DeviceNameSpaces(lib: Library, deviceSigned: Entries): Result<Bytes, string> {
    match Get(deviceSigned, "nameSpaces")
    case None => Ok(lib.write(Map([])))
    case Some(v) =>
      match v
      case Bytes(b) => Ok(b)
      case Tag(24, inner) => if inner.Bytes? then Ok(inner.b) else Err("tag 24 does not contain bytes")
      case other => Ok(lib.write(other))
  }

  /** `cose_key_to_public_key`: elliptic-curve keys on the three supported curves. */
  function PublicKeyOf(lib: Library, key: Entries): Result<PublicKey, string> {
    if GetLabel(key, 1) != Some(Integer(2)) then Err("only EC2 COSE device keys are supported")
    else
      match (GetLabel(key, -1), GetLabel(key, -2), GetLabel(key, -3))
      case (Some(Integer(curve)), Some(Bytes(x)), Some(Bytes(y))) =>
        if 1 <= curve <= 3 then OrElse(lib.point(curve, x, y), "failed to reconstruct EC public key")
        else Err("unsupported COSE EC curve")
      case _ => Err("COSE device key incomplete")
  }

  /** The holder signed exactly this session, document type and device namespaces. */
  function CheckDevice(lib: Library, document: Entries, docType: string, mso: Mso, s: Session): Result<(), string> {
    var deviceSigned :- MapField(document, "deviceSigned");
    var deviceNameSpaces :- DeviceNameSpaces(lib, deviceSigned);
    var deviceAuth :- MapField(deviceSigned, "deviceAuth");
    var signatureValue :- OrElse(Get(deviceAuth, "deviceSignature"), "expected deviceSignature");
    var cose :- ParseCose(lib, signatureValue);
    var transcript :- SessionTranscript(lib, s);
    var payload :- DeviceAuthenticationBytes(lib, transcript, docType, deviceNameSpaces);
    var key :- PublicKeyOf(lib, mso.deviceKey);
    if cose.payload.Some? then Err("detached signature carries a payload")
    else CheckSignature(lib, cose, key, payload)
  }

  // ---------------------------------------------------------------- the whole check

  datatype Verified = Verified(
    claims: Json, docType: string, namespace: string, notExpired: bool, issuerTrusted: bool)

  /** `extract_first_document`. */
  function FirstDocument(v: Value): Result<Value, string> {
    var top := Untag(v);
    var entries :- OrElse(AsMap(top), "top-level value is not a map");
    if Get(entries, "documents").Some? then
      var documents :- OrElse(AsArray(Untag(Get(entries, "documents").value)), "documents is not an array");
      if documents == [] then Err("documents is empty") else Ok(documents[0])
    else Ok(top)
  }

  /** The issuer's certificate chain, its signature over the payload, and the object it signed. */
  function IssuerObject(lib: Library, issuerSigned: Entries): Result<(Mso, bool), string> {
    var value :- OrElse(Get(issuerSigned, "issuerAuth"), "missing issuerAuth");
    var cose :- ParseCose(lib, value);
    var chain :- X5Chain(cose);
    var issuer :- OrElse(if chain == [] then None else lib.chain(chain), "issuer certificate chain unusable");
    var _ :- CheckSignature(lib, cose, issuer.0, if cose.payload.Some? then cose.payload.value else []);
    var payload :- OrElse(cose.payload, "issuerAuth missing payload");
    var mso :- ParsedMso(lib, payload);
    Ok((mso, issuer.1))
  }

  /** `validate_mso_validity`. */
  function CheckValidity(lib: Library, mso: Mso, now: int): Result<bool, string> {
    if mso.validFrom.Some? && lib.rfc3339(mso.validFrom.value).None? then Err("failed to parse validFrom")
    else if mso.validFrom.Some? && lib.rfc3339(mso.validFrom.value).value > now then Err("not yet valid")
    else if mso.validUntil.Some? && lib.rfc3339(mso.validUntil.value).None? then Err("failed to parse validUntil")
    else if mso.validUntil.Some? && lib.rfc3339(mso.validUntil.value).value < now then Err("expired")
    else Ok(true)
  }

  /** One namespace is returned flat, several are nested by name. */
  ghost function ClaimsJson(namespaces: Decoder.Namespaces): Json
    requires namespaces != map[]
  {
    if |namespaces| == 1 then JObject(namespaces[Least(namespaces.Keys)])
    else JObject(map ns | ns in namespaces :: JObject(namespaces[ns]))
  }

  /** The parts of the first document the checks work on. */
  datatype Opened = Opened(document: Entries, docType: string, issuerSigned: Entries, nameSpaces: Entries)

  function Open(lib: Library, encoded: string): Result<Opened, string> {
    var bytes :- OrElse(FromBase64(lib, encoded), "base64 decode failed");
    var cbor :- OrElse(lib.read(bytes), "CBOR parse failed");
    var first :- FirstDocument(cbor);
    var document :- OrElse(AsMap(first), "document is not a map");
    var docType :- OrElse(GetText(document, "docType"), "document missing docType");
    var issuerSigned :- Decoder.IssuerSigned(document);
    var nameSpaces :- Decoder.NameSpaces(issuerSigned);
    Ok(Opened(document, docType, issuerSigned, nameSpaces))
  }

  /** `verify_mdoc_presentation`. */
  ghost function VerifyPresentation(lib: Library, encoded: string, s: Session, now: int): Result<Verified, string> {
    var decoded :- Decoder.DecodePresentation(lib, encoded);
    var o :- Open(lib, encoded);
    var issuer :- IssuerObject(lib, o.issuerSigned);
    var mso := issuer.0;
    if mso.docType != o.docType then Err("docType does not match")
    else if !DigestsHold(lib, o.nameSpaces, mso) then Err("digest check failed")
    else
      var _ :- CheckDevice(lib, o.document, o.docType, mso, s);
      if decoded.namespaces == map[] then Err("no namespaces")
      else
        var notExpired :- CheckValidity(lib, mso, now);
        Ok(Verified(ClaimsJson(decoded.namespaces), o.docType, Least(decoded.namespaces.Keys), notExpired, issuer.1))
  }
}
