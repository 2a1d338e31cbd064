/** The round trip over the concrete CBOR codec, with assumptions on the inputs of an issuance alone. */
module MdocConcrete {
  import opened Prelude
  import opened Cbor
  import opened Json
  import opened MdocLibrary
  import opened MdocVerification
  import opened MdocIssuing
  import opened MdocSoundness
  import opened MdocRoundTrip
  import CborCodec

  // ---------------------------------------------------------------- how long encodings get

  /** A bound on the length of an encoding: nine bytes for each head, and the contents. */
  function Size(v: Value): nat
    decreases v, 0
  {
    match v
    case Bytes(b) => 9 + |b|
    case Text(t) => 9 + |t|
    case Array(items) => 9 + SizeOfItems(items)
    case Map(entries) => 9 + SizeOfEntries(entries)
    case Tag(_, inner) => 9 + Size(inner)
    case _ => 9
  }

  function SizeOfItems(items: seq<Value>): nat
    decreases items, 1
  {
    if items == [] then 0 else Size(items[0]) + SizeOfItems(items[1..])
  }

  function SizeOfEntries(entries: Entries): nat
    decreases entries, 1
  {
    if entries == [] then 0 else SizeOfEntry(entries[0]) + SizeOfEntries(entries[1..])
  }

  function SizeOfEntry(e: (Value, Value)): nat
    decreases e, 1
  {
    Size(e.0) + Size(e.1)
  }

  lemma {:induction false} EncodingFits(v: Value)
    requires Encodable(v)
    ensures |CborCodec.Encode(v)| <= Size(v)
    decreases v, 0
  {
    match v
    case Array(items) => ItemsFit(items);
    case Map(entries) => EntriesFit(entries);
    case Tag(_, inner) => EncodingFits(inner);
    case _ =>
  }

  lemma {:induction false} ItemsFit(items: seq<Value>)
    requires forall x | x in items :: Encodable(x)
    ensures |CborCodec.EncodeItems(items)| <= SizeOfItems(items)
    decreases items, 1
  {
    if items != [] {
      EncodingFits(items[0]);
      ItemsFit(items[1..]);
    }
  }

  lemma {:induction false} EntriesFit(entries: Entries)
    requires forall e | e in entries :: Encodable(e.0) && Encodable(e.1)
    ensures |CborCodec.EncodeEntries(entries)| <= SizeOfEntries(entries)
    decreases entries, 1
  {
    if entries != [] {
      assert entries[0] in entries;
      EntryFits(entries[0]);
      EntriesFit(entries[1..]);
    }
  }

  lemma {:induction false} EntryFits(e: (Value, Value))
    requires Encodable(e.0) && Encodable(e.1)
    ensures |CborCodec.EncodeEntry(e)| <= SizeOfEntry(e)
    decreases e, 1
  {
    EncodingFits(e.0);
    EncodingFits(e.1);
  }

  // ---------------------------------------------------------------- values of bounded size

  /** Encodable, in at most `n` bytes. */
  predicate Within(v: Value, n: nat) {
    Encodable(v) && Size(v) <= n
  }

  predicate EntryWithin(e: (Value, Value), n: nat) {
    Within(e.0, n) && Within(e.1, n)
  }

  lemma OneMore(count: nat, each: nat)
    requires count > 0
    ensures (count - 1) * each + each == count * each
  {
  }

  lemma {:induction false} EntriesWithin(entries: Entries, each: nat)
    requires forall i :: 0 <= i < |entries| ==> EntryWithin(entries[i], each)
    ensures SizeOfEntries(entries) <= |entries| * (2 * each)
    decreases |entries|
  {
    if entries != [] {
      EntriesWithin(entries[1..], each);
      OneMore(|entries|, 2 * each);
      assert EntryWithin(entries[0], each);
    }
  }

  lemma {:induction false} MapWithin(entries: Entries, each: nat, total: nat)
    requires forall i :: 0 <= i < |entries| ==> EntryWithin(entries[i], each)
    requires |entries| < U64 && 9 + |entries| * (2 * each) <= total
    ensures Within(Map(entries), total)
  {
    EntriesWithin(entries, each);
    forall e | e in entries ensures Encodable(e.0) && Encodable(e.1) {
      var i :| 0 <= i < |entries| && e == entries[i];
      assert EntryWithin(entries[i], each);
    }
  }

  lemma {:induction false} ItemsWithin(items: seq<Value>, each: nat)
    requires forall i :: 0 <= i < |items| ==> Within(items[i], each)
    ensures SizeOfItems(items) <= |items| * each
    decreases |items|
  {
    if items != [] {
      ItemsWithin(items[1..], each);
      OneMore(|items|, each);
      assert Within(items[0], each);
    }
  }

  lemma {:induction false} ArrayWithin(items: seq<Value>, each: nat, total: nat)
    requires forall i :: 0 <= i < |items| ==> Within(items[i], each)
    requires |items| < U64 && 9 + |items| * each <= total
    ensures Within(Array(items), total)
  {
    ItemsWithin(items, each);
    forall x | x in items ensures Encodable(x) {
      var i :| 0 <= i < |items| && x == items[i];
      assert Within(items[i], each);
    }
  }

  lemma {:induction false} FourItems(a: Value, b: Value, c: Value, d: Value, each: nat, total: nat)
    requires Within(a, each) && Within(b, each) && Within(c, each) && Within(d, each) && 9 + 4 * each <= total
    ensures Within(Array([a, b, c, d]), total)
  {
    ArrayWithin([a, b, c, d], each, total);
  }

  lemma {:induction false} AsciiIsUtf8(b: Bytes)
    requires forall i :: 0 <= i < |b| ==> b[i] < 0x80
    ensures ValidUtf8(b)
  {
    if b != [] { AsciiIsUtf8(b[1..]); }
  }

  predicate IsName(name: string) {
    |name| <= 64 && forall i :: 0 <= i < |name| ==> name[i] as int < 128
  }

  lemma {:induction false} NameWithin(name: string, n: nat)
    requires IsName(name) && n >= 100
    ensures Within(Text(name), n)
  {
    AsciiIsUtf8(CodeUnits(name).value);
  }

  /** A map of the fields named, in their order. */
  function FieldsOf(names: seq<string>, values: seq<Value>): Entries
    requires |names| == |values|
  {
    seq(|names|, i requires 0 <= i < |names| => (Text(names[i]), values[i]))
  }

  lemma {:induction false} FieldsWithin(names: seq<string>, values: seq<Value>, each: nat, total: nat)
    requires |names| == |values| < U64 && each >= 100 && 9 + |names| * (2 * each) <= total
    requires forall i :: 0 <= i < |names| ==> IsName(names[i])
    requires forall i :: 0 <= i < |names| ==> Within(values[i], each)
    ensures Within(Map(FieldsOf(names, values)), total)
  {
    var entries := FieldsOf(names, values);
    forall i | 0 <= i < |entries| ensures EntryWithin(entries[i], each) {
      NameWithin(names[i], each);
    }
    MapWithin(entries, each, total);
  }

  // ---------------------------------------------------------------- assumptions on the inputs

  const LIMIT: nat := 0x1000_0000

  /** Valid UTF-8 of at most 256 MiB. */
  predicate TextFits(t: string) {
    IsText(t) && |t| <= LIMIT
  }

  /** The inputs of an issuance: valid texts, encodable claims, nothing longer than 256 MiB. */
  predicate InputsFit(iss: Issuance) {
    && |iss.claims| == |iss.salts| <= LIMIT
    && TextFits(iss.docType) && TextFits(iss.namespace) && TextFits(iss.validFrom) && TextFits(iss.validUntil)
    && (forall i :: 0 <= i < |iss.claims| ==>
          TextFits(iss.claims[i].0) && Within(iss.claims[i].1, LIMIT) && |iss.salts[i]| <= LIMIT)
    && |iss.issuerCert| <= LIMIT && |iss.caCert| <= LIMIT && |iss.deviceX| <= LIMIT && |iss.deviceY| <= LIMIT
    && SessionFits(BoundSession(iss))
  }

  predicate SessionFits(s: Session) {
    && TextFits(s.clientId) && TextFits(s.nonce) && TextFits(s.responseUri)
    && (s.thumbprint.Some? ==> |s.thumbprint.value| <= LIMIT)
  }

  ghost predicate HashIs32Bytes(lib: Library) {
    forall x :: |lib.hash(Sha256, x)| == 32
  }

  // ---------------------------------------------------------------- the structures of an issuance

  const LEAF: nat := 0x2000_0000
  const NODE: nat := 0x2_0000_0000
  const TREE: nat := 0x100_0000_0000
  const WOOD: nat := 0x400_0000_0000
  const WHOLE: nat := 0x4_0000_0000_0000

  lemma {:induction false} WrittenFits(lib: Library, v: Value, n: nat)
    requires Within(v, n)
    ensures |WithConcreteCodec(lib).write(v)| <= n
  {
    EncodingFits(v);
  }

  lemma {:induction false} ItemMapWithin(iss: Issuance, i: nat)
    requires InputsFit(iss) && i < |iss.claims|
    ensures Within(ItemMapOf(iss, i), NODE)
  {
    var names := ["digestID", "random", "elementIdentifier", "elementValue"];
    var values := [Integer(i), Bytes(iss.salts[i]), Text(iss.claims[i].0), iss.claims[i].1];
    FieldsWithin(names, values, LEAF, NODE);
    assert ItemMapOf(iss, i).entries == FieldsOf(names, values);
  }

  lemma {:induction false} ItemEncodable(lib: Library, iss: Issuance, i: nat)
    requires InputsFit(iss) && i < |iss.claims|
    ensures Encodable(Item(WithConcreteCodec(lib), iss, i))
  {
    ItemMapWithin(iss, i);
    WrittenFits(lib, ItemMapOf(iss, i), NODE);
  }

  lemma {:induction false} KeyWithin(iss: Issuance)
    requires InputsFit(iss)
    ensures Within(Map(CoseKeyEntries(iss)), NODE)
  {
    MapWithin(CoseKeyEntries(iss), LEAF, NODE);
  }

  lemma {:induction false} ValidityWithin(iss: Issuance)
    requires InputsFit(iss)
    ensures Within(Map(ValidityEntries(iss)), NODE)
  {
    var names := ["signed", "validFrom", "validUntil"];
    var values := [Text(iss.validFrom), Text(iss.validFrom), Text(iss.validUntil)];
    FieldsWithin(names, values, LEAF, NODE);
    assert ValidityEntries(iss) == FieldsOf(names, values);
  }

  /** A map of one named field. */
  lemma {:induction false} OneField(name: string, v: Value, each: nat, total: nat)
    requires IsName(name) && Within(v, each) && each >= 100 && 9 + 2 * each <= total
    ensures Within(Map([(Text(name), v)]), total)
  {
    FieldsWithin([name], [v], each, total);
    assert FieldsOf([name], [v]) == [(Text(name), v)];
  }

  lemma {:induction false} DigestsWithin(lib: Library, iss: Issuance)
    requires InputsFit(iss) && HashIs32Bytes(lib)
    ensures Within(Map(DigestEntries(lib, iss, |iss.claims|)), TREE)
  {
    MapWithin(DigestEntries(lib, iss, |iss.claims|), 64, TREE);
  }

  lemma {:induction false} ValueDigestsWithin(lib: Library, iss: Issuance)
    requires InputsFit(iss) && HashIs32Bytes(lib)
    ensures Within(Map([(Text(iss.namespace), Map(DigestEntries(lib, iss, |iss.claims|)))]), WOOD)
  {
    DigestsWithin(lib, iss);
    MapWithin([(Text(iss.namespace), Map(DigestEntries(lib, iss, |iss.claims|)))], TREE, WOOD);
  }

  const MSO_NAMES := ["version", "digestAlgorithm", "valueDigests", "deviceKeyInfo", "docType", "validityInfo"]

  lemma {:induction false} MsoFields(values: seq<Value>)
    requires |values| == 6
    ensures forall i :: 0 <= i < 6 ==> IsName(MSO_NAMES[i])
    ensures FieldsOf(MSO_NAMES, values) ==
            [(Text("version"), values[0]), (Text("digestAlgorithm"), values[1]),
             (Text("valueDigests"), values[2]), (Text("deviceKeyInfo"), values[3]),
             (Text("docType"), values[4]), (Text("validityInfo"), values[5])]
  {
  }

  lemma {:induction false} MsoOf(values: seq<Value>)
    requires |values| == 6 && forall i :: 0 <= i < 6 ==> Within(values[i], WOOD)
    ensures Within(Map([(Text("version"), values[0]), (Text("digestAlgorithm"), values[1]),
                        (Text("valueDigests"), values[2]), (Text("deviceKeyInfo"), values[3]),
                        (Text("docType"), values[4]), (Text("validityInfo"), values[5])]), WHOLE)
  {
    MsoFields(values);
    FieldsWithin(MSO_NAMES, values, WOOD, WHOLE);
  }

  lemma {:induction false} NamedMsoOf(digests: Value, keyInfo: Value, docType: Value, validity: Value)
    requires Within(digests, WOOD) && Within(keyInfo, WOOD) && Within(docType, WOOD) && Within(validity, WOOD)
    ensures Within(Map([(Text("version"), Text("1.0")), (Text("digestAlgorithm"), Text("SHA-256")),
                        (Text("valueDigests"), digests), (Text("deviceKeyInfo"), keyInfo),
                        (Text("docType"), docType), (Text("validityInfo"), validity)]), WHOLE)
  {
    NameWithin("1.0", WOOD);
    NameWithin("SHA-256", WOOD);
    MsoOf([Text("1.0"), Text("SHA-256"), digests, keyInfo, docType, validity]);
  }

  lemma {:induction false} MsoWithin(lib: Library, iss: Issuance)
    requires InputsFit(iss) && HashIs32Bytes(lib)
    ensures Within(Map(MsoEntries(lib, iss)), WHOLE)
  {
    ValueDigestsWithin(lib, iss);
    KeyWithin(iss);
    OneField("deviceKey", Map(CoseKeyEntries(iss)), NODE, WOOD);
    ValidityWithin(iss);
    NamedMsoOf(Map([(Text(iss.namespace), Map(DigestEntries(lib, iss, |iss.claims|)))]),
               Map([(Text("deviceKey"), Map(CoseKeyEntries(iss)))]), Text(iss.docType), Map(ValidityEntries(iss)));
  }

  // ---------------------------------------------------------------- a session

  lemma {:induction false} HandoverWithin(s: Session)
    requires SessionFits(s)
    ensures Within(HandoverInfo(s), NODE)
  {
    ArrayWithin(HandoverInfo(s).items, LEAF, NODE);
  }

  lemma {:induction false} HandoverOf(name: Value, digest: Value)
    requires Within(name, 100) && Within(digest, 100)
    ensures Within(Array([Null, Null, Array([name, digest])]), LEAF)
  {
    ArrayWithin([name, digest], 100, 300);
    ArrayWithin([Null, Null, Array([name, digest])], 300, LEAF);
  }

  lemma {:induction false} TranscriptWithin(lib: Library, s: Session)
    requires HashIs32Bytes(lib)
    ensures Within(Transcript(lib, s), LEAF)
  {
    var digest := lib.hash(Sha256, lib.write(HandoverInfo(s)));
    NameWithin("OpenID4VPHandover", 100);
    HandoverOf(Text("OpenID4VPHandover"), Bytes(digest));
  }

  lemma {:induction false} AuthenticationOf(transcript: Value, docType: Value, nameSpaces: Value)
    requires Within(transcript, LEAF) && Within(docType, LEAF) && Within(nameSpaces, LEAF)
    ensures Within(Array([Text("DeviceAuthentication"), transcript, docType, nameSpaces]), NODE)
  {
    NameWithin("DeviceAuthentication", LEAF);
    FourItems(Text("DeviceAuthentication"), transcript, docType, nameSpaces, LEAF, NODE);
  }

  lemma {:induction false} DeviceAuthenticationWithin(lib: Library, docType: string, s: Session)
    requires TextFits(docType) && HashIs32Bytes(lib)
    ensures Within(DeviceAuthenticationOf(WithConcreteCodec(lib), docType, s), NODE)
  {
    var codec := WithConcreteCodec(lib);
    TranscriptWithin(codec, s);
    WrittenFits(lib, Map([]), LIMIT);
    AuthenticationOf(Transcript(codec, s), Text(docType), Tag(24, Bytes(codec.write(Map([])))));
  }

  lemma {:induction false} PayloadWithin(lib: Library, docType: string, s: Session)
    requires TextFits(docType) && HashIs32Bytes(lib)
    ensures Within(DevicePayload(WithConcreteCodec(lib), docType, s), TREE)
  {
    DeviceAuthenticationWithin(lib, docType, s);
    WrittenFits(lib, DeviceAuthenticationOf(WithConcreteCodec(lib), docType, s), NODE);
  }

  lemma {:induction false} HeaderWithin(lib: Library)
    ensures Within(Map(ES256_HEADER), LEAF)
    ensures |ProtectedBytes(WithConcreteCodec(lib))| <= LEAF
  {
    MapWithin(ES256_HEADER, 9, LEAF);
    WrittenFits(lib, Map(ES256_HEADER), LEAF);
  }

  lemma {:induction false} SignatureInputEncodable(protectedBytes: Bytes, payload: Bytes)
    requires |protectedBytes| <= LEAF && |payload| <= TREE
    ensures Encodable(SigStructure(protectedBytes, [], payload))
  {
    NameWithin("Signature1", TREE + 9);
    FourItems(Text("Signature1"), Bytes(protectedBytes), Bytes([]), Bytes(payload), TREE + 9, WHOLE);
  }

  lemma {:induction false} SessionSurvivesConcretely(lib: Library, codec: Library, docType: string, s: Session)
    requires TextFits(docType) && SessionFits(s) && HashIs32Bytes(lib)
    requires codec == WithConcreteCodec(lib) && CodecLaws(codec)
    ensures SessionSurvives(codec, docType, s)
  {
    HandoverWithin(s);
    TranscriptWithin(codec, s);
    DeviceAuthenticationWithin(lib, docType, s);
    PayloadWithin(lib, docType, s);
    WrittenFits(lib, DevicePayload(codec, docType, s), TREE);
    HeaderWithin(lib);
    SignatureInputEncodable(ProtectedBytes(codec), codec.write(DevicePayload(codec, docType, s)));
  }

  // ---------------------------------------------------------------- the response

  lemma {:induction false} CoseArrayEncodable(
    protectedBytes: Bytes, unprotected: Entries, payload: Option<Bytes>, signature: Bytes)
    requires |protectedBytes| < U64 && Encodable(Map(unprotected)) && |signature| < U64
    requires payload.Some? ==> |payload.value| < U64
    ensures Encodable(CoseArray(protectedBytes, unprotected, payload, signature))
  {
  }

  lemma {:induction false} ChainEncodable(iss: Issuance)
    requires InputsFit(iss)
    ensures Encodable(Map(ChainHeader(iss)))
  {
    var certificates: seq<Value> := [Bytes(iss.issuerCert), Bytes(iss.caCert)];
    assert Encodable(Array(certificates));
  }

  lemma {:induction false} SignedPartsEncodable(lib: Library, iss: Issuance)
    requires InputsFit(iss) && HashIs32Bytes(lib)
    requires var codec := WithConcreteCodec(lib);
             && |iss.issuerSign(IssuerData(codec, iss))| == 64
             && |iss.deviceSign(DeviceData(codec, iss.docType, BoundSession(iss)))| == 64
    ensures Encodable(IssuerAuth(WithConcreteCodec(lib), iss))
    ensures Encodable(DeviceSignature(WithConcreteCodec(lib), iss))
  {
    var codec := WithConcreteCodec(lib);
    HeaderWithin(lib);
    MsoWithin(codec, iss);
    WrittenFits(lib, Map(MsoEntries(codec, iss)), WHOLE);
    ChainEncodable(iss);
    CoseArrayEncodable(ProtectedBytes(codec), ChainHeader(iss), Some(MsoBytes(codec, iss)),
                       iss.issuerSign(IssuerData(codec, iss)));
    CoseArrayEncodable(ProtectedBytes(codec), [], None,
                       iss.deviceSign(DeviceData(codec, iss.docType, BoundSession(iss))));
  }

  lemma {:induction false} FieldsEncodable(names: seq<string>, values: seq<Value>)
    requires |names| == |values| < U64
    requires forall i :: 0 <= i < |names| ==> IsName(names[i]) && Encodable(values[i])
    ensures Encodable(Map(FieldsOf(names, values)))
  {
    forall i | 0 <= i < |names| ensures Encodable(Text(names[i])) {
      NameWithin(names[i], 100);
    }
  }

  lemma {:induction false} NameSpacesEncodable(lib: Library, iss: Issuance)
    requires InputsFit(iss)
    ensures Encodable(Map(NameSpaceEntries(WithConcreteCodec(lib), iss)))
  {
    var items := Items(WithConcreteCodec(lib), iss, |iss.claims|);
    forall i | 0 <= i < |items| ensures Encodable(items[i]) {
      ItemEncodable(lib, iss, i);
    }
    assert Encodable(Array(items));
  }

  lemma {:induction false} IssuerSignedOf(nameSpaces: Value, issuerAuth: Value)
    requires Encodable(nameSpaces) && Encodable(issuerAuth)
    ensures Encodable(Map([(Text("nameSpaces"), nameSpaces), (Text("issuerAuth"), Tag(18, issuerAuth))]))
  {
    var names, values := ["nameSpaces", "issuerAuth"], [nameSpaces, Tag(18, issuerAuth)];
    FieldsEncodable(names, values);
    assert FieldsOf(names, values) == [(Text("nameSpaces"), nameSpaces), (Text("issuerAuth"), Tag(18, issuerAuth))];
  }

  lemma {:induction false} DeviceAuthOf(signature: Value)
    requires Encodable(signature)
    ensures Encodable(Map([(Text("deviceSignature"), Tag(18, signature))]))
  {
    FieldsEncodable(["deviceSignature"], [Tag(18, signature)]);
    assert FieldsOf(["deviceSignature"], [Tag(18, signature)]) == [(Text("deviceSignature"), Tag(18, signature))];
  }

  lemma {:induction false} DeviceSignedOf(nameSpaces: Bytes, deviceAuth: Value)
    requires |nameSpaces| < U64 && Encodable(deviceAuth)
    ensures Encodable(Map([(Text("nameSpaces"), Tag(24, Bytes(nameSpaces))), (Text("deviceAuth"), deviceAuth)]))
  {
    var names, values := ["nameSpaces", "deviceAuth"], [Tag(24, Bytes(nameSpaces)), deviceAuth];
    FieldsEncodable(names, values);
    assert FieldsOf(names, values) ==
           [(Text("nameSpaces"), Tag(24, Bytes(nameSpaces))), (Text("deviceAuth"), deviceAuth)];
  }

  lemma {:induction false} DocumentOf(docType: string, issuerSigned: Value, deviceSigned: Value)
    requires TextFits(docType) && Encodable(issuerSigned) && Encodable(deviceSigned)
    ensures Encodable(Map([(Text("docType"), Text(docType)), (Text("issuerSigned"), issuerSigned),
                           (Text("deviceSigned"), deviceSigned)]))
  {
    var names, values := ["docType", "issuerSigned", "deviceSigned"], [Text(docType), issuerSigned, deviceSigned];
    FieldsEncodable(names, values);
    assert FieldsOf(names, values) ==
           [(Text("docType"), Text(docType)), (Text("issuerSigned"), issuerSigned),
            (Text("deviceSigned"), deviceSigned)];
  }

  lemma {:induction false} DeviceSignedEncodable(lib: Library, codec: Library, iss: Issuance)
    requires codec == WithConcreteCodec(lib) && Encodable(DeviceSignature(codec, iss))
    ensures Encodable(Map(DeviceSignedEntries(codec, iss)))
  {
    WrittenFits(lib, Map([]), LEAF);
    DeviceAuthOf(DeviceSignature(codec, iss));
    DeviceSignedOf(codec.write(Map([])), Map([(Text("deviceSignature"), Tag(18, DeviceSignature(codec, iss)))]));
  }

  lemma {:induction false} ResponseEncodable(lib: Library, codec: Library, iss: Issuance)
    requires InputsFit(iss) && codec == WithConcreteCodec(lib)
    requires Encodable(IssuerAuth(codec, iss)) && Encodable(DeviceSignature(codec, iss))
    ensures Encodable(DeviceResponse(codec, iss))
  {
    NameSpacesEncodable(lib, iss);
    IssuerSignedOf(Map(NameSpaceEntries(codec, iss)), IssuerAuth(codec, iss));
    DeviceSignedEncodable(lib, codec, iss);
    DocumentOf(iss.docType, Map(IssuerSignedEntries(codec, iss)), Map(DeviceSignedEntries(codec, iss)));
    ResponseOf(Map(DocumentEntries(codec, iss)));
  }

  lemma {:induction false} ResponseOf(document: Value)
    requires Encodable(document)
    ensures Encodable(Map([(Text("documents"), Array([document])), (Text("status"), Integer(0))]))
  {
    var names, values := ["documents", "status"], [Array([document]), Integer(0)];
    FieldsEncodable(names, values);
    assert [(Text("documents"), Array([document])), (Text("status"), Integer(0))] == FieldsOf(names, values);
  }

  // ---------------------------------------------------------------- the theorem

  lemma {:induction false} AllSurviveConcretely(lib: Library, codec: Library, iss: Issuance, s: Session)
    requires InputsFit(iss) && SessionFits(s) && HashIs32Bytes(lib) && codec == WithConcreteCodec(lib)
    requires |iss.issuerSign(IssuerData(codec, iss))| == 64
    requires |iss.deviceSign(DeviceData(codec, iss.docType, BoundSession(iss)))| == 64
    ensures AllSurvive(codec, iss, s)
  {
    ConcreteCodecIsLawful(lib);
    HeaderWithin(lib);
    MsoWithin(codec, iss);
    KeyWithin(iss);
    SignedPartsEncodable(lib, iss);
    ResponseEncodable(lib, codec, iss);
    SessionSurvivesConcretely(lib, codec, iss.docType, s);
    SessionSurvivesConcretely(lib, codec, iss.docType, BoundSession(iss));
    forall i | 0 <= i < |iss.claims| ensures Survives(codec, ItemMapOf(iss, i)) {
      ItemMapWithin(iss, i);
    }
  }

  /** With the concrete codec the round trip needs nothing of the encoded structures: for texts that are
      valid, claims that can be encoded and lengths up to 256 MiB, an issued presentation is accepted
      exactly for its own session inside its window, and returns exactly the issued claims. */
  lemma {:induction false} IssuedIsAcceptedConcretely(
    lib: Library, codec: Library, iss: Issuance, s: Session, now: int,
    issuerKey: PublicKey, deviceKey: PublicKey, trusted: bool)
    requires InputsFit(iss) && SessionFits(s) && HashIs32Bytes(lib) && codec == WithConcreteCodec(lib)
    requires CoseParses(codec, iss) && HandoversDoNotCollide(codec, iss, s)
    requires SignaturesIdeal(codec, iss, s, issuerKey, deviceKey, trusted)
    requires codec.fromUrlNoPad(Presentation(codec, iss)) == Some(codec.write(DeviceResponse(codec, iss)))
    ensures var r := VerifyPresentation(codec, Presentation(codec, iss), s, now);
            && (r.Ok? <==> SameSession(iss, s) && InWindow(codec, iss, now))
            && (r.Ok? ==>
                  r.value == Verified(JObject(ClaimMap(codec, iss.claims)), iss.docType, iss.namespace, true, trusted))
  {
    AllSurviveConcretely(lib, codec, iss, s);
    IssuedIsAcceptedExactly(codec, iss, s, now, issuerKey, deviceKey, trusted);
  }
}
