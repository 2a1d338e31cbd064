/** What goes over the wire and under the signatures, byte by byte (RFC 8152, section 4.4; ISO/IEC 18013-5,
    section 9.1.3.4; OpenID4VP 1.0, Appendix B.2.6), and where a verifier finds what it needs. */
module MdocWire {
  import opened Prelude
  import opened Cbor
  import opened MdocLibrary
  import opened MdocVerification
  import opened MdocIssuing
  import opened MdocSoundness
  import opened MdocRoundTrip
  import opened MdocConcrete
  import opened CborCodec
  import Decoder = MdocDecoder

  // ---------------------------------------------------------------- encodings of short arrays

  lemma {:induction false} ArrayOf(items: seq<Value>)
    requires |items| < 24 && forall i :: 0 <= i < |items| ==> Encodable(items[i])
    ensures Encodable(Array(items)) && Encode(Array(items)) == [0x80 + |items|] + EncodeItems(items)
  {
    assert Head(4, |items|) == [0x80 + |items|];
  }

  lemma {:induction false} FirstOfItems(first: Value, others: seq<Value>)
    requires Encodable(first) && forall x | x in others :: Encodable(x)
    ensures EncodeItems([first] + others) == Encode(first) + EncodeItems(others)
  {
    assert ([first] + others)[1..] == others;
  }

  lemma Regroup(h: Bytes, x: Bytes, y: Bytes, z: Bytes, w: Bytes)
    ensures h + (x + (y + (z + w))) == h + x + y + z + w
  {
  }

  lemma {:induction false} TwoItems(a: Value, b: Value)
    requires Encodable(a) && Encodable(b)
    ensures EncodeItems([a, b]) == Encode(a) + Encode(b)
  {
    FirstOfItems(b, []);
    assert [b] + [] == [b] && Encode(b) + [] == Encode(b);
    FirstOfItems(a, [b]);
    assert [a] + [b] == [a, b];
  }

  lemma {:induction false} ArrayOfTwo(a: Value, b: Value)
    requires Encodable(a) && Encodable(b)
    ensures Encodable(Array([a, b])) && Encode(Array([a, b])) == [0x82] + Encode(a) + Encode(b)
  {
    TwoItems(a, b);
    ArrayOf([a, b]);
  }

  lemma {:induction false} ThreeItems(a: Value, b: Value, c: Value)
    requires Encodable(a) && Encodable(b) && Encodable(c)
    ensures EncodeItems([a, b, c]) == Encode(a) + (Encode(b) + Encode(c))
  {
    TwoItems(b, c);
    FirstOfItems(a, [b, c]);
    assert [a] + [b, c] == [a, b, c];
  }

  lemma {:induction false} ArrayOfThree(a: Value, b: Value, c: Value)
    requires Encodable(a) && Encodable(b) && Encodable(c)
    ensures Encodable(Array([a, b, c])) && Encode(Array([a, b, c])) == [0x83] + Encode(a) + Encode(b) + Encode(c)
  {
    ThreeItems(a, b, c);
    ArrayOf([a, b, c]);
    Regroup([0x83], Encode(a), Encode(b), Encode(c), []);
  }

  lemma {:induction false} ArrayOfFour(a: Value, b: Value, c: Value, d: Value)
    requires Encodable(a) && Encodable(b) && Encodable(c) && Encodable(d)
    ensures Encodable(Array([a, b, c, d]))
    ensures Encode(Array([a, b, c, d])) == [0x84] + Encode(a) + Encode(b) + Encode(c) + Encode(d)
  {
    ThreeItems(b, c, d);
    FirstOfItems(a, [b, c, d]);
    assert [a] + [b, c, d] == [a, b, c, d];
    ArrayOf([a, b, c, d]);
    Regroup([0x84], Encode(a), Encode(b), Encode(c), Encode(d));
  }

  // ---------------------------------------------------------------- fixed names

  /** The ASCII codes of a text. */
  function AsciiBytes(name: string): Bytes
    requires forall i :: 0 <= i < |name| ==> name[i] as int < 128
  {
    seq(|name|, i requires 0 <= i < |name| => name[i] as int)
  }

  /** A text of up to 23 ASCII characters is one byte for type and length, and its codes. */
  lemma {:induction false} NameBytes(name: string)
    requires IsName(name) && |name| < 24
    ensures Encodable(Text(name)) && Encode(Text(name)) == [0x60 + |name|] + AsciiBytes(name)
  {
    NameWithin(name, 100);
    assert CodeUnits(name).value == AsciiBytes(name);
    assert Head(3, |name|) == [0x60 + |name|];
  }

  // ---------------------------------------------------------------- the session

  /** The handover of OpenID4VP: client_id, nonce, the thumbprint of the response key or null, response_uri; the
      thumbprint only when the response is to be encrypted. */
  lemma {:induction false} HandoverBytes(s: Session)
    requires SessionFits(s)
    ensures Encodable(HandoverInfo(s))
    ensures Encode(HandoverInfo(s)) ==
            [0x84] + Encode(Text(s.clientId)) + Encode(Text(s.nonce)) +
            (if s.requiresEncryption && s.thumbprint.Some? then Encode(Bytes(s.thumbprint.value)) else [0xf6]) +
            Encode(Text(s.responseUri))
  {
    ArrayOfFour(Text(s.clientId), Text(s.nonce),
                if s.requiresEncryption && s.thumbprint.Some? then Bytes(s.thumbprint.value) else Null,
                Text(s.responseUri));
  }

  lemma {:induction false} DigestBytes(digest: Bytes)
    requires |digest| == 32
    ensures Encode(Bytes(digest)) == [0x58, 0x20] + digest
  {
    assert Head(2, 32) == [0x58, 0x20];
  }

  lemma JoinTranscript(name: Bytes, digest: Bytes)
    ensures [0x83] + [0xf6] + [0xf6] + ([0x82] + name + ([0x58, 0x20] + digest)) ==
            [0x83, 0xf6, 0xf6, 0x82] + name + [0x58, 0x20] + digest
  {
  }

  lemma {:induction false} TranscriptOfParts(handover: Value, name: Value, digest: Value)
    requires Encodable(name) && Encodable(digest) && handover == Array([name, digest])
    ensures Encodable(Array([Null, Null, handover]))
    ensures Encode(Array([Null, Null, handover])) ==
            [0x83] + [0xf6] + [0xf6] + ([0x82] + Encode(name) + Encode(digest))
  {
    ArrayOfTwo(name, digest);
    ArrayOfThree(Null, Null, handover);
  }

  lemma {:induction false} TranscriptOfName(name: Value, digest: Bytes)
    requires Encodable(name) && |digest| == 32
    ensures Encodable(Array([Null, Null, Array([name, Bytes(digest)])]))
    ensures Encode(Array([Null, Null, Array([name, Bytes(digest)])])) ==
            [0x83, 0xf6, 0xf6, 0x82] + Encode(name) + [0x58, 0x20] + digest
  {
    DigestBytes(digest);
    TranscriptOfParts(Array([name, Bytes(digest)]), name, Bytes(digest));
    JoinTranscript(Encode(name), digest);
  }

  /** The session transcript: no device engagement, no reader key, and the hash of the handover. */
  lemma {:induction false} TranscriptBytes(lib: Library, s: Session)
    requires HashIs32Bytes(lib)
    ensures Encodable(Transcript(lib, s))
    ensures Encode(Transcript(lib, s)) ==
            [0x83, 0xf6, 0xf6, 0x82] + ([0x71] + AsciiBytes("OpenID4VPHandover")) +
            [0x58, 0x20] + lib.hash(Sha256, lib.write(HandoverInfo(s)))
  {
    NameBytes("OpenID4VPHandover");
    TranscriptOfName(Text("OpenID4VPHandover"), lib.hash(Sha256, lib.write(HandoverInfo(s))));
  }

  // ---------------------------------------------------------------- what is signed

  /** The COSE signature structure: context, protected header, no external data, payload. */
  lemma {:induction false} SignedBytes(protectedBytes: Bytes, payload: Bytes)
    requires |protectedBytes| < U64 && |payload| < U64
    ensures Encodable(SigStructure(protectedBytes, [], payload))
    ensures Encode(SigStructure(protectedBytes, [], payload)) ==
            [0x84] + ([0x6a] + AsciiBytes("Signature1")) +
            Encode(Bytes(protectedBytes)) + [0x40] + Encode(Bytes(payload))
  {
    NameBytes("Signature1");
    FourSigned(Text("Signature1"), protectedBytes, payload);
  }

  lemma {:induction false} FourSigned(name: Value, protectedBytes: Bytes, payload: Bytes)
    requires Encodable(name) && |protectedBytes| < U64 && |payload| < U64
    ensures Encodable(Array([name, Bytes(protectedBytes), Bytes([]), Bytes(payload)]))
    ensures Encode(Array([name, Bytes(protectedBytes), Bytes([]), Bytes(payload)])) ==
            [0x84] + Encode(name) + Encode(Bytes(protectedBytes)) + [0x40] + Encode(Bytes(payload))
  {
    ArrayOfFour(name, Bytes(protectedBytes), Bytes([]), Bytes(payload));
    assert Head(2, 0) == [0x40] && Encode(Bytes([])) == [0x40] + [];
  }

  lemma {:induction false} TaggedBytes(b: Bytes)
    requires |b| < U64
    ensures Encodable(Tag(24, Bytes(b))) && Encode(Tag(24, Bytes(b))) == [0xd8, 0x18] + Encode(Bytes(b))
  {
    assert Head(6, 24) == [0xd8, 0x18];
  }

  /** DeviceAuthentication: its name, the transcript, the document type, and the namespaces as tagged bytes. */
  lemma {:induction false} AuthenticationBytes(transcript: Value, docType: string, nameSpaces: Bytes)
    requires Encodable(transcript) && IsText(docType) && |nameSpaces| < U64
    ensures Encodable(DeviceAuthentication(transcript, docType, nameSpaces))
    ensures Encode(DeviceAuthentication(transcript, docType, nameSpaces)) ==
            [0x84] + ([0x74] + AsciiBytes("DeviceAuthentication")) + Encode(transcript) + Encode(Text(docType)) +
            ([0xd8, 0x18] + Encode(Bytes(nameSpaces)))
  {
    NameBytes("DeviceAuthentication");
    TaggedBytes(nameSpaces);
    FourAuthenticated(Text("DeviceAuthentication"), transcript, Text(docType), Tag(24, Bytes(nameSpaces)));
  }

  lemma {:induction false} FourAuthenticated(name: Value, transcript: Value, docType: Value, nameSpaces: Value)
    requires Encodable(name) && Encodable(transcript) && Encodable(docType) && Encodable(nameSpaces)
    ensures Encodable(Array([name, transcript, docType, nameSpaces]))
    ensures Encode(Array([name, transcript, docType, nameSpaces])) ==
            [0x84] + Encode(name) + Encode(transcript) + Encode(docType) + Encode(nameSpaces)
  {
    ArrayOfFour(name, transcript, docType, nameSpaces);
  }

  // ---------------------------------------------------------------- where things are found

  /** The certificate chain under label 33, of the protected header if it is there and else of the other: one byte
      string is a chain of one, an array of byte strings is the chain in its order. */
  lemma {:induction false} ChainIsFound(cose: CoseSign1, v: Value, chain: seq<Bytes>)
    requires GetLabel(cose.protected, 33) == Some(v) ||
             (GetLabel(cose.protected, 33) == None && GetLabel(cose.unprotected, 33) == Some(v))
    ensures X5Chain(cose) == Ok(chain) <==>
            (|chain| == 1 && v == Bytes(chain[0])) ||
            (v.Array? && |v.items| == |chain| && forall i :: 0 <= i < |chain| ==> v.items[i] == Bytes(chain[i]))
  {
    if v.Array? {
      CertificatesInOrder(v.items, chain);
    } else if v.Bytes? && |chain| == 1 {
      assert chain == [chain[0]];
    }
  }

  lemma {:induction false} CertificatesInOrder(items: seq<Value>, chain: seq<Bytes>)
    ensures CertificateBytes(items) == Ok(chain) <==>
            |items| == |chain| && forall i :: 0 <= i < |chain| ==> items[i] == Bytes(chain[i])
  {
    if items != [] {
      if chain != [] {
        CertificatesInOrder(items[1..], chain[1..]);
        assert chain == [chain[0]] + chain[1..];
      }
      if CertificateBytes(items).Ok? {
        assert CertificateBytes(items).value != [];
        assert CertificateBytes(items).value[1..] == CertificateBytes(items[1..]).value;
      }
    }
  }

  /** The signature algorithm under label 1, of the protected header if it is there and else of the other. */
  lemma AlgorithmIsFound(cose: CoseSign1, alg: int)
    ensures AlgorithmOf(cose) == Ok(alg) <==>
            GetLabel(cose.protected, 1) == Some(Integer(alg)) ||
            (GetLabel(cose.protected, 1) == None && GetLabel(cose.unprotected, 1) == Some(Integer(alg)))
  {
  }

  /** A device key is an EC2 key on P-256, P-384 or P-521 with both coordinates. */
  lemma KeyIsFound(lib: Library, curve: int, x: Bytes, y: Bytes)
    ensures var entries := [(Integer(1), Integer(2)), (Integer(-1), Integer(curve)),
                            (Integer(-2), Bytes(x)), (Integer(-3), Bytes(y))];
            PublicKeyOf(lib, entries).Ok? <==> curve in {1, 2, 3} && lib.point(curve, x, y).Some?
    ensures var entries := [(Integer(1), Integer(2)), (Integer(-1), Integer(curve)),
                            (Integer(-2), Bytes(x)), (Integer(-3), Bytes(y))];
            PublicKeyOf(lib, entries).Ok? ==> lib.point(curve, x, y) == Some(PublicKeyOf(lib, entries).value)
  {
    var entries := [(Integer(1), Integer(2)), (Integer(-1), Integer(curve)),
                    (Integer(-2), Bytes(x)), (Integer(-3), Bytes(y))];
    GetLabelAt(entries, 1, 0);
    GetLabelAt(entries, -1, 1);
    GetLabelAt(entries, -2, 2);
    GetLabelAt(entries, -3, 3);
  }

  /** A COSE_Sign1 is an array of exactly four: protected header bytes, unprotected header, payload or null, and
      signature; the protected header is empty or the bytes of a map, and both headers parse. */
  lemma {:induction false} CoseIsFound(lib: Library, v: Value, cose: CoseSign1)
    ensures CoseFields(lib, v) == Ok(cose) <==>
            && v == Array([Bytes(cose.protectedBytes), Map(cose.unprotected),
                           if cose.payload.Some? then Bytes(cose.payload.value) else Null, Bytes(cose.signature)])
            && (if cose.protectedBytes == [] then cose.protected == []
                else lib.readWhole(cose.protectedBytes) == Some(Map(cose.protected)))
            && lib.headerParses(cose.protected) && lib.headerParses(cose.unprotected)
  {
    if v.Array? && |v.items| == 4 {
      assert v.items == [v.items[0], v.items[1], v.items[2], v.items[3]];
    }
  }

  /** The tag 18 of a signature may be left out. */
  lemma CoseTagIsOptional(lib: Library, v: Value)
    requires !v.Tag?
    ensures ParseCose(lib, Tag(18, v)) == ParseCose(lib, v)
    ensures lib.readWhole(lib.write(v)) == Some(v) ==> ParseCose(lib, v) == CoseFields(lib, v)
  {
  }

  /** The parts of a document and of the issuer's object are found under their names, whatever tags are around them. */
  lemma PartsAreFound(entries: Entries, key: string, inner: Entries, t: string)
    ensures MapField(entries, key) == Ok(inner) <==>
            Get(entries, key).Some? && Untag(Get(entries, key).value) == Map(inner)
    ensures TextField(entries, key) == Some(t) <==>
            Get(entries, key).Some? && Untag(Get(entries, key).value) == Text(t)
    ensures GetText(entries, key) == TextField(entries, key)
    ensures Decoder.IssuerSigned(entries) == Ok(inner) <==> MapField(entries, "issuerSigned") == Ok(inner)
    ensures Decoder.NameSpaces(entries) == Ok(inner) <==> MapField(entries, "nameSpaces") == Ok(inner)
  {
  }

  /** The issuer's object and each item may come as bytes or as tagged bytes, the object also as it is. */
  lemma FormsAreRead(lib: Library, v: Value, b: Bytes)
    requires lib.read(b) == Some(v) && !v.Bytes? && !(v.Tag? && v.tag == 24)
    ensures MsoValue(lib, b) == Ok(v)
    ensures forall outer :: lib.read(outer) == Some(Bytes(b)) ==> MsoValue(lib, outer) == Ok(v)
    ensures forall outer :: lib.read(outer) == Some(Tag(24, Bytes(b))) ==> MsoValue(lib, outer) == Ok(v)
    ensures ItemDigestId(lib, Bytes(b)) == ItemDigestId(lib, Tag(24, Bytes(b)))
  {
  }

  /** An item states the digestID in its map, as an integer of 64 bits. */
  lemma DigestIdIsFound(lib: Library, v: Value, b: Bytes, id: nat)
    requires lib.read(b) == Some(v)
    ensures ItemDigestId(lib, Bytes(b)) == Some(id) <==>
              Untag(v).Map? && Get(Untag(v).entries, "digestID").Some? &&
              Untag(Get(Untag(v).entries, "digestID").value) == Integer(id) && id <= 0xFFFF_FFFF_FFFF_FFFF
  {
  }

  /** A document may also stand by itself. */
  lemma {:induction false} BareDocumentIsOpened(entries: Entries)
    requires Get(entries, "documents") == None && Get(entries, "docType").Some?
    ensures FirstDocument(Map(entries)) == Decoder.ExtractDocument(Map(entries)) == Ok(Map(entries))
  {
  }

  /** Of a response with several documents both parsers open the first. */
  lemma {:induction false} FirstDocumentIsOpened(first: Value, others: seq<Value>, more: Entries)
    ensures var response := Map([(Text("documents"), Array([first] + others))] + more);
            FirstDocument(response) == Ok(first) && Decoder.ExtractDocument(response) == Ok(first)
  {
    var entries := [(Text("documents"), Array([first] + others))] + more;
    GetAt(entries, "documents", 0);
  }

  /** A presentation may come in any of three base64 alphabets; a later one is tried when the earlier ones fail. */
  lemma EachBase64IsTried(lib: Library, encoded: string, b: Bytes)
    ensures FromBase64(lib, encoded) == Some(b) <==>
            || lib.fromUrlNoPad(encoded) == Some(b)
            || (lib.fromUrlNoPad(encoded) == None && lib.fromUrlPadded(encoded) == Some(b))
            || (lib.fromUrlNoPad(encoded) == lib.fromUrlPadded(encoded) == None && lib.fromStandard(encoded) == Some(b))
  {
  }

  /** The namespaces the device signs are the same bytes whether they come as bytes, as tagged bytes or as the value
      itself; leaving them out is the empty map. */
  lemma {:induction false} NameSpacesAreOneEncoding(lib: Library, v: Value)
    requires !v.Bytes? && !(v.Tag? && v.tag == 24)
    ensures DeviceNameSpaces(lib, [(Text("nameSpaces"), Bytes(lib.write(v)))]) == Ok(lib.write(v))
    ensures DeviceNameSpaces(lib, [(Text("nameSpaces"), Tag(24, Bytes(lib.write(v))))]) == Ok(lib.write(v))
    ensures DeviceNameSpaces(lib, [(Text("nameSpaces"), v)]) == Ok(lib.write(v))
    ensures DeviceNameSpaces(lib, []) == Ok(lib.write(Map([])))
  {
  }
}
