/** Claim extraction from an mDoc `DeviceResponse`, without any cryptographic check. */
module MdocDecoder {
  import opened Prelude
  import opened Cbor
  import opened Json
  import opened MdocLibrary

  type Claims = map<string, Json>
  type Namespaces = map<string, Claims>

  datatype DecodedMdoc = DecodedMdoc(docType: string, namespaces: Namespaces)

  /** `extract_document`: the first document of a response, or a bare document. */
  function ExtractDocument(v: Value): Result<Value, string> {
    var top := Untag(v);
    var entries :- OrElse(AsMap(top), "expected top-level map");
    if Get(entries, "documents").Some? then
      var documents :- OrElse(AsArray(Get(entries, "documents").value), "'documents' is not an array");
      if documents == [] then Err("'documents' array is empty") else Ok(documents[0])
    else if Get(entries, "docType").Some? then Ok(top)
    else Err("neither 'documents' nor 'docType'")
  }

  /** `unwrap_tag24_bytes`: the CBOR inside a byte string, or a value that is not wrapped at all. */
  function UnwrapTag24(lib: Library, v: Value): Result<Value, string> {
    match v
    case Tag(24, inner) =>
      (match inner
       case Bytes(b) => OrElse(lib.read(b), "tag 24 inner CBOR")
       case other => Ok(other))
    case Bytes(b) => OrElse(lib.read(b), "untagged bytes CBOR")
    case other => if other.Map? then Ok(other) else Err("expected tag 24 or bytes")
  }

  /** `parse_issuer_signed_item`: element identifier and JSON value. */
  function ParseItem(lib: Library, v: Value): Result<(string, Json), string> {
    var inner :- UnwrapTag24(lib, v);
    var entries :- OrElse(AsMap(inner), "IssuerSignedItem is not a map");
    var name :- OrElse(GetText(entries, "elementIdentifier"), "missing 'elementIdentifier'");
    var value :- OrElse(Get(entries, "elementValue"), "missing 'elementValue'");
    Ok((name, ToJson(lib, value)))
  }

  /** The claims of a list of items: unreadable items are skipped, later names replace earlier ones. */
  function ItemClaims(lib: Library, items: seq<Value>): Claims {
    if items == [] then map[]
    else
      var n := |items| - 1;
      var before := ItemClaims(lib, items[..n]);
      match ParseItem(lib, items[n])
      case Ok((name, value)) => before[name := value]
      case Err(_) => before
  }

  /** The namespaces of a document: entries that are not a text key with an array are skipped. */
  function NamespaceClaims(lib: Library, entries: Entries): Namespaces {
    if entries == [] then map[]
    else
      var n := |entries| - 1;
      var before := NamespaceClaims(lib, entries[..n]);
      if entries[n].0.Text? && entries[n].1.Array? then
        before[entries[n].0.t := ItemClaims(lib, entries[n].1.items)]
      else before
  }

  function IssuerSigned(document: Entries): Result<Entries, string> {
    var v :- OrElse(Get(document, "issuerSigned"), "missing 'issuerSigned'");
    OrElse(AsMap(Untag(v)), "'issuerSigned' is not a map")
  }

  function NameSpaces(issuerSigned: Entries): Result<Entries, string> {
    var v :- OrElse(Get(issuerSigned, "nameSpaces"), "missing 'nameSpaces'");
    OrElse(AsMap(Untag(v)), "'nameSpaces' is not a map")
  }

  /** `parse_document` on values. */
  function ParsedDocument(lib: Library, document: Value): Result<DecodedMdoc, string> {
    var entries :- OrElse(AsMap(Untag(document)), "Document is not a map");
    var docType :- OrElse(GetText(entries, "docType"), "missing 'docType'");
    var issuerSigned :- IssuerSigned(entries);
    var nameSpaces :- NameSpaces(issuerSigned);
    Ok(DecodedMdoc(docType, NamespaceClaims(lib, nameSpaces)))
  }

  /** `decode_mdoc_presentation`. */
  function DecodePresentation(lib: Library, encoded: string): Result<DecodedMdoc, string> {
    var bytes :- OrElse(FromBase64(lib, encoded), "base64 decode failed");
    var cbor :- OrElse(lib.read(bytes), "CBOR parse failed");
    var document :- ExtractDocument(cbor);
    ParsedDocument(lib, document)
  }

  /** The two nested insertion loops of `parse_document`. */
  method ParseDocument(lib: Library, document: Value) returns (r: Result<DecodedMdoc, string>)
    ensures r == ParsedDocument(lib, document)
  {
    var entries :- OrElse(AsMap(Untag(document)), "Document is not a map");
    var docType :- OrElse(GetText(entries, "docType"), "missing 'docType'");
    var issuerSigned :- IssuerSigned(entries);
    var nameSpaces :- NameSpaces(issuerSigned);
    var namespaces: Namespaces := map[];
    for k := 0 to |nameSpaces|
      invariant namespaces == NamespaceClaims(lib, nameSpaces[..k])
    {
      assert nameSpaces[..k + 1][..k] == nameSpaces[..k];
      var (key, value) := nameSpaces[k];
      if key.Text? && value.Array? {
        var claims := CollectItems(lib, value.items);
        namespaces := namespaces[key.t := claims];
      }
    }
    assert nameSpaces[..|nameSpaces|] == nameSpaces;
    return Ok(DecodedMdoc(docType, namespaces));
  }

  method CollectItems(lib: Library, items: seq<Value>) returns (claims: Claims)
    ensures claims == ItemClaims(lib, items)
  {
    claims := map[];
    for j := 0 to |items|
      invariant claims == ItemClaims(lib, items[..j])
    {
      assert items[..j + 1][..j] == items[..j];
      match ParseItem(lib, items[j])
      case Ok((name, value)) => claims := claims[name := value];
      case Err(_) =>
    }
    assert items[..|items|] == items;
  }

  // ---------------------------------------------------------------- where a claim comes from

  /** Item `j` of entry `k` reads as `name = value` under namespace `ns`. */
  predicate ReadsAs(lib: Library, entries: Entries, k: nat, j: nat, ns: string, name: string, value: Json) {
    && k < |entries| && entries[k].0 == Text(ns) && entries[k].1.Array?
    && j < |entries[k].1.items| && ParseItem(lib, entries[k].1.items[j]) == Ok((name, value))
  }

  lemma {:induction false} ClaimHasItem(lib: Library, items: seq<Value>, name: string) returns (j: nat)
    requires name in ItemClaims(lib, items)
    ensures j < |items| && ParseItem(lib, items[j]) == Ok((name, ItemClaims(lib, items)[name]))
  {
    var n := |items| - 1;
    match ParseItem(lib, items[n])
    case Ok((last, value)) => if last == name { j := n; } else { j := ClaimHasItem(lib, items[..n], name); }
    case Err(_) => j := ClaimHasItem(lib, items[..n], name);
  }

  /** Item `j` is the last that reads as this name. */
  predicate ReadsLast(lib: Library, items: seq<Value>, j: nat, name: string, value: Json) {
    && j < |items| && ParseItem(lib, items[j]) == Ok((name, value))
    && forall i :: j < i < |items| && ParseItem(lib, items[i]).Ok? ==> ParseItem(lib, items[i]).value.0 != name
  }

  lemma {:induction false} LastItemDecides(lib: Library, items: seq<Value>, j: nat, name: string, value: Json)
    requires ReadsLast(lib, items, j, name, value)
    ensures name in ItemClaims(lib, items) && ItemClaims(lib, items)[name] == value
  {
    var n := |items| - 1;
    if j < n {
      assert forall i :: 0 <= i < n ==> items[..n][i] == items[i];
      LastItemDecides(lib, items[..n], j, name, value);
    }
  }

  /** Entry `k` is the last array of the namespace. */
  predicate HoldsLast(entries: Entries, k: nat, ns: string) {
    && k < |entries| && entries[k].0 == Text(ns) && entries[k].1.Array?
    && forall i :: k < i < |entries| ==> !(entries[i].0 == Text(ns) && entries[i].1.Array?)
  }

  /** However many namespaces there are, each keeps the claims of its own last array. */
  lemma {:induction false} LastEntryDecides(lib: Library, entries: Entries, k: nat, ns: string)
    requires HoldsLast(entries, k, ns)
    ensures ns in NamespaceClaims(lib, entries)
    ensures NamespaceClaims(lib, entries)[ns] == ItemClaims(lib, entries[k].1.items)
  {
    var n := |entries| - 1;
    if k < n {
      assert forall i :: 0 <= i < n ==> entries[..n][i] == entries[i];
      LastEntryDecides(lib, entries[..n], k, ns);
    }
  }

  lemma {:induction false} NamespaceHasEntry(lib: Library, entries: Entries, ns: string) returns (k: nat)
    requires ns in NamespaceClaims(lib, entries)
    ensures k < |entries| && entries[k].0 == Text(ns) && entries[k].1.Array?
    ensures NamespaceClaims(lib, entries)[ns] == ItemClaims(lib, entries[k].1.items)
  {
    var n := |entries| - 1;
    if entries[n].0 == Text(ns) && entries[n].1.Array? { k := n; }
    else { k := NamespaceHasEntry(lib, entries[..n], ns); }
  }
}
