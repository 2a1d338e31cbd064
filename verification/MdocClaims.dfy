/** What the JSON a relying party receives says about the CBOR the issuer signed. */
module MdocClaims {
  import opened Prelude
  import opened Cbor
  import opened Json
  import opened MdocLibrary
  import opened MdocVerification
  import opened MdocSoundness
  import opened MdocIssuing
  import opened MdocRoundTrip
  import Decoder = MdocDecoder

  // ---------------------------------------------------------------- values

  /** `name` is the field name of a map key: a text is its own name, an integer its decimal. */
  predicate Names(lib: Library, key: Value, name: string) {
    || key == Text(name)
    || (key.Integer? && name == Decimal(key.i))
    || (!key.Text? && !key.Integer? && name == lib.debug(key))
  }

  /** Entry `i` is the last one whose key has this name. */
  predicate NamesLast(lib: Library, entries: Entries, i: nat, name: string) {
    && i < |entries| && Names(lib, entries[i].0, name)
    && forall j :: i < j < |entries| ==> !Names(lib, entries[j].0, name)
  }

  /** `j` says what `v` is, below its tags: a boolean, null, text or 64-bit integer is itself, a wider integer its
      decimal, bytes are base64url, an array goes element by element, and an object has a field for each
      key, for which the last entry decides. */
  ghost predicate Denotes(lib: Library, v: Value, j: Json)
    decreases v
  {
    if v.Tag? then Denotes(lib, v.inner, j)
    else if v.Float? then j == lib.floatToJson(v.bits)
    else
      match j
      case JNull => v == Null
      case JBool(b) => v == Bool(b)
      case JNumber(n) => v == Integer(n) && -0x8000_0000_0000_0000 <= n <= 0xFFFF_FFFF_FFFF_FFFF
      case JString(s) =>
        || v == Text(s)
        || (v.Bytes? && s == lib.toBase64Url(v.b))
        || (v.Integer? && !(-0x8000_0000_0000_0000 <= v.i <= 0xFFFF_FFFF_FFFF_FFFF) && s == Decimal(v.i))
      case JArray(items) =>
        v.Array? && |v.items| == |items| && forall i :: 0 <= i < |items| ==> Denotes(lib, v.items[i], items[i])
      case JObject(fields) =>
        && v.Map?
        && (forall name :: name in fields ==> exists i: nat :: NamesLast(lib, v.entries, i, name))
        && forall i: nat, name :: NamesLast(lib, v.entries, i, name) ==>
             name in fields && Denotes(lib, v.entries[i].1, fields[name])
  }

  lemma {:induction false} FieldHasLast(lib: Library, entries: Entries, name: string) returns (i: nat)
    requires name in ToFields(lib, entries)
    ensures NamesLast(lib, entries, i, name)
  {
    var n := |entries| - 1;
    if Names(lib, entries[n].0, name) {
      i := n;
    } else {
      i := FieldHasLast(lib, entries[..n], name);
      assert forall j :: 0 <= j < n ==> entries[..n][j] == entries[j];
    }
  }

  /** The conversion of any value denotes it. */
  lemma {:induction false} ToJsonDenotes(lib: Library, v: Value)
    ensures Denotes(lib, v, ToJson(lib, v))
    decreases v
  {
    match v
    case Tag(_, inner) => ToJsonDenotes(lib, inner);
    case Array(items) =>
      forall i | 0 <= i < |items| ensures Denotes(lib, items[i], ToJson(lib, items[i])) {
        ToJsonDenotes(lib, items[i]);
      }
    case Map(entries) =>
      var fields := ToFields(lib, entries);
      forall name | name in fields ensures exists i: nat :: NamesLast(lib, entries, i, name) {
        var i := FieldHasLast(lib, entries, name);
      }
      forall i: nat, name | NamesLast(lib, entries, i, name)
        ensures name in fields && Denotes(lib, entries[i].1, fields[name])
      {
        LastFieldWins(lib, entries, i);
        ToJsonDenotes(lib, entries[i].1);
      }
    case _ =>
  }

  /** Values that JSON can tell apart: booleans, null, texts, 64-bit integers and arrays of them. */
  predicate Plain(v: Value) {
    match v
    case Bool(_) => true
    case Null => true
    case Text(_) => true
    case Integer(i) => -0x8000_0000_0000_0000 <= i <= 0xFFFF_FFFF_FFFF_FFFF
    case Array(items) => forall x | x in items :: Plain(x)
    case _ => false
  }

  /** Two plain values with one JSON are the same value. */
  lemma {:induction false} PlainIsDetermined(lib: Library, v: Value, w: Value, j: Json)
    requires Plain(v) && Plain(w) && Denotes(lib, v, j) && Denotes(lib, w, j)
    ensures v == w
    decreases v
  {
    if v.Array? && w.Array? {
      forall i | 0 <= i < |v.items| ensures v.items[i] == w.items[i] {
        PlainIsDetermined(lib, v.items[i], w.items[i], j.items[i]);
      }
      assert v.items == w.items;
    }
  }

  // ---------------------------------------------------------------- items

  /** The item, with or without its tag 24, holds a map that names the element and gives it this value. */
  ghost predicate Says(lib: Library, item: Value, name: string, v: Value) {
    exists entries ::
      && (|| (exists b :: item in {Bytes(b), Tag(24, Bytes(b))} && lib.read(b) == Some(Map(entries)))
          || item in {Map(entries), Tag(24, Map(entries))})
      && Get(entries, "elementIdentifier").Some? && Untag(Get(entries, "elementIdentifier").value) == Text(name)
      && Get(entries, "elementValue") == Some(v)
  }

  /** What the decoder reads out of an item is what the item says. */
  lemma {:induction false} ItemSaysWhatIsRead(lib: Library, item: Value, name: string, j: Json)
    requires Decoder.ParseItem(lib, item) == Ok((name, j))
    ensures exists v :: Says(lib, item, name, v) && Denotes(lib, v, j)
  {
    var inner := Decoder.UnwrapTag24(lib, item).value;
    var v := Get(inner.entries, "elementValue").value;
    ToJsonDenotes(lib, v);
    assert inner == Map(inner.entries);
    assert Says(lib, item, name, v);
  }

  lemma {:induction false} SaidIsRead(lib: Library, item: Value, name: string, v: Value)
    requires Says(lib, item, name, v)
    ensures Decoder.ParseItem(lib, item) == Ok((name, ToJson(lib, v)))
  {
    var entries :|
      && (|| (exists b :: item in {Bytes(b), Tag(24, Bytes(b))} && lib.read(b) == Some(Map(entries)))
          || item in {Map(entries), Tag(24, Map(entries))})
      && Get(entries, "elementIdentifier").Some? && Untag(Get(entries, "elementIdentifier").value) == Text(name)
      && Get(entries, "elementValue") == Some(v);
    assert Decoder.UnwrapTag24(lib, item) == Ok(Map(entries));
  }

  // ---------------------------------------------------------------- any accepted presentation

  /** Item `j` of entry `k` says `name = v` under `ns`, and no later item of it says that name, nor is there a later
      array for `ns`. */
  ghost predicate SaysLast(lib: Library, entries: Entries, k: nat, j: nat, ns: string, name: string, v: Value) {
    && Decoder.HoldsLast(entries, k, ns) && j < |entries[k].1.items| && Says(lib, entries[k].1.items[j], name, v)
    && forall i, w :: j < i < |entries[k].1.items| ==> !Says(lib, entries[k].1.items[i], name, w)
  }

  /** The fields reported for a namespace: all there are, or those under its name when there are several. */
  function FieldsOfNamespace(claims: Json, several: bool, ns: string): Option<map<string, Json>> {
    var part := if several then Field(claims, ns) else Some(claims);
    match part
    case Some(JObject(fields)) => Some(fields)
    case _ => None
  }

  lemma {:induction false} SaidIsClaimed(
    lib: Library, entries: Entries, k: nat, j: nat, ns: string, name: string, v: Value)
    requires SaysLast(lib, entries, k, j, ns, name, v)
    ensures var namespaces := Decoder.NamespaceClaims(lib, entries);
            ns in namespaces && name in namespaces[ns] && Denotes(lib, v, namespaces[ns][name])
  {
    var items := entries[k].1.items;
    SaidIsRead(lib, items[j], name, v);
    forall i | j < i < |items| && Decoder.ParseItem(lib, items[i]).Ok?
      ensures Decoder.ParseItem(lib, items[i]).value.0 != name
    {
      var (other, value) := Decoder.ParseItem(lib, items[i]).value;
      ItemSaysWhatIsRead(lib, items[i], other, value);
    }
    Decoder.LastItemDecides(lib, items, j, name, ToJson(lib, v));
    Decoder.LastEntryDecides(lib, entries, k, ns);
    ToJsonDenotes(lib, v);
  }

  /** Some item array is of another namespace. */
  predicate HasOther(entries: Entries, ns: string) {
    exists i :: 0 <= i < |entries| && entries[i].0.Text? && entries[i].1.Array? && entries[i].0.t != ns
  }

  lemma {:induction false} NamespaceIsFound(namespaces: Decoder.Namespaces, ns: string)
    requires ns in namespaces
    ensures FieldsOfNamespace(ClaimsJson(namespaces), namespaces.Keys != {ns}, ns) == Some(namespaces[ns])
  {
    if |namespaces| == 1 {
      assert |namespaces.Keys - {ns}| == 0;
      assert namespaces.Keys == {ns};
    }
    assert |{ns}| == 1;
  }

  lemma {:induction false} OtherIsClaimed(lib: Library, entries: Entries, ns: string)
    requires ns in Decoder.NamespaceClaims(lib, entries)
    ensures Decoder.NamespaceClaims(lib, entries).Keys != {ns} <==> HasOther(entries, ns)
  {
    var namespaces := Decoder.NamespaceClaims(lib, entries);
    if HasOther(entries, ns) {
      var i :| 0 <= i < |entries| && entries[i].0.Text? && entries[i].1.Array? && entries[i].0.t != ns;
      EntryIsClaimed(lib, entries, i);
    } else {
      forall other | other in namespaces ensures other == ns {
        var k := Decoder.NamespaceHasEntry(lib, entries, other);
      }
    }
  }

  /** Nothing an accepted presentation says is lost, whichever of its namespaces says it: the claims returned have
      a field for it that denotes the value, flat when the items are of one namespace and nested otherwise. */
  lemma {:induction false} EverythingSaidIsReported(
    lib: Library, encoded: string, s: Session, now: int, k: nat, j: nat, ns: string, name: string, v: Value)
    requires VerifyPresentation(lib, encoded, s, now).Ok? && Open(lib, encoded).Ok?
    requires SaysLast(lib, Open(lib, encoded).value.nameSpaces, k, j, ns, name, v)
    ensures var fields := FieldsOfNamespace(VerifyPresentation(lib, encoded, s, now).value.claims,
                                            HasOther(Open(lib, encoded).value.nameSpaces, ns), ns);
            fields.Some? && name in fields.value && Denotes(lib, v, fields.value[name])
  {
    var entries := Open(lib, encoded).value.nameSpaces;
    AcceptedClaimsAreVouched(lib, encoded, s, now);
    SaidIsClaimed(lib, entries, k, j, ns, name, v);
    OtherIsClaimed(lib, entries, ns);
    NamespaceIsFound(Decoder.NamespaceClaims(lib, entries), ns);
  }

  lemma {:induction false} EntryIsClaimed(lib: Library, entries: Entries, i: nat)
    requires i < |entries| && entries[i].0.Text? && entries[i].1.Array?
    ensures entries[i].0.t in Decoder.NamespaceClaims(lib, entries)
  {
    var n := |entries| - 1;
    if i < n { EntryIsClaimed(lib, entries[..n], i); }
  }

  // ---------------------------------------------------------------- issued presentations

  /** Claim `i` is the last one of its name. */
  predicate ClaimedLast(claims: seq<(string, Value)>, i: nat, name: string) {
    i < |claims| && claims[i].0 == name && forall j :: i < j < |claims| ==> claims[j].0 != name
  }

  /** The fields are the names claimed, and each denotes what was claimed last under it. */
  ghost predicate Reports(lib: Library, claims: seq<(string, Value)>, fields: map<string, Json>) {
    && (forall name :: name in fields ==> exists i: nat :: ClaimedLast(claims, i, name))
    && forall i: nat, name :: ClaimedLast(claims, i, name) ==>
         name in fields && Denotes(lib, claims[i].1, fields[name])
  }

  lemma {:induction false} ClaimMapReports(lib: Library, claims: seq<(string, Value)>)
    ensures Reports(lib, claims, ClaimMap(lib, claims))
  {
    if claims != [] {
      var n := |claims| - 1;
      var before := claims[..n];
      ClaimMapReports(lib, before);
      ToJsonDenotes(lib, claims[n].1);
      assert ClaimedLast(claims, n, claims[n].0);
      assert forall j :: 0 <= j < n ==> before[j] == claims[j];
      forall name | name in ClaimMap(lib, claims) ensures exists i: nat :: ClaimedLast(claims, i, name) {
        if name != claims[n].0 {
          var i: nat :| ClaimedLast(before, i, name);
          assert ClaimedLast(claims, i, name);
        }
      }
      forall i: nat, name | ClaimedLast(claims, i, name)
        ensures name in ClaimMap(lib, claims) && Denotes(lib, claims[i].1, ClaimMap(lib, claims)[name])
      {
        if i < n { assert ClaimedLast(before, i, name); }
      }
    }
  }

  /** An issued presentation, when accepted, reports its claims: no name is lost or added, and each field denotes
      the value issued under it. */
  lemma {:induction false} IssuedClaimsAreReported(
    lib: Library, iss: Issuance, s: Session, now: int, issuerKey: PublicKey, deviceKey: PublicKey, trusted: bool)
    requires |iss.claims| == |iss.salts|
    requires AllSurvive(lib, iss, s) && CoseParses(lib, iss) && HandoversDoNotCollide(lib, iss, s)
    requires SignaturesIdeal(lib, iss, s, issuerKey, deviceKey, trusted)
    requires lib.fromUrlNoPad(Presentation(lib, iss)) == Some(lib.write(DeviceResponse(lib, iss)))
    ensures var r := VerifyPresentation(lib, Presentation(lib, iss), s, now);
            && (r.Ok? <==> SameSession(iss, s) && InWindow(lib, iss, now))
            && (r.Ok? ==> r.value.claims.JObject? && Reports(lib, iss.claims, r.value.claims.fields))
  {
    IssuedIsAcceptedExactly(lib, iss, s, now, issuerKey, deviceKey, trusted);
    ClaimMapReports(lib, iss.claims);
  }

  /** In particular an age attestation is returned as issued, whichever way it went. */
  lemma {:induction false} AgeIsReported(
    lib: Library, claims: seq<(string, Value)>, fields: map<string, Json>, i: nat, over: bool)
    requires Reports(lib, claims, fields)
    requires ClaimedLast(claims, i, "age_over_18") && claims[i].1 == Bool(over)
    ensures "age_over_18" in fields && fields["age_over_18"] == JBool(over)
  {
    assert Denotes(lib, Bool(over), fields["age_over_18"]);
  }
}
