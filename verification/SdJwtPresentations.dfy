/** SD-JWT presentations put together from their parts: what is recognised in them, and exactly when they are
    accepted. */
module SdJwtPresentations {
  import opened Prelude
  import opened Json
  import opened SdJwt

  // ---------------------------------------------------------------- splitting undoes joining

  predicate Free(parts: seq<string>, sep: char) {
    forall i :: 0 <= i < |parts| ==> sep !in parts[i]
  }

  lemma {:induction false} SplitOfFirst(head: string, sep: char, rest: string)
    requires sep !in head
    ensures Split(head + [sep] + rest, sep) == [head] + Split(rest, sep)
    ensures BeforeFirst(head + [sep] + rest, sep) == head && AfterFirst(head + [sep] + rest, sep) == rest
  {
    var s := head + [sep] + rest;
    if head == "" {
      assert s[1..] == rest;
    } else {
      assert s[1..] == head[1..] + [sep] + rest && head == [head[0]] + head[1..];
      SplitOfFirst(head[1..], sep, rest);
      assert ([head[1..]] + Split(rest, sep))[1..] == Split(rest, sep);
    }
  }

  lemma {:induction false} SplitOfFree(s: string, sep: char)
    requires sep !in s
    ensures Split(s, sep) == [s]
  {
    if s != "" {
      SplitOfFree(s[1..], sep);
      assert s == [s[0]] + s[1..] && [[s[0]] + s[1..]] + [] == [s];
    }
  }

  lemma {:induction false} SplitOfJoin(parts: seq<string>, sep: char)
    requires parts != [] && Free(parts, sep)
    ensures Split(Join(parts, sep), sep) == parts
  {
    if |parts| == 1 {
      SplitOfFree(parts[0], sep);
    } else {
      SplitOfJoin(parts[1..], sep);
      SplitOfFirst(parts[0], sep, Join(parts[1..], sep));
    }
  }

  // ---------------------------------------------------------------- compact JWTs

  datatype Jwt = Jwt(header: string, payload: string, signature: string)

  function Compact(j: Jwt): string {
    j.header + "." + j.payload + "." + j.signature
  }

  predicate IsJwt(j: Jwt) {
    '.' !in j.header && '.' !in j.payload && '.' !in j.signature
  }

  lemma {:induction false} PartsOfCompact(j: Jwt)
    requires IsJwt(j)
    ensures Split(Compact(j), '.') == [j.header, j.payload, j.signature]
  {
    SplitOfFirst(j.header, '.', j.payload + "." + j.signature);
    SplitOfFirst(j.payload, '.', j.signature);
    SplitOfFree(j.signature, '.');
    assert Compact(j) == j.header + "." + (j.payload + "." + j.signature);
  }

  /** A segment is taken for a Key Binding JWT if and only if it starts with "eyJ" and consists of three parts
      between dots. */
  lemma {:induction false} KbJwtIsThreeParts(segment: string)
    ensures LooksLikeKbJwt(segment) <==>
            |segment| >= 3 && segment[0] == 'e' && segment[1] == 'y' && segment[2] == 'J' &&
            exists j :: IsJwt(j) && segment == Compact(j)
  {
    if LooksLikeKbJwt(segment) {
      SplitJoin(segment, '.');
      var parts := Split(segment, '.');
      var j := Jwt(parts[0], parts[1], parts[2]);
      assert parts[1..] == [parts[1], parts[2]] && parts[1..][1..] == [parts[2]];
      assert Join([parts[2]], '.') == parts[2];
      assert Join([parts[1], parts[2]], '.') == parts[1] + "." + parts[2];
      assert segment == parts[0] + "." + (parts[1] + "." + parts[2]);
      assert IsJwt(j) && segment == Compact(j);
    }
    if j :| IsJwt(j) && segment == Compact(j) {
      PartsOfCompact(j);
    }
    assert |segment| >= 3 ==> segment[..3] == [segment[0], segment[1], segment[2]];
  }

  // ---------------------------------------------------------------- presentations

  /** `<issuer-jwt>~<disclosure>~...~`, followed by the Key Binding JWT if there is one. */
  function Presented(issuer: Jwt, disclosures: seq<string>, kb: Option<Jwt>): string {
    Join([Compact(issuer)] + disclosures + [if kb.Some? then Compact(kb.value) else ""], '~')
  }

  /** JWTs of three parts, the Key Binding JWT starting "eyJ", and disclosures without dots; no part
      contains the separator. */
  predicate Assembled(issuer: Jwt, disclosures: seq<string>, kb: Option<Jwt>) {
    && IsJwt(issuer) && '~' !in Compact(issuer)
    && Free(disclosures, '.') && Free(disclosures, '~')
    && (kb.Some? ==>
          IsJwt(kb.value) && '~' !in Compact(kb.value) && |kb.value.header| >= 3 && kb.value.header[..3] == "eyJ")
  }

  lemma {:induction false} DotFreeIsNoKb(segments: seq<string>)
    requires Free(segments, '.')
    ensures LastKbJwt(segments) == None
  {
    if segments != [] {
      var n := |segments| - 1;
      SplitOfFree(segments[n], '.');
      DotFreeIsNoKb(segments[..n]);
    }
  }

  lemma {:induction false} SegmentsOfPresented(issuer: Jwt, disclosures: seq<string>, kb: Option<Jwt>)
    requires Assembled(issuer, disclosures, kb)
    ensures var raw := Presented(issuer, disclosures, kb);
            && BeforeFirst(raw, '~') == Compact(issuer) && Count(raw, '~') > 0
            && Segments(raw) == disclosures + [if kb.Some? then Compact(kb.value) else ""]
  {
    var segments := disclosures + [if kb.Some? then Compact(kb.value) else ""];
    assert [Compact(issuer)] + disclosures + [if kb.Some? then Compact(kb.value) else ""] ==
           [Compact(issuer)] + segments;
    assert ([Compact(issuer)] + segments)[1..] == segments;
    SplitOfJoin(segments, '~');
    SplitOfFirst(Compact(issuer), '~', Join(segments, '~'));
  }

  /** The Key Binding JWT of a presentation is found, and nothing else is taken for one. */
  lemma {:induction false} KbJwtIsFound(issuer: Jwt, disclosures: seq<string>, kb: Option<Jwt>)
    requires Assembled(issuer, disclosures, kb)
    ensures LastKbJwt(Segments(Presented(issuer, disclosures, kb))) ==
            if kb.Some? then Some(Compact(kb.value)) else None
  {
    SegmentsOfPresented(issuer, disclosures, kb);
    if kb.Some? {
      KbLooksLikeOne(kb.value);
      LastIsFound(disclosures, Compact(kb.value));
    } else {
      assert Free(disclosures + [""], '.');
      DotFreeIsNoKb(disclosures + [""]);
    }
  }

  lemma {:induction false} KbLooksLikeOne(kb: Jwt)
    requires IsJwt(kb) && |kb.header| >= 3 && kb.header[..3] == "eyJ"
    ensures LooksLikeKbJwt(Compact(kb))
  {
    var last := Compact(kb);
    assert last[..3] == kb.header[..3];
    assert last[0] == last[..3][0] == 'e' && last[1] == last[..3][1] == 'y' && last[2] == last[..3][2] == 'J';
    KbJwtIsThreeParts(last);
  }

  lemma LastIsFound(before: seq<string>, last: string)
    requires LooksLikeKbJwt(last)
    ensures LastKbJwt(before + [last]) == Some(last)
  {
  }

  // ---------------------------------------------------------------- acceptance, from the parts

  /** The key accepts the token, and its payload part is the unpadded base64url of these claims. */
  ghost predicate Signs(lib: Library, j: Jwt, key: Key, alg: string, claims: Json) {
    lib.accepts(Compact(j), key, alg) && lib.fromUrlNoPad(j.payload).Some? &&
    lib.json(lib.fromUrlNoPad(j.payload).value) == Some(claims)
  }

  /** The issuer JWT names certificates that lead to a trusted one, and the first one's key signs these claims. */
  ghost predicate IssuerSigns(lib: Library, issuer: Jwt, claims: Json) {
    && lib.header(Compact(issuer)).Some?
    && var h := lib.header(Compact(issuer)).value;
       && h.x5c.Some? && h.x5c.value != [] && lib.keyFromX5c(h.x5c.value, h.alg).Ok?
       && lib.keyFromX5c(h.x5c.value, h.alg).value.1
       && Signs(lib, issuer, lib.keyFromX5c(h.x5c.value, h.alg).value.0, h.alg, claims)
  }

  /** The key under `cnf.jwk` of the issuer's claims signs these claims of the holder. */
  ghost predicate HolderSigns(lib: Library, issuerClaims: Json, kb: Jwt, claims: Json) {
    && lib.header(Compact(kb)).Some?
    && issuerClaims.JObject? && "cnf" in issuerClaims.fields && issuerClaims.fields["cnf"].JObject?
    && "jwk" in issuerClaims.fields["cnf"].fields
    && var alg := lib.header(Compact(kb)).value.alg;
       var key := lib.keyFromJwk(issuerClaims.fields["cnf"].fields["jwk"], alg);
       key.Ok? && Signs(lib, kb, key.value, alg, claims)
  }

  /** The claims do not name another nonce. */
  predicate NamesNoOther(claims: Json, nonce: string) {
    claims.JObject? && "nonce" in claims.fields && claims.fields["nonce"].JString? ==>
      claims.fields["nonce"].s == nonce
  }

  /** An expiry that can be read is not over. */
  ghost predicate InTime(lib: Library, claims: Json, now: int) {
    claims.JObject? && "exp" in claims.fields && claims.fields["exp"].JNumber? &&
    lib.showTime(claims.fields["exp"].n).Some? &&
    lib.parseTime(lib.showTime(claims.fields["exp"].n).value).Some? ==>
      now <= lib.parseTime(lib.showTime(claims.fields["exp"].n).value).value
  }

  ghost predicate Holds(lib: Library, issuer: Jwt, kb: Option<Jwt>, nonce: string, now: int, claims: Json) {
    && IssuerSigns(lib, issuer, claims) && InTime(lib, claims, now)
    && (kb.Some? ==> exists k :: HolderSigns(lib, claims, kb.value, k) && NamesNoOther(k, nonce))
  }

  lemma {:induction false} DecodesTo(lib: Library, j: Jwt, key: Key, alg: string, claims: Json)
    requires IsJwt(j)
    ensures JwtDecode(lib, Compact(j), key, alg) == Some(claims) <==> Signs(lib, j, key, alg, claims)
  {
    PartsOfCompact(j);
  }

  lemma {:induction false} IssuerClaimsAreSigned(
    lib: Library, issuer: Jwt, disclosures: seq<string>, kb: Option<Jwt>, claims: Json)
    requires Assembled(issuer, disclosures, kb)
    ensures IssuerClaims(lib, Presented(issuer, disclosures, kb)) == Some((claims, true)) <==>
            IssuerSigns(lib, issuer, claims)
  {
    SegmentsOfPresented(issuer, disclosures, kb);
    if lib.header(Compact(issuer)).Some? {
      var h := lib.header(Compact(issuer)).value;
      if h.x5c.Some? && lib.keyFromX5c(h.x5c.value, h.alg).Ok? {
        DecodesTo(lib, issuer, lib.keyFromX5c(h.x5c.value, h.alg).value.0, h.alg, claims);
      }
    }
  }

  lemma {:induction false} HolderClaimsAreSigned(lib: Library, issuerClaims: Json, kb: Jwt)
    requires IsJwt(kb)
    ensures KbJwtSigned(lib, issuerClaims, Compact(kb)) <==> exists k :: HolderSigns(lib, issuerClaims, kb, k)
    ensures forall k :: HolderSigns(lib, issuerClaims, kb, k) ==>
              var alg := lib.header(Compact(kb)).value.alg;
              var key := lib.keyFromJwk(HolderJwk(issuerClaims).value, alg).value;
              JwtDecode(lib, Compact(kb), key, alg) == Some(k)
  {
    if lib.header(Compact(kb)).Some? && HolderJwk(issuerClaims).Some? {
      var alg := lib.header(Compact(kb)).value.alg;
      var key := lib.keyFromJwk(HolderJwk(issuerClaims).value, alg);
      if key.Ok? {
        forall k ensures JwtDecode(lib, Compact(kb), key.value, alg) == Some(k) <==> Signs(lib, kb, key.value, alg, k) {
          DecodesTo(lib, kb, key.value, alg, k);
        }
        if JwtDecode(lib, Compact(kb), key.value, alg).Some? {
          assert HolderSigns(lib, issuerClaims, kb, JwtDecode(lib, Compact(kb), key.value, alg).value);
        }
      }
    }
  }

  lemma {:induction false} PayloadIsRead(
    lib: Library, issuer: Jwt, disclosures: seq<string>, kb: Option<Jwt>, claims: Json, now: int)
    requires Assembled(issuer, disclosures, kb) && IssuerSigns(lib, issuer, claims)
    ensures var raw := Presented(issuer, disclosures, kb);
            && IssuerPayload(lib, raw) == Ok(claims) && Decoded(lib, raw).Ok?
            && (NotExpired(lib, Decoded(lib, raw).value.expiresAt, now) <==> InTime(lib, claims, now))
  {
    SegmentsOfPresented(issuer, disclosures, kb);
    PartsOfCompact(issuer);
  }

  /** The nonce under the holder's signature is none, or the server's. */
  lemma {:induction false} HolderHolds(lib: Library, claims: Json, kb: Jwt, nonce: string)
    requires IsJwt(kb)
    ensures (exists k :: HolderSigns(lib, claims, kb, k) && NamesNoOther(k, nonce)) <==>
            KbJwtSigned(lib, claims, Compact(kb)) &&
            var alg := lib.header(Compact(kb)).value.alg;
            var key := lib.keyFromJwk(HolderJwk(claims).value, alg).value;
            NonceMatches(Some(nonce), StringField(JwtDecode(lib, Compact(kb), key, alg).value, "nonce"))
  {
    HolderClaimsAreSigned(lib, claims, kb);
  }

  /** A presentation is accepted for a nonce if and only if a trusted issuer signed claims that are in time, and the
      Key Binding JWT, if there is one, is signed under the key those claims bind and names no other nonce. */
  lemma {:induction false} PresentedIsAcceptedExactly(
    lib: Library, issuer: Jwt, disclosures: seq<string>, kb: Option<Jwt>, nonce: string, now: int)
    requires Assembled(issuer, disclosures, kb)
    ensures Accepted(lib, Presented(issuer, disclosures, kb), Some(nonce), now) <==>
            exists claims :: Holds(lib, issuer, kb, nonce, now, claims)
  {
    var raw := Presented(issuer, disclosures, kb);
    KbJwtIsFound(issuer, disclosures, kb);
    if Accepted(lib, raw, Some(nonce), now) {
      var claims := IssuerClaims(lib, raw).value.0;
      IssuerClaimsAreSigned(lib, issuer, disclosures, kb, claims);
      PayloadIsRead(lib, issuer, disclosures, kb, claims, now);
      if kb.Some? { HolderHolds(lib, claims, kb.value, nonce); }
      assert Holds(lib, issuer, kb, nonce, now, claims);
    }
    if claims :| Holds(lib, issuer, kb, nonce, now, claims) {
      IssuerClaimsAreSigned(lib, issuer, disclosures, kb, claims);
      PayloadIsRead(lib, issuer, disclosures, kb, claims, now);
      if kb.Some? { HolderHolds(lib, claims, kb.value, nonce); }
    }
  }

  /** In particular a Key Binding JWT that names another nonce, or is not signed under the bound key, is refused. */
  lemma {:induction false} ForeignKbJwtIsRefused(
    lib: Library, issuer: Jwt, disclosures: seq<string>, kb: Jwt, nonce: string, now: int)
    requires Assembled(issuer, disclosures, Some(kb))
    requires forall claims, k :: IssuerSigns(lib, issuer, claims) && HolderSigns(lib, claims, kb, k) ==>
               k.JObject? && "nonce" in k.fields && k.fields["nonce"].JString? && k.fields["nonce"].s != nonce
    ensures !Accepted(lib, Presented(issuer, disclosures, Some(kb)), Some(nonce), now)
  {
    PresentedIsAcceptedExactly(lib, issuer, disclosures, Some(kb), nonce, now);
  }

  // ---------------------------------------------------------------- the claims of a presentation

  /** The disclosure, read as unpadded base64url or else as padded, is `[salt, name, value]`. */
  ghost predicate Opens(lib: Library, disclosure: string, name: string, value: Json) {
    && disclosure != ""
    && var bytes := if lib.fromUrlNoPad(disclosure).Some? then lib.fromUrlNoPad(disclosure)
                    else lib.fromUrlPadded(disclosure);
       bytes.Some? && exists salt :: lib.json(bytes.value) == Some(JArray([salt, JString(name), value]))
  }

  /** Disclosure `i` is the last that opens to this name. */
  ghost predicate OpensLast(lib: Library, disclosures: seq<string>, i: nat, name: string, value: Json) {
    && i < |disclosures| && Opens(lib, disclosures[i], name, value)
    && forall j, other :: i < j < |disclosures| ==> !Opens(lib, disclosures[j], name, other)
  }

  /** A claim the issuer left in the clear: not one of those that describe the token. */
  predicate InClear(payload: Json, name: string) {
    && payload.JObject? && name in payload.fields
    && name != "iss" && name != "sub" && name != "aud" && name != "iat" && name != "exp" && name != "nbf"
    && name != "jti" && name != "vct" && name != "_sd" && name != "_sd_alg" && name != "cnf" && name != "status"
  }

  lemma {:induction false} OpensIffDiscloses(lib: Library, segment: string, name: string, value: Json)
    requires '.' !in segment
    ensures Opens(lib, segment, name, value) <==> Discloses(lib, segment, name, value)
  {
    SplitOfFree(segment, '.');
  }

  lemma {:induction false} LastIsNoDisclosure(
    lib: Library, disclosures: seq<string>, kb: Option<Jwt>, last: string, name: string, value: Json)
    requires kb.Some? ==> IsJwt(kb.value) && |kb.value.header| >= 3 && kb.value.header[..3] == "eyJ"
    requires last == if kb.Some? then Compact(kb.value) else ""
    ensures !Discloses(lib, last, name, value)
  {
    if kb.Some? { KbLooksLikeOne(kb.value); }
  }

  /** Among the segments exactly the disclosures disclose anything, and each what it opens to. */
  lemma {:induction false} SegmentsDisclose(
    lib: Library, disclosures: seq<string>, kb: Option<Jwt>, last: string, name: string)
    requires Free(disclosures, '.')
    requires kb.Some? ==> IsJwt(kb.value) && |kb.value.header| >= 3 && kb.value.header[..3] == "eyJ"
    requires last == if kb.Some? then Compact(kb.value) else ""
    ensures forall i: nat, value :: OpensLast(lib, disclosures, i, name, value) <==>
              DisclosesLast(lib, disclosures + [last], i, name, value)
  {
    var segments := disclosures + [last];
    forall i, value | 0 <= i < |segments|
      ensures Discloses(lib, segments[i], name, value) <==> i < |disclosures| && Opens(lib, segments[i], name, value)
    {
      if i < |disclosures| { OpensIffDiscloses(lib, segments[i], name, value); }
      else { LastIsNoDisclosure(lib, disclosures, kb, last, name, value); }
    }
    forall i: nat, value
      ensures OpensLast(lib, disclosures, i, name, value) <==> DisclosesLast(lib, segments, i, name, value)
    {
      assert forall j :: 0 <= j < |disclosures| ==> segments[j] == disclosures[j];
      if DisclosesLast(lib, segments, i, name, value) {
        assert i < |disclosures| && Opens(lib, disclosures[i], name, value);
        forall j, other | i < j < |disclosures| ensures !Opens(lib, disclosures[j], name, other) {
          assert !Discloses(lib, segments[j], name, other);
        }
      }
      if OpensLast(lib, disclosures, i, name, value) {
        assert Discloses(lib, segments[i], name, value);
        forall j, other | i < j < |segments| ensures !Discloses(lib, segments[j], name, other) {
          assert j < |disclosures| ==> !Opens(lib, disclosures[j], name, other);
        }
      }
    }
  }

  lemma {:induction false} DisclosedIffLast(lib: Library, segments: seq<string>, name: string)
    ensures DisclosedIn(lib, segments, name) <==> exists i: nat, value :: DisclosesLast(lib, segments, i, name, value)
  {
    if DisclosedIn(lib, segments, name) {
      var i, value := LastDisclosure(lib, segments, name);
    }
  }

  /** The claims decoded from a presentation are the disclosed ones, the last disclosure of a name deciding, and the
      clear ones nobody discloses. */
  lemma {:induction false} PresentedClaims(
    lib: Library, issuer: Jwt, disclosures: seq<string>, kb: Option<Jwt>, payload: Json, name: string)
    requires Assembled(issuer, disclosures, kb)
    requires IssuerPayload(lib, Presented(issuer, disclosures, kb)) == Ok(payload)
    ensures var claims := Decoded(lib, Presented(issuer, disclosures, kb)).value.claims;
            var disclosed := exists i: nat, value :: OpensLast(lib, disclosures, i, name, value);
            && (name in claims <==> disclosed || InClear(payload, name))
            && (forall i: nat, value :: OpensLast(lib, disclosures, i, name, value) ==> claims[name] == value)
            && (!disclosed && InClear(payload, name) ==> claims[name] == payload.fields[name])
  {
    var last := if kb.Some? then Compact(kb.value) else "";
    SegmentsOfPresented(issuer, disclosures, kb);
    LastDisclosureWins(lib, Walk(ClearClaims(payload), None), disclosures + [last], name);
    SegmentsDisclose(lib, disclosures, kb, last, name);
    DisclosedIffLast(lib, disclosures + [last], name);
  }
}
