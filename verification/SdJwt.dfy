/** SD-JWT VC presentations `<issuer-jwt>~<disclosure>~...~[kb-jwt]`: one pass extracts claims and a nonce,
    a second, independent pass checks signatures and picks its own Key Binding JWT. */
module SdJwt {
  import opened Prelude
  import opened Json

  // ---------------------------------------------------------------- strings

  /** Rust's `split`: the pieces between separators, one more than there are separators. */
  function Split(s: string, sep: char): (parts: seq<string>)
    ensures |parts| == Count(s, sep) + 1
  {
    if s == [] then [""]
    else
      var rest := Split(s[1..], sep);
      if s[0] == sep then [""] + rest else [[s[0]] + rest[0]] + rest[1..]
  }

  function Count(s: string, c: char): nat {
    if s == [] then 0 else (if s[0] == c then 1 else 0) + Count(s[1..], c)
  }

  /** `splitn(2, '~')`: what precedes and what follows the first separator. */
  function BeforeFirst(s: string, sep: char): string {
    if s == [] || s[0] == sep then "" else [s[0]] + BeforeFirst(s[1..], sep)
  }

  function AfterFirst(s: string, sep: char): string {
    if s == [] then "" else if s[0] == sep then s[1..] else AfterFirst(s[1..], sep)
  }

  /** `parts.join(sep)`. */
  function Join(parts: seq<string>, sep: char): string {
    if |parts| == 0 then "" else if |parts| == 1 then parts[0] else parts[0] + [sep] + Join(parts[1..], sep)
  }

  /** Splitting is undone by joining, and no piece contains the separator. */
  lemma {:induction false} SplitJoin(s: string, sep: char)
    ensures Join(Split(s, sep), sep) == s
    ensures forall i :: 0 <= i < |Split(s, sep)| ==> sep !in Split(s, sep)[i]
  {
    if s != [] {
      var rest := Split(s[1..], sep);
      SplitJoin(s[1..], sep);
      assert s == [s[0]] + s[1..];
      if s[0] == sep {
        assert ([""] + rest)[1..] == rest;
        assert "" + [sep] + s[1..] == s;
      } else {
        var parts := [[s[0]] + rest[0]] + rest[1..];
        assert parts[1..] == rest[1..];
        if |rest| > 1 {
          assert [s[0]] + rest[0] + [sep] + Join(rest[1..], sep) == [s[0]] + (rest[0] + [sep] + Join(rest[1..], sep));
        }
      }
    }
  }

  /** The issuer JWT and the segments are exactly the two sides of the first separator. */
  lemma {:induction false} SplitAtFirst(s: string, sep: char)
    ensures sep !in BeforeFirst(s, sep)
    ensures s == if Count(s, sep) > 0 then BeforeFirst(s, sep) + [sep] + AfterFirst(s, sep) else BeforeFirst(s, sep)
  {
    if s != [] && s[0] != sep {
      SplitAtFirst(s[1..], sep);
      assert s == [s[0]] + s[1..];
    }
  }

  // ---------------------------------------------------------------- libraries

  type Key = Bytes

  datatype JwtHeader = JwtHeader(alg: string, x5c: Option<seq<string>>)

  datatype Library = Library(
    fromUrlNoPad: string -> Option<Bytes>,
    fromUrlPadded: string -> Option<Bytes>,
    json: Bytes -> Option<Json>,
    header: string -> Option<JwtHeader>,
    accepts: (string, Key, string) -> bool,
    keyFromX5c: (seq<string>, string) -> Result<(Key, bool), string>,
    keyFromJwk: (Json, string) -> Result<Key, string>,
    showTime: int -> Option<string>,
    parseTime: string -> Option<int>)

  /** `jsonwebtoken::decode`: three parts, an accepted signature, and the JSON payload between the dots. */
  function JwtDecode(lib: Library, token: string, key: Key, alg: string): Option<Json> {
    var parts := Split(token, '.');
    if |parts| != 3 || !lib.accepts(token, key, alg) || lib.fromUrlNoPad(parts[1]).None? then None
    else lib.json(lib.fromUrlNoPad(parts[1]).value)
  }

  /** The decoder's payload reading: unpadded base64url first, then padded; no signature. */
  function PayloadBytes(lib: Library, part: string): Option<Bytes> {
    if lib.fromUrlNoPad(part).Some? then lib.fromUrlNoPad(part) else lib.fromUrlPadded(part)
  }

  function ReadPayload(lib: Library, part: string): Option<Json> {
    match PayloadBytes(lib, part)
    case Some(b) => lib.json(b)
    case None => None
  }

  // ---------------------------------------------------------------- decoding

  predicate LooksLikeKbJwt(segment: string) {
    Count(segment, '.') == 2 && |segment| >= 3 && segment[..3] == "eyJ"
  }

  datatype Walk = Walk(claims: map<string, Json>, nonce: Option<string>)

  /** One `~`-separated segment: a KB-JWT sets the nonce if its payload parses, a readable disclosure
      `[salt, name, value]` sets a claim, anything else is skipped. */
  function Visit(lib: Library, w: Walk, segment: string): Walk {
    if segment == "" then w
    else if LooksLikeKbJwt(segment) then
      match ReadPayload(lib, Split(segment, '.')[1])
      case Some(payload) => w.(nonce := StringField(payload, "nonce"))
      case None => w
    else
      match ReadPayload(lib, segment)
      case Some(JArray(items)) =>
        if |items| == 3 && items[1].JString? then w.(claims := w.claims[items[1].s := items[2]]) else w
      case _ => w
  }

  function VisitAll(lib: Library, w: Walk, segments: seq<string>): Walk {
    if segments == [] then w
    else Visit(lib, VisitAll(lib, w, segments[..|segments| - 1]), segments[|segments| - 1])
  }

  const SKIPPED_CLAIMS: set<string> :=
    {"iss", "sub", "aud", "iat", "exp", "nbf", "jti", "vct", "_sd", "_sd_alg", "cnf", "status"}

  function ClearClaims(payload: Json): map<string, Json> {
    if payload.JObject? then map k | k in payload.fields && k !in SKIPPED_CLAIMS :: payload.fields[k] else map[]
  }

  function OrDefault(o: Option<string>, d: string): string {
    if o.Some? then o.value else d
  }

  function TimeField(lib: Library, payload: Json, key: string): Option<string> {
    match Field(payload, key)
    case Some(JNumber(ts)) => lib.showTime(ts)
    case _ => None
  }

  datatype DecodedSdJwt = DecodedSdJwt(
    vct: string, claims: map<string, Json>, issuer: string, issuedAt: Option<string>, expiresAt: Option<string>,
    nonce: Option<string>)

  function IssuerPayload(lib: Library, raw: string): Result<Json, string> {
    if Count(raw, '~') == 0 then Err("not an SD-JWT")
    else
      var parts := Split(BeforeFirst(raw, '~'), '.');
      if |parts| != 3 then Err("malformed JWT")
      else OrElse(ReadPayload(lib, parts[1]), "JWT payload unreadable")
  }

  function Segments(raw: string): seq<string> {
    Split(AfterFirst(raw, '~'), '~')
  }

  /** `decode_sd_jwt_presentation` on values. */
  function Decoded(lib: Library, raw: string): Result<DecodedSdJwt, string> {
    var payload :- IssuerPayload(lib, raw);
    var walk := VisitAll(lib, Walk(ClearClaims(payload), None), Segments(raw));
    Ok(DecodedSdJwt(OrDefault(StringField(payload, "vct"), "unknown"), walk.claims,
                    OrDefault(StringField(payload, "iss"), "sd-jwt-issuer"),
                    TimeField(lib, payload, "iat"), TimeField(lib, payload, "exp"), walk.nonce))
  }

  /** The decoding loop, updating claims and nonce segment by segment. */
  method DecodePresentation(lib: Library, raw: string) returns (r: Result<DecodedSdJwt, string>)
    ensures r == Decoded(lib, raw)
  {
    var payload :- IssuerPayload(lib, raw);
    var claims, nonce := ClearClaims(payload), None;
    var segments := Segments(raw);
    for i := 0 to |segments|
      invariant Walk(claims, nonce) == VisitAll(lib, Walk(ClearClaims(payload), None), segments[..i])
    {
      assert segments[..i + 1][..i] == segments[..i];
      var segment := segments[i];
      if segment == "" { continue; }
      if LooksLikeKbJwt(segment) {
        var kb := ReadPayload(lib, Split(segment, '.')[1]);
        if kb.Some? { nonce := StringField(kb.value, "nonce"); }
        continue;
      }
      var disclosure := ReadPayload(lib, segment);
      if disclosure.Some? && disclosure.value.JArray? &&
         |disclosure.value.items| == 3 && disclosure.value.items[1].JString? {
        claims := claims[disclosure.value.items[1].s := disclosure.value.items[2]];
      }
    }
    assert segments[..|segments|] == segments;
    return Ok(DecodedSdJwt(OrDefault(StringField(payload, "vct"), "unknown"), claims,
                           OrDefault(StringField(payload, "iss"), "sd-jwt-issuer"),
                           TimeField(lib, payload, "iat"), TimeField(lib, payload, "exp"), nonce));
  }

  // ---------------------------------------------------------------- where a claim comes from

  /** The segment is a readable disclosure of `name = value`. */
  ghost predicate Discloses(lib: Library, segment: string, name: string, value: Json) {
    && segment != "" && !LooksLikeKbJwt(segment)
    && exists salt :: ReadPayload(lib, segment) == Some(JArray([salt, JString(name), value]))
  }

  ghost predicate DisclosedIn(lib: Library, segments: seq<string>, name: string) {
    exists i, value :: 0 <= i < |segments| && Discloses(lib, segments[i], name, value)
  }

  /** Segment `i` discloses `name = value` and no later segment discloses that name. */
  ghost predicate DisclosesLast(lib: Library, segments: seq<string>, i: nat, name: string, value: Json) {
    && i < |segments| && Discloses(lib, segments[i], name, value)
    && forall j, other :: i < j < |segments| ==> !Discloses(lib, segments[j], name, other)
  }

  lemma {:induction false} VisitDisclosure(lib: Library, w: Walk, segment: string, name: string)
    ensures forall value :: Discloses(lib, segment, name, value) ==>
              name in Visit(lib, w, segment).claims && Visit(lib, w, segment).claims[name] == value
    ensures (forall value :: !Discloses(lib, segment, name, value)) ==>
              (name in Visit(lib, w, segment).claims <==> name in w.claims) &&
              (name in w.claims ==> Visit(lib, w, segment).claims[name] == w.claims[name])
  {
    match ReadPayload(lib, segment)
    case Some(JArray(items)) =>
      if |items| == 3 && items[1].JString? && segment != "" && !LooksLikeKbJwt(segment) {
        assert items == [items[0], JString(items[1].s), items[2]];
        assert Discloses(lib, segment, items[1].s, items[2]);
      }
    case _ =>
  }

  /** The last disclosure of a name decides its value; a name nobody discloses keeps the issuer's clear value. */
  lemma {:induction false} LastDisclosureWins(lib: Library, w: Walk, segments: seq<string>, name: string)
    ensures name in VisitAll(lib, w, segments).claims <==> name in w.claims || DisclosedIn(lib, segments, name)
    ensures forall i: nat, value :: DisclosesLast(lib, segments, i, name, value) ==>
              name in VisitAll(lib, w, segments).claims && VisitAll(lib, w, segments).claims[name] == value
    ensures name in w.claims && !DisclosedIn(lib, segments, name) ==>
              VisitAll(lib, w, segments).claims[name] == w.claims[name]
  {
    if segments != [] {
      var n := |segments| - 1;
      var before := segments[..n];
      LastDisclosureWins(lib, w, before, name);
      VisitDisclosure(lib, VisitAll(lib, w, before), segments[n], name);
      assert forall i :: 0 <= i < n ==> before[i] == segments[i];
      if DisclosedIn(lib, before, name) {
        var i, value :| 0 <= i < |before| && Discloses(lib, before[i], name, value);
        assert Discloses(lib, segments[i], name, value);
      }
      forall i: nat, value | i < n && DisclosesLast(lib, segments, i, name, value)
        ensures DisclosesLast(lib, before, i, name, value)
      {
      }
    }
  }

  // ---------------------------------------------------------------- signatures

  /** `rfind` over the non-empty segments. */
  function LastKbJwt(segments: seq<string>): (r: Option<string>)
    ensures r.Some? ==> LooksLikeKbJwt(r.value) && r.value in segments
  {
    if segments == [] then None
    else
      var last := segments[|segments| - 1];
      if LooksLikeKbJwt(last) then Some(last) else LastKbJwt(segments[..|segments| - 1])
  }

  function HolderJwk(issuerClaims: Json): Option<Json> {
    match Field(issuerClaims, "cnf")
    case Some(cnf) => Field(cnf, "jwk")
    case None => None
  }

  /** The Key Binding JWT verifies under the holder key the issuer bound. */
  ghost predicate KbJwtSigned(lib: Library, issuerClaims: Json, kb: string) {
    && lib.header(kb).Some? && HolderJwk(issuerClaims).Some?
    && var alg := lib.header(kb).value.alg;
       var key := lib.keyFromJwk(HolderJwk(issuerClaims).value, alg);
       key.Ok? && JwtDecode(lib, kb, key.value, alg).Some?
  }

  /** `verify_kb_jwt`: appends one error exactly when it fails. */
  method VerifyKbJwt(lib: Library, segments: seq<string>, issuerClaims: Json, errorsBefore: seq<string>)
    returns (valid: bool, errors: seq<string>)
    ensures valid <==> LastKbJwt(segments).None? || KbJwtSigned(lib, issuerClaims, LastKbJwt(segments).value)
    ensures errorsBefore <= errors
    ensures |errors| == |errorsBefore| + if valid then 0 else 1
  {
    errors := errorsBefore;
    var kb := LastKbJwt(segments);
    if kb.None? { return true, errors; }
    var header := lib.header(kb.value);
    if header.None? { return false, errors + ["KB-JWT header decode failed"]; }
    var jwk := HolderJwk(issuerClaims);
    if jwk.None? { return false, errors + ["issuer payload has no cnf.jwk"]; }
    var key := lib.keyFromJwk(jwk.value, header.value.alg);
    if key.Err? { return false, errors + ["cnf.jwk key extraction failed"]; }
    if JwtDecode(lib, kb.value, key.value, header.value.alg).None? {
      return false, errors + ["KB-JWT signature invalid"];
    }
    return true, errors;
  }

  datatype SigResult = SigResult(
    issuerValid: bool, kbValid: bool, issuerTrusted: bool, skipped: bool, errors: seq<string>)

  /** The issuer JWT's verified claims and the trust of its certificate, if it verifies. */
  function IssuerClaims(lib: Library, raw: string): Option<(Json, bool)> {
    var token := BeforeFirst(raw, '~');
    match lib.header(token)
    case None => None
    case Some(h) =>
      if h.x5c.None? || h.x5c.value == [] then None
      else
        match lib.keyFromX5c(h.x5c.value, h.alg)
        case Err(_) => None
        case Ok((key, trusted)) =>
          match JwtDecode(lib, token, key, h.alg)
          case None => None
          case Some(claims) => Some((claims, trusted))
  }

  /** `verify_sd_jwt_signatures`. */
  method VerifySignatures(lib: Library, raw: string) returns (r: SigResult)
    ensures !r.skipped
    ensures r.issuerValid <==> IssuerClaims(lib, raw).Some?
    ensures r.issuerValid ==> r.issuerTrusted == IssuerClaims(lib, raw).value.1
    ensures r.kbValid <==>
      && r.issuerValid
      && (LastKbJwt(Segments(raw)).None? ||
          KbJwtSigned(lib, IssuerClaims(lib, raw).value.0, LastKbJwt(Segments(raw)).value))
    ensures r.errors == [] <==> r.issuerValid && r.kbValid
  {
    var token := BeforeFirst(raw, '~');
    var errors := [];
    var header := lib.header(token);
    if header.None? {
      return SigResult(false, false, false, false, errors + ["failed to decode issuer JWT header"]);
    }
    if header.value.x5c.None? || header.value.x5c.value == [] {
      return SigResult(false, false, false, false, errors + ["issuer JWT is missing the required x5c header"]);
    }
    var extracted := lib.keyFromX5c(header.value.x5c.value, header.value.alg);
    if extracted.Err? {
      return SigResult(false, false, false, false, errors + ["x5c key extraction failed"]);
    }
    var (key, trusted) := extracted.value;
    var claims := JwtDecode(lib, token, key, header.value.alg);
    if claims.None? {
      return SigResult(false, false, trusted, false, errors + ["issuer JWT signature invalid"]);
    }
    var kbValid;
    kbValid, errors := VerifyKbJwt(lib, Segments(raw), claims.value, errors);
    return SigResult(true, kbValid, trusted, false, errors);
  }

  // ---------------------------------------------------------------- verdict

  datatype Verdict = Verdict(
    isValid: bool, signatureValid: bool, notExpired: bool, issuerTrusted: bool, errors: seq<string>)

  predicate NotExpired(lib: Library, expiresAt: Option<string>, now: int) {
    expiresAt.Some? && lib.parseTime(expiresAt.value).Some? ==> lib.parseTime(expiresAt.value).value >= now
  }

  predicate NonceMatches(server: Option<string>, token: Option<string>) {
    server.Some? && token.Some? ==> server == token
  }

  /** The last block of `verify_vp_token`: what the signature pass found. */
  method CheckSignatures(sig: SigResult, errorsBefore: seq<string>) returns (valid: bool, errors: seq<string>)
    ensures valid <==> (!sig.skipped ==> sig.issuerValid && sig.kbValid)
    ensures errors == [] <==> errorsBefore == [] && valid && (sig.skipped || sig.errors == [])
  {
    valid, errors := true, errorsBefore;
    if !sig.skipped {
      if !sig.issuerValid {
        errors := errors + ["Issuer JWT signature verification failed"];
        valid := false;
      }
      if !sig.kbValid {
        errors := errors + ["KB-JWT signature verification failed"];
        valid := false;
      }
      errors := errors + sig.errors;
    }
  }

  /** `verify_vp_token`: every failing check pushes an error, no passing check does. */
  method VerifyVpToken(
    lib: Library, expiresAt: Option<string>, hasIssuer: bool, tokenNonce: Option<string>,
    serverNonce: Option<string>, sig: SigResult, now: int)
    returns (r: Verdict)
    ensures r.errors == [] <==> r.isValid && (sig.skipped || sig.errors == [])
    ensures r.isValid <==>
      && (!sig.skipped ==> sig.issuerValid && sig.kbValid)
      && NotExpired(lib, expiresAt, now)
      && (if sig.skipped then hasIssuer else sig.issuerTrusted)
      && NonceMatches(serverNonce, tokenNonce)
  {
    var errors: seq<string> := [];
    var notExpired := true;
    if expiresAt.Some? && lib.parseTime(expiresAt.value).Some? && lib.parseTime(expiresAt.value).value < now {
      errors := errors + ["Credential has expired"];
      notExpired := false;
    }
    assert errors == [] <==> notExpired;
    var issuerTrusted := if sig.skipped then hasIssuer else sig.issuerTrusted;
    if !issuerTrusted {
      errors := errors + [if sig.skipped then "No issuer specified in credential"
                          else "Issuer certificate does not chain to a trusted CA"];
    }
    assert errors == [] <==> notExpired && issuerTrusted;
    var nonceValid := true;
    if serverNonce.Some? && tokenNonce.Some? && serverNonce.value != tokenNonce.value {
      errors := errors + ["Nonce mismatch"];
      nonceValid := false;
    }
    assert errors == [] <==> notExpired && issuerTrusted && nonceValid;
    var signatureValid;
    signatureValid, errors := CheckSignatures(sig, errors);
    return Verdict(signatureValid && notExpired && issuerTrusted && nonceValid, signatureValid, notExpired,
                   issuerTrusted, errors);
  }

  // ---------------------------------------------------------------- the two passes meet

  lemma {:induction false} NonceWithoutKb(lib: Library, w: Walk, segments: seq<string>)
    requires LastKbJwt(segments).None?
    ensures VisitAll(lib, w, segments).nonce == w.nonce
  {
    if segments != [] { NonceWithoutKb(lib, w, segments[..|segments| - 1]); }
  }

  /** If the last KB-JWT's payload reads, the nonce the decoder ends with is the one in that payload,
      however many other segments looked like KB-JWTs. */
  lemma {:induction false} NonceOfLastKb(lib: Library, w: Walk, segments: seq<string>)
    requires LastKbJwt(segments).Some?
    requires ReadPayload(lib, Split(LastKbJwt(segments).value, '.')[1]).Some?
    ensures VisitAll(lib, w, segments).nonce ==
            StringField(ReadPayload(lib, Split(LastKbJwt(segments).value, '.')[1]).value, "nonce")
  {
    var n := |segments| - 1;
    if !LooksLikeKbJwt(segments[n]) { NonceOfLastKb(lib, w, segments[..n]); }
  }

  /** When the checked KB-JWT verifies, the decoder's nonce is exactly the nonce claim under that signature. */
  lemma {:induction false} DecodedNonceIsSigned(lib: Library, raw: string, issuerClaims: Json)
    requires Decoded(lib, raw).Ok?
    requires LastKbJwt(Segments(raw)).Some? ==> KbJwtSigned(lib, issuerClaims, LastKbJwt(Segments(raw)).value)
    ensures var nonce := Decoded(lib, raw).value.nonce;
            match LastKbJwt(Segments(raw))
            case None => nonce == None
            case Some(kb) =>
              var alg := lib.header(kb).value.alg;
              var key := lib.keyFromJwk(HolderJwk(issuerClaims).value, alg).value;
              nonce == StringField(JwtDecode(lib, kb, key, alg).value, "nonce")
  {
    var w := Walk(ClearClaims(IssuerPayload(lib, raw).value), None);
    if LastKbJwt(Segments(raw)).None? { NonceWithoutKb(lib, w, Segments(raw)); }
    else { NonceOfLastKb(lib, w, Segments(raw)); }
  }

  /** `verify_vp_token_against_cas` for an SD-JWT presentation: client check, decode, signatures, verdict. */
  method VerifyAgainst(
    lib: Library, raw: string, serverNonce: Option<string>, transactionClient: Option<string>, client: Option<string>,
    now: int)
    returns (r: Result<(DecodedSdJwt, Verdict), string>)
    ensures r.Ok? <==> Decoded(lib, raw).Ok? &&
                       (transactionClient.Some? && client.Some? ==> transactionClient == client)
    ensures r.Ok? ==> r.value.0 == Decoded(lib, raw).value && (r.value.1.isValid <==> r.value.1.errors == [])
    ensures r.Ok? ==> (r.value.1.isValid <==> Accepted(lib, raw, serverNonce, now))
  {
    if transactionClient.Some? && client.Some? && transactionClient.value != client.value {
      return Err("client_id does not match the transaction-bound request");
    }
    var decoded :- DecodePresentation(lib, raw);
    var sig := VerifySignatures(lib, raw);
    var verdict := VerifyVpToken(lib, decoded.expiresAt, true, decoded.nonce, serverNonce, sig, now);
    if sig.kbValid {
      DecodedNonceIsSigned(lib, raw, IssuerClaims(lib, raw).value.0);
    }
    return Ok((decoded, verdict));
  }

  /** The issuer JWT verifies under a trusted certificate, and if the holder's signed KB-JWT names a nonce it
      is the transaction's. */
  ghost predicate SessionBound(lib: Library, raw: string, serverNonce: Option<string>) {
    && IssuerClaims(lib, raw).Some? && IssuerClaims(lib, raw).value.1
    && match LastKbJwt(Segments(raw))
       case None => true
       case Some(kb) =>
         && KbJwtSigned(lib, IssuerClaims(lib, raw).value.0, kb)
         && var alg := lib.header(kb).value.alg;
            var key := lib.keyFromJwk(HolderJwk(IssuerClaims(lib, raw).value.0).value, alg).value;
            NonceMatches(serverNonce, StringField(JwtDecode(lib, kb, key, alg).value, "nonce"))
  }

  /** The verdict of `VerifyAgainst` as a predicate on values. */
  ghost predicate Accepted(lib: Library, raw: string, serverNonce: Option<string>, now: int) {
    && Decoded(lib, raw).Ok? && SessionBound(lib, raw, serverNonce)
    && NotExpired(lib, Decoded(lib, raw).value.expiresAt, now)
  }

  // ---------------------------------------------------------------- what an accepted token stands for

  /** Both passes read the issuer JWT: the claims the decoder reads without a signature are the ones the
      signature pass verified, under the key of a trusted certificate. */
  lemma {:induction false} AcceptedPayloadIsSigned(lib: Library, raw: string, serverNonce: Option<string>, now: int)
    requires Accepted(lib, raw, serverNonce, now)
    ensures IssuerPayload(lib, raw) == Ok(IssuerClaims(lib, raw).value.0)
    ensures var token := BeforeFirst(raw, '~');
            && lib.header(token).Some? && lib.header(token).value.x5c.Some?
            && var h := lib.header(token).value;
               var issuer := lib.keyFromX5c(h.x5c.value, h.alg);
               issuer.Ok? && issuer.value.1 && lib.accepts(token, issuer.value.0, h.alg)
  {
  }

  /** The nonce under the holder's signature: none without a KB-JWT or when its claims name none. */
  ghost function SignedNonce(lib: Library, raw: string): Option<string> {
    match (IssuerClaims(lib, raw), LastKbJwt(Segments(raw)))
    case (Some(issuer), Some(kb)) =>
      if KbJwtSigned(lib, issuer.0, kb) then
        var alg := lib.header(kb).value.alg;
        var key := lib.keyFromJwk(HolderJwk(issuer.0).value, alg).value;
        StringField(JwtDecode(lib, kb, key, alg).value, "nonce")
      else None
    case _ => None
  }

  /** The decoder's nonce of an accepted token is the signed one, and if there is one it is the server's. */
  lemma {:induction false} AcceptedNonceIsSigned(lib: Library, raw: string, serverNonce: Option<string>, now: int)
    requires Accepted(lib, raw, serverNonce, now)
    ensures Decoded(lib, raw).value.nonce == SignedNonce(lib, raw)
    ensures serverNonce.Some? && SignedNonce(lib, raw).Some? ==> SignedNonce(lib, raw) == serverNonce
  {
    DecodedNonceIsSigned(lib, raw, IssuerClaims(lib, raw).value.0);
  }

  lemma {:induction false} LastDisclosure(
    lib: Library, segments: seq<string>, name: string) returns (i: nat, value: Json)
    requires DisclosedIn(lib, segments, name)
    ensures DisclosesLast(lib, segments, i, name, value)
  {
    var n := |segments| - 1;
    if v :| Discloses(lib, segments[n], name, v) {
      i, value := n, v;
    } else {
      var k, v :| 0 <= k < |segments| && Discloses(lib, segments[k], name, v);
      assert segments[..n][k] == segments[k];
      i, value := LastDisclosure(lib, segments[..n], name);
      assert forall j :: 0 <= j < n ==> segments[..n][j] == segments[j];
    }
  }

  /** `name = value` is what the last disclosure of the name says, or, if there is none, a clear claim under the
      issuer's signature. */
  ghost predicate Backed(lib: Library, raw: string, name: string, value: Json)
    requires IssuerClaims(lib, raw).Some?
  {
    var clear := ClearClaims(IssuerClaims(lib, raw).value.0);
    || (exists i: nat :: DisclosesLast(lib, Segments(raw), i, name, value))
    || (!DisclosedIn(lib, Segments(raw), name) && name in clear && clear[name] == value)
  }

  lemma {:induction false} AcceptedClaimIsBacked(
    lib: Library, raw: string, serverNonce: Option<string>, now: int, name: string)
    requires Accepted(lib, raw, serverNonce, now) && name in Decoded(lib, raw).value.claims
    ensures Backed(lib, raw, name, Decoded(lib, raw).value.claims[name])
  {
    AcceptedPayloadIsSigned(lib, raw, serverNonce, now);
    var w := Walk(ClearClaims(IssuerClaims(lib, raw).value.0), None);
    LastDisclosureWins(lib, w, Segments(raw), name);
    if DisclosedIn(lib, Segments(raw), name) {
      var i, value := LastDisclosure(lib, Segments(raw), name);
    }
  }

  /** Everything an accepted token yields: type, issuer and times are those of the signed payload, and every
      claim is backed. */
  lemma {:induction false} AcceptedTokenIsBacked(lib: Library, raw: string, serverNonce: Option<string>, now: int)
    requires Accepted(lib, raw, serverNonce, now)
    ensures var d, payload := Decoded(lib, raw).value, IssuerClaims(lib, raw).value.0;
            && d.vct == OrDefault(StringField(payload, "vct"), "unknown")
            && d.issuer == OrDefault(StringField(payload, "iss"), "sd-jwt-issuer")
            && d.issuedAt == TimeField(lib, payload, "iat") && d.expiresAt == TimeField(lib, payload, "exp")
            && forall name | name in d.claims :: Backed(lib, raw, name, d.claims[name])
  {
    AcceptedPayloadIsSigned(lib, raw, serverNonce, now);
    forall name | name in Decoded(lib, raw).value.claims
      ensures Backed(lib, raw, name, Decoded(lib, raw).value.claims[name])
    {
      AcceptedClaimIsBacked(lib, raw, serverNonce, now, name);
    }
  }
}
