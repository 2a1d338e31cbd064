/** Verification of a VP token against a stored transaction, and what it means for the transaction. */
module VpTokens {
  import opened Prelude
  import opened Json
  import opened TransactionStore
  import opened TransactionRuns
  import opened UncheckedRows
  import Cbor
  import Dcql
  import MdocLibrary
  import MdocDecoder
  import MdocVerification
  import MdocSoundness
  import MdocIssuing
  import MdocRoundTrip
  import MdocReplay
  import SdJwt
  import Presentations = SdJwtPresentations

  // ---------------------------------------------------------------- parsing

  datatype VpToken = VpToken(
    docType: string, namespace: string, claims: Option<Json>, issuer: Option<string>, expiresAt: Option<string>,
    nonce: Option<string>, rawSdJwt: Option<string>, rawMdoc: Option<string>, nameSpaces: Option<Json>)

  /** A token read as an object of presentation lists: its first entry in the order of the hash map. */
  datatype Wrapper = NotWrapped | NoEntries | Entry(credentialId: string, presentations: seq<Json>)

  /** `wrapper`, `fromJson` and `fromText` are the JSON library; the latter two leave the nonce and both
      raw fields empty. */
  datatype Environment = Environment(
    mdoc: MdocLibrary.Library, sdJwt: SdJwt.Library,
    wrapper: string -> Wrapper, fromJson: Json -> Option<VpToken>, fromText: string -> Option<VpToken>,
    thumbprint: Option<Bytes>)

  function Plain(token: Option<VpToken>): Result<VpToken, string> {
    if token.Some? then Ok(token.value.(nonce := None, rawSdJwt := None, rawMdoc := None))
    else Err("invalid VP token format")
  }

  function FromSdJwt(d: SdJwt.DecodedSdJwt, raw: string): VpToken {
    VpToken(d.vct, d.vct, Some(JObject(d.claims)), Some(d.issuer), d.expiresAt, d.nonce, Some(raw), None, None)
  }

  ghost function FromMdoc(d: MdocDecoder.DecodedMdoc, raw: string): VpToken
    requires d.namespaces != map[]
  {
    VpToken(d.docType, Least(d.namespaces.Keys), Some(MdocVerification.ClaimsJson(d.namespaces)), Some("mdoc-issuer"),
            None, None, None, Some(raw), None)
  }

  /** `parse_vp_token`: a `~` makes a string an SD-JWT, any other string is taken for an mDoc. */
  ghost function ParseVpToken(env: Environment, token: string): Result<VpToken, string> {
    match env.wrapper(token)
    case NotWrapped => Plain(env.fromText(token))
    case NoEntries => Err("VP token has no presentations")
    case Entry(_, presentations) =>
      if presentations == [] then Err("VP token has no presentations")
      else
        match presentations[0]
        case JString(s) =>
          if '~' in s then
            var decoded :- SdJwt.Decoded(env.sdJwt, s);
            Ok(FromSdJwt(decoded, s))
          else
            var decoded :- MdocDecoder.DecodePresentation(env.mdoc, s);
            if decoded.namespaces == map[] then Err("mDoc contains no namespaces") else Ok(FromMdoc(decoded, s))
        case JObject(_) => Plain(env.fromJson(presentations[0]))
        case _ => Err("VP token has no presentations")
  }

  // ---------------------------------------------------------------- verification

  datatype Outcome = Outcome(claims: Json, docType: string, namespace: string, isValid: bool)

  /** The session an mDoc must have been signed for. */
  function SessionOf(env: Environment, tx: Transaction): MdocVerification.Session {
    MdocVerification.Session(tx.clientId, tx.nonce, tx.responseUri, tx.encrypted, env.thumbprint)
  }

  function ExtractClaims(t: VpToken): Json {
    if t.claims.Some? then t.claims.value else if t.nameSpaces.Some? then t.nameSpaces.value else JObject(map[])
  }

  ghost predicate TokenHolds(env: Environment, t: VpToken, serverNonce: Option<string>, now: int) {
    && SdJwt.NotExpired(env.sdJwt, t.expiresAt, now)
    && SdJwt.NonceMatches(serverNonce, t.nonce)
    && match t.rawSdJwt
       case None => t.issuer.Some?
       case Some(raw) =>
         && SdJwt.IssuerClaims(env.sdJwt, raw).Some? && SdJwt.IssuerClaims(env.sdJwt, raw).value.1
         && var kb := SdJwt.LastKbJwt(SdJwt.Segments(raw));
            kb.None? || SdJwt.KbJwtSigned(env.sdJwt, SdJwt.IssuerClaims(env.sdJwt, raw).value.0, kb.value)
  }

  /** `verify_vp_token_against_cas`. */
  ghost function VerifyAgainstCas(
    env: Environment, token: string, transaction: Option<Transaction>, client: Option<string>, now: int)
    : Result<Outcome, string>
  {
    if transaction.Some? && client.Some? && transaction.value.clientId != client.value then
      Err("client_id does not match the transaction-bound request")
    else
      var t :- ParseVpToken(env, token);
      match t.rawMdoc
      case Some(raw) =>
        var tx :- OrElse(transaction, "state is required for mDoc verification");
        var r :- MdocVerification.VerifyPresentation(env.mdoc, raw, SessionOf(env, tx), now);
        if !r.notExpired then Err("credential has expired")
        else if !r.issuerTrusted then Err("issuer chain is not in the trusted CA list")
        else Ok(Outcome(r.claims, r.docType, r.namespace, true))
      case None =>
        var nonce := if transaction.Some? then Some(transaction.value.nonce) else None;
        Ok(Outcome(ExtractClaims(t), t.docType, t.namespace, TokenHolds(env, t, nonce, now)))
  }

  /** What the poll of a QR transaction asks: no client_id is supplied. */
  ghost predicate Accepts(env: Environment, token: string, transaction: Option<Transaction>, now: int) {
    var r := VerifyAgainstCas(env, token, transaction, None, now);
    r.Ok? && r.value.isValid
  }

  ghost function VerdictOf(env: Environment): Verifier {
    (token, transaction, now) => Accepts(env, token, transaction, now)
  }

  /** A client_id that is supplied must be the transaction's; then, or without a transaction, it plays no part. */
  lemma {:induction false} ClientMustMatch(
    env: Environment, token: string, transaction: Option<Transaction>, client: string, now: int)
    ensures transaction.Some? && transaction.value.clientId != client ==>
              VerifyAgainstCas(env, token, transaction, Some(client), now).Err?
    ensures transaction.None? || transaction.value.clientId == client ==>
              VerifyAgainstCas(env, token, transaction, Some(client), now) ==
              VerifyAgainstCas(env, token, transaction, None, now)
  {
  }

  // ---------------------------------------------------------------- what acceptance means

  /** What the poll asks of a token for a found transaction: an mDoc of a trusted issuer signed by its holder
      for this very session; or an SD-JWT of a trusted issuer whose signed Key Binding JWT, if there is
      one, does not name another nonce; or unexpired plain JSON that names an issuer. */
  ghost predicate Admitted(env: Environment, token: string, tx: Transaction, at: int) {
    && ParseVpToken(env, token).Ok?
    && var t := ParseVpToken(env, token).value;
       if t.rawMdoc.Some? then
         var r := MdocVerification.VerifyPresentation(env.mdoc, t.rawMdoc.value, SessionOf(env, tx), at);
         r.Ok? && r.value.issuerTrusted && r.value.notExpired
       else if t.rawSdJwt.Some? then SdJwt.Accepted(env.sdJwt, t.rawSdJwt.value, Some(tx.nonce), at)
       else t.issuer.Some? && SdJwt.NotExpired(env.sdJwt, t.expiresAt, at)
  }

  /** The nonce the SD-JWT verdict compares is the signed one: the two passes of the code amount to `Accepted`. */
  lemma {:induction false} SdJwtHoldsIffAccepted(env: Environment, raw: string, serverNonce: Option<string>, now: int)
    requires SdJwt.Decoded(env.sdJwt, raw).Ok?
    ensures TokenHolds(env, FromSdJwt(SdJwt.Decoded(env.sdJwt, raw).value, raw), serverNonce, now) <==>
            SdJwt.Accepted(env.sdJwt, raw, serverNonce, now)
  {
    var issuer := SdJwt.IssuerClaims(env.sdJwt, raw);
    var kb := SdJwt.LastKbJwt(SdJwt.Segments(raw));
    if issuer.Some? && (kb.None? || SdJwt.KbJwtSigned(env.sdJwt, issuer.value.0, kb.value)) {
      SdJwt.DecodedNonceIsSigned(env.sdJwt, raw, issuer.value.0);
    }
  }

  lemma {:induction false} AcceptsMdocIffAdmitted(
    env: Environment, token: string, tx: Transaction, now: int, t: VpToken)
    requires ParseVpToken(env, token) == Ok(t) && t.rawMdoc.Some?
    ensures Accepts(env, token, Some(tx), now) <==> Admitted(env, token, tx, now)
  {
  }

  /** A token that parses to an SD-JWT is its decoding. */
  lemma {:induction false} SdJwtTokenIsDecoded(env: Environment, token: string, t: VpToken)
    requires ParseVpToken(env, token) == Ok(t) && t.rawSdJwt.Some?
    ensures SdJwt.Decoded(env.sdJwt, t.rawSdJwt.value).Ok?
    ensures t == FromSdJwt(SdJwt.Decoded(env.sdJwt, t.rawSdJwt.value).value, t.rawSdJwt.value)
  {
  }

  lemma {:induction false} AcceptsOtherIffAdmitted(
    env: Environment, token: string, tx: Transaction, now: int, t: VpToken)
    requires ParseVpToken(env, token) == Ok(t) && t.rawMdoc.None?
    requires t.rawSdJwt.None? ==> t.nonce.None?
    ensures Accepts(env, token, Some(tx), now) <==> Admitted(env, token, tx, now)
  {
    if t.rawSdJwt.Some? {
      SdJwtTokenIsDecoded(env, token, t);
      SdJwtHoldsIffAccepted(env, t.rawSdJwt.value, Some(tx.nonce), now);
    }
  }

  lemma {:induction false} PlainTokenHasNoNonce(env: Environment, token: string, t: VpToken)
    requires ParseVpToken(env, token) == Ok(t) && t.rawMdoc.None? && t.rawSdJwt.None?
    ensures t.nonce.None?
  {
  }

  /** The poll accepts a token for a transaction exactly when it is admitted. */
  lemma {:induction false} AcceptsIffAdmitted(env: Environment, token: string, tx: Transaction, now: int)
    ensures Accepts(env, token, Some(tx), now) <==> Admitted(env, token, tx, now)
  {
    var parsed := ParseVpToken(env, token);
    if parsed.Ok? {
      if parsed.value.rawMdoc.Some? { AcceptsMdocIffAdmitted(env, token, tx, now, parsed.value); }
      else {
        if parsed.value.rawSdJwt.None? { PlainTokenHasNoNonce(env, token, parsed.value); }
        AcceptsOtherIffAdmitted(env, token, tx, now, parsed.value);
      }
    }
  }

  // ---------------------------------------------------------------- what ties a token to the session

  /** The holder's signature covers this transaction: an mDoc accepted for its session, or an SD-JWT with a
      signed Key Binding JWT that names its nonce. */
  ghost predicate BoundToSession(env: Environment, token: string, tx: Transaction, at: int) {
    && ParseVpToken(env, token).Ok?
    && var t := ParseVpToken(env, token).value;
       if t.rawMdoc.Some? then
         MdocVerification.VerifyPresentation(env.mdoc, t.rawMdoc.value, SessionOf(env, tx), at).Ok?
       else
         t.rawSdJwt.Some? && SdJwt.SignedNonce(env.sdJwt, t.rawSdJwt.value) == Some(tx.nonce)
  }

  /** The token is an mDoc, or an SD-JWT in which the decoder found a nonce. */
  ghost predicate CarriesBinding(env: Environment, token: string) {
    && ParseVpToken(env, token).Ok?
    && var t := ParseVpToken(env, token).value;
       t.rawMdoc.Some? || (t.rawSdJwt.Some? && t.nonce.Some?)
  }

  /** An admitted token is bound to the session if and only if it carries a binding at all. */
  lemma {:induction false} BoundIffCarriesBinding(env: Environment, token: string, tx: Transaction, at: int)
    requires Admitted(env, token, tx, at)
    ensures BoundToSession(env, token, tx, at) <==> CarriesBinding(env, token)
  {
    var t := ParseVpToken(env, token).value;
    if t.rawMdoc.None? && t.rawSdJwt.Some? {
      SdJwtTokenIsDecoded(env, token, t);
      SdJwt.AcceptedNonceIsSigned(env.sdJwt, t.rawSdJwt.value, Some(tx.nonce), at);
    }
  }

  /** What a Verified transaction rests on: an admitted token, bound to the session exactly when it carries a
      binding. */
  ghost predicate RestsOn(env: Environment, token: string, tx: Transaction, at: int) {
    Admitted(env, token, tx, at) && (BoundToSession(env, token, tx, at) <==> CarriesBinding(env, token))
  }

  /** An acceptance for a transaction with this session rests on its token. */
  lemma {:induction false} AcceptanceRests(
    env: Environment, valid: Dcql.Query -> bool, clock: int, steps: seq<Step>, a: Acceptance, tx: Transaction)
    requires a in Run(valid, VerdictOf(env), Start(clock), steps).accepted
    requires a.lookup.Some? && SameSession(a.lookup.value, tx)
    ensures RestsOn(env, a.response.vpToken, tx, a.at)
  {
    RecordedWereAccepted(valid, VerdictOf(env), clock, steps, a);
    AcceptsIffAdmitted(env, a.response.vpToken, a.lookup.value, a.at);
    assert SessionOf(env, a.lookup.value) == SessionOf(env, tx);
    BoundIffCarriesBinding(env, a.response.vpToken, tx, a.at);
  }

  /** In every run whose write-backs never bring back a removed row, a transaction is Verified only if a
      response was posted for its own state whose token is admitted for it; the token is bound to its
      client, nonce and response URI, or to its nonce, exactly when it carries a binding. */
  lemma {:induction false} VerifiedMeansAdmitted(
    env: Environment, valid: Dcql.Query -> bool, clock: int, steps: seq<Step>, id: string)
    requires NeverRestores(valid, VerdictOf(env), Start(clock), steps)
    requires id in Run(valid, VerdictOf(env), Start(clock), steps).store
    requires Run(valid, VerdictOf(env), Start(clock), steps).store[id].status == Verified
    ensures var s := Run(valid, VerdictOf(env), Start(clock), steps);
            && id in s.created && SameIdentity(s.store[id], s.created[id])
            && exists a :: a in s.accepted && a.response in s.posted && a.response.state == s.created[id].state &&
                           RestsOn(env, a.response.vpToken, s.created[id], a.at)
  {
    var s := Run(valid, VerdictOf(env), Start(clock), steps);
    RunKeepsInv(valid, VerdictOf(env), Start(clock), steps);
    RunChecksItself(valid, VerdictOf(env), clock, steps);
    assert RowOk(s, s.store[id]) && CheckedItself(s, id);
    var a :| a in s.accepted && a.lookup.Some? && SameIdentity(a.lookup.value, s.created[id]) &&
             a.response in s.posted && a.response.state == s.created[id].state;
    AcceptanceRests(env, valid, clock, steps, a, s.created[id]);
  }

  // ---------------------------------------------------------------- what the returned claims stand for

  /** The claims handed to the relying party: of an mDoc, each is vouched for by the object a trusted issuer
      signed; of an SD-JWT, each is a clear claim a trusted issuer signed or what a disclosure says. */
  ghost predicate ClaimsBacked(env: Environment, t: VpToken, claims: Json) {
    if t.rawMdoc.Some? then
      var o := MdocVerification.Open(env.mdoc, t.rawMdoc.value);
      && o.Ok? && MdocVerification.IssuerObject(env.mdoc, o.value.issuerSigned).Ok?
      && var (mso, trusted) := MdocVerification.IssuerObject(env.mdoc, o.value.issuerSigned).value;
         var namespaces := MdocDecoder.NamespaceClaims(env.mdoc, o.value.nameSpaces);
         && trusted && namespaces != map[] && claims == MdocVerification.ClaimsJson(namespaces)
         && MdocSoundness.AllVouched(env.mdoc, o.value.nameSpaces, mso)
    else if t.rawSdJwt.Some? then
      && claims.JObject? && SdJwt.IssuerClaims(env.sdJwt, t.rawSdJwt.value).Some?
      && SdJwt.IssuerClaims(env.sdJwt, t.rawSdJwt.value).value.1
      && forall name | name in claims.fields :: SdJwt.Backed(env.sdJwt, t.rawSdJwt.value, name, claims.fields[name])
    else true
  }

  lemma {:induction false} MdocClaimsBacked(env: Environment, t: VpToken, tx: Transaction, now: int)
    requires t.rawMdoc.Some?
    requires var r := MdocVerification.VerifyPresentation(env.mdoc, t.rawMdoc.value, SessionOf(env, tx), now);
             r.Ok? && r.value.issuerTrusted
    ensures var r := MdocVerification.VerifyPresentation(env.mdoc, t.rawMdoc.value, SessionOf(env, tx), now);
            ClaimsBacked(env, t, r.value.claims)
  {
    MdocSoundness.AcceptedClaimsAreVouched(env.mdoc, t.rawMdoc.value, SessionOf(env, tx), now);
  }

  lemma {:induction false} SdJwtClaimsBacked(env: Environment, token: string, tx: Transaction, now: int, t: VpToken)
    requires ParseVpToken(env, token) == Ok(t) && t.rawSdJwt.Some? && t.rawMdoc.None?
    requires SdJwt.Accepted(env.sdJwt, t.rawSdJwt.value, Some(tx.nonce), now)
    ensures ClaimsBacked(env, t, ExtractClaims(t))
  {
    SdJwtTokenIsDecoded(env, token, t);
    SdJwt.AcceptedTokenIsBacked(env.sdJwt, t.rawSdJwt.value, Some(tx.nonce), now);
  }

  /** Whatever valid outcome is returned for a found transaction, its claims are backed. */
  lemma {:induction false} ReturnedClaimsAreBacked(env: Environment, token: string, tx: Transaction, now: int)
    requires Accepts(env, token, Some(tx), now)
    ensures ParseVpToken(env, token).Ok?
    ensures ClaimsBacked(env, ParseVpToken(env, token).value,
                         VerifyAgainstCas(env, token, Some(tx), None, now).value.claims)
  {
    AcceptsIffAdmitted(env, token, tx, now);
    var t := ParseVpToken(env, token).value;
    if t.rawMdoc.Some? {
      MdocClaimsBacked(env, t, tx, now);
    } else if t.rawSdJwt.Some? {
      SdJwtClaimsBacked(env, token, tx, now, t);
    }
  }

  // ---------------------------------------------------------------- verification that finds no transaction

  /** Without a transaction an mDoc is refused, an SD-JWT needs no particular nonce, and plain JSON still
      only has to name an issuer and be in time. */
  ghost predicate AdmittedAlone(env: Environment, token: string, at: int) {
    && ParseVpToken(env, token).Ok?
    && var t := ParseVpToken(env, token).value;
       && t.rawMdoc.None?
       && if t.rawSdJwt.Some? then SdJwt.Accepted(env.sdJwt, t.rawSdJwt.value, None, at)
          else t.issuer.Some? && SdJwt.NotExpired(env.sdJwt, t.expiresAt, at)
  }

  lemma {:induction false} AcceptsAloneIffAdmitted(env: Environment, token: string, at: int)
    ensures VerdictOf(env)(token, None, at) <==> AdmittedAlone(env, token, at)
  {
    var parsed := ParseVpToken(env, token);
    if parsed.Ok? && parsed.value.rawSdJwt.Some? {
      SdJwtTokenIsDecoded(env, token, parsed.value);
      SdJwtHoldsIffAccepted(env, parsed.value.rawSdJwt.value, None, at);
    }
  }

  /** The verdict of the poll looks at the session of the transaction and at nothing else of it. */
  lemma {:induction false} VerdictDependsOnSession(env: Environment)
    ensures DependsOnSession(VerdictOf(env))
  {
    forall token, x, y, at | SameSession(x, y)
      ensures VerdictOf(env)(token, Some(x), at) == VerdictOf(env)(token, Some(y), at)
    {
      AcceptsIffAdmitted(env, token, x, at);
      AcceptsIffAdmitted(env, token, y, at);
      assert SessionOf(env, x) == SessionOf(env, y);
    }
  }

  /** From `now` on the token is admitted without this transaction's session: alone, or for another session. */
  ghost predicate AdmittedElsewhere(env: Environment, token: string, tx: Transaction, now: int) {
    || (exists at :: at >= now && AdmittedAlone(env, token, at))
    || (exists at, other :: at >= now && !SameSession(other, tx) && Admitted(env, token, other, at))
  }

  lemma {:induction false} AcceptedElsewhereIffAdmitted(env: Environment, token: string, tx: Transaction, now: int)
    ensures AcceptedElsewhere(VerdictOf(env), token, tx, now) <==> AdmittedElsewhere(env, token, tx, now)
  {
    if AcceptedElsewhere(VerdictOf(env), token, tx, now) {
      var lookup, at :| at >= now && Elsewhere(lookup, tx) && VerdictOf(env)(token, lookup, at);
      if lookup.None? {
        AcceptsAloneIffAdmitted(env, token, at);
      } else {
        AcceptsIffAdmitted(env, token, lookup.value, at);
      }
    }
    if at :| at >= now && AdmittedAlone(env, token, at) {
      AcceptsAloneIffAdmitted(env, token, at);
      var lookup: Option<Transaction> := None;
      assert Elsewhere(lookup, tx) && VerdictOf(env)(token, lookup, at);
    }
    if at, other :| at >= now && !SameSession(other, tx) && Admitted(env, token, other, at) {
      AcceptsIffAdmitted(env, token, other, at);
      var lookup := Some(other);
      assert Elsewhere(lookup, tx) && VerdictOf(env)(token, lookup, at);
    }
  }

  /** Not yet checked, still stored or about to be written back, and either Verified already, or in a task
      that carries it there, or in time while some token is admitted without its session. */
  ghost predicate RowAtRisk(env: Environment, s: System, id: string) {
    && id in s.created && !CheckedSession(s, id) && (id in s.store || PendingWriteBack(s, id))
    && (|| (id in s.store && s.store[id].status == Verified)
        || (exists t :: t in s.tasks && CarriedBy(env, s, s.tasks[t], id))
        || (s.created[id].expiresAt >= s.clock &&
            exists token :: AdmittedElsewhere(env, token, s.created[id], s.clock)))
  }

  ghost predicate CarriedBy(env: Environment, s: System, task: Task, id: string)
    requires id in s.created
  {
    match task
    case WriteBack(copy) => copy.id == id && copy.status == Verified
    case Marking(marked, _) => marked == id
    case Verifying(polled, seen) => polled == id && AdmittedElsewhere(env, seen.vpToken, s.created[id], s.clock)
  }

  lemma {:induction false} AtRiskIffRowAtRisk(env: Environment, s: System, id: string)
    ensures AtRisk(VerdictOf(env), s, id) <==> RowAtRisk(env, s, id)
  {
    if id in s.created {
      forall token ensures AcceptedElsewhere(VerdictOf(env), token, s.created[id], s.clock) <==>
                           AdmittedElsewhere(env, token, s.created[id], s.clock)
      {
        AcceptedElsewhereIffAdmitted(env, token, s.created[id], s.clock);
      }
      assert forall t :: t in s.tasks ==>
             (Carries(VerdictOf(env), s, s.tasks[t], id) <==> CarriedBy(env, s, s.tasks[t], id));
    }
  }

  /** In every reachable state: some continuation, two-step updates included, leaves the transaction Verified
      though it was never checked for its session, if and only if it is at risk now. */
  lemma {:induction false} UncheckedVerifiedIffAtRisk(
    env: Environment, valid: Dcql.Query -> bool, clock: int, steps: seq<Step>, id: string)
    requires id in Run(valid, VerdictOf(env), Start(clock), steps).created
    ensures var s := Run(valid, VerdictOf(env), Start(clock), steps);
            CanGoUnchecked(valid, VerdictOf(env), s, id) <==> RowAtRisk(env, s, id)
  {
    var s := Run(valid, VerdictOf(env), Start(clock), steps);
    RunKeepsInv(valid, VerdictOf(env), Start(clock), steps);
    VerdictDependsOnSession(env);
    UncheckedIffAtRisk(valid, VerdictOf(env), s, id);
    AtRiskIffRowAtRisk(env, s, id);
  }

  /** From a state in which the transaction is not at risk, whatever updates follow, Verified means that a
      response for its own state had a token admitted for it, bound to its session exactly when it
      carries a binding. */
  lemma {:induction false} SafeVerifiedMeansAdmitted(
    env: Environment, valid: Dcql.Query -> bool, clock: int, first: seq<Step>, later: seq<Step>, id: string)
    requires id in Run(valid, VerdictOf(env), Start(clock), first).created
    requires !RowAtRisk(env, Run(valid, VerdictOf(env), Start(clock), first), id)
    ensures var n := Run(valid, VerdictOf(env), Run(valid, VerdictOf(env), Start(clock), first), later);
            id in n.store && n.store[id].status == Verified ==>
              id in n.created &&
              exists a :: a in n.accepted && a.response.state == n.created[id].state &&
                          RestsOn(env, a.response.vpToken, n.created[id], a.at)
  {
    var s := Run(valid, VerdictOf(env), Start(clock), first);
    var n := Run(valid, VerdictOf(env), s, later);
    UncheckedVerifiedIffAtRisk(env, valid, clock, first, id);
    RunConcat(valid, VerdictOf(env), Start(clock), first, later);
    if id in n.store && n.store[id].status == Verified {
      assert !Unchecked(n, id);
      var a :| a in n.accepted && a.response.state == n.created[id].state && a.lookup.Some? &&
               SameSession(a.lookup.value, n.created[id]);
      AcceptanceRests(env, valid, clock, first + later, a, n.created[id]);
    }
  }

  /** The concrete runs of `TransactionRuns` with the verdict of the poll: any token that is admitted without a
      transaction, such as an accepted SD-JWT without a Key Binding JWT, ends in an unchecked Verified row. */
  lemma {:induction false} AdmittedAloneGoesUnchecked(
    env: Environment, valid: Dcql.Query -> bool, clock: int, tx: Transaction, r: Response, elapsed: nat)
    requires Creatable(valid, Start(clock), tx) && r.state == tx.state && clock <= tx.expiresAt
    ensures AdmittedAlone(env, r.vpToken, clock) ==>
              Unchecked(Run(valid, VerdictOf(env), Start(clock), RestoringRun(tx, r)), tx.id)
    ensures AdmittedAlone(env, r.vpToken, clock + elapsed) && tx.expiresAt < clock + elapsed ==>
              Unchecked(Run(valid, VerdictOf(env), Start(clock), ExpiringRun(tx, r, elapsed)), tx.id)
  {
    AcceptsAloneIffAdmitted(env, r.vpToken, clock);
    AcceptsAloneIffAdmitted(env, r.vpToken, clock + elapsed);
    if AdmittedAlone(env, r.vpToken, clock) { RestoredRowUnchecked(valid, VerdictOf(env), clock, tx, r); }
    if AdmittedAlone(env, r.vpToken, clock + elapsed) && tx.expiresAt < clock + elapsed {
      ExpiredRowUnchecked(valid, VerdictOf(env), clock, tx, r, elapsed);
    }
  }

  /** One mDoc presentation is admitted for transactions of one client, nonce and response URI only. */
  lemma {:induction false} OneMdocOneSession(
    env: Environment, token: string, tx: Transaction, other: Transaction, at: int, later: int, raw: string)
    requires Admitted(env, token, tx, at) && Admitted(env, token, other, later)
    requires ParseVpToken(env, token).value.rawMdoc == Some(raw)
    requires MdocVerification.Open(env.mdoc, raw).Ok?
    requires MdocReplay.Separable(env.mdoc, MdocVerification.Open(env.mdoc, raw).value, SessionOf(env, tx),
                                  SessionOf(env, other))
    ensures tx.nonce == other.nonce && tx.clientId == other.clientId && tx.responseUri == other.responseUri
  {
    MdocReplay.AcceptedForOneSessionOnly(env.mdoc, raw, SessionOf(env, tx), SessionOf(env, other), at, later);
  }

  // ---------------------------------------------------------------- an undisturbed poll

  function PostAndPoll(r: Response, t: nat, id: string): seq<Step> {
    [Post(r), PollRead(t, id)] + [PollVerify(t), PollMark(t)]
  }

  lemma {:induction false} RunPostAndPoll(
    valid: Dcql.Query -> bool, accepts: Verifier, s: System, r: Response, t: nat, id: string)
    ensures Run(valid, accepts, s, PostAndPoll(r, t, id)) ==
            AfterMark(AfterVerify(accepts, AfterRead(AfterPost(s, r), t, id), t), t)
  {
    RunConcat(valid, accepts, s, [Post(r), PollRead(t, id)], [PollVerify(t), PollMark(t)]);
    RunTwo(valid, accepts, s, Post(r), PollRead(t, id));
    RunTwo(valid, accepts, AfterRead(AfterPost(s, r), t, id), PollVerify(t), PollMark(t));
  }

  lemma {:induction false} PostStores(valid: Dcql.Query -> bool, s: System, r: Response, id: string)
    requires Inv(valid, s) && id in s.store && r.state == s.store[id].state
    ensures var n := AfterPost(s, r);
            && n.store == s.store[id := Receive(s.store[id], r)] && n.tasks == s.tasks && n.clock == s.clock
            && FindByState(n.store, r.state) == Some(Receive(s.store[id], r))
  {
    FoundIsUnique(s.store, id);
    var n := AfterPost(s, r);
    assert n.store == s.store[id := Receive(s.store[id], r)];
    PostKeepsInv(valid, s, r);
    FoundIsUnique(n.store, id);
  }

  /** A poll of a stored response in time, step by step. */
  lemma {:induction false} PollAfterPost(accepts: Verifier, s: System, r: Response, t: nat, id: string)
    requires t !in s.tasks && id in s.store && s.store[id].status == Received && s.store[id].response == Some(r)
    requires s.store[id].expiresAt >= s.clock && FindByState(s.store, r.state) == Some(s.store[id])
    ensures AfterMark(AfterVerify(accepts, AfterRead(s, t, id), t), t).store == s.store[
              id := if accepts(r.vpToken, Some(s.store[id]), s.clock) then MarkVerified(s.store[id]) else s.store[id]]
  {
    var read := AfterRead(s, t, id);
    assert read.tasks[t] == Verifying(id, r) && read.store == s.store;
  }

  /** What a post and an undisturbed poll leave in the store: an overdue row is gone, any other is Verified
      exactly when the verdict accepts the response against that transaction; no other row changes. */
  ghost function Polled(accepts: Verifier, s: System, r: Response, id: string): Store
    requires id in s.store
  {
    var received := Receive(s.store[id], r);
    if received.expiresAt < s.clock then s.store - {id}
    else s.store[id := if accepts(r.vpToken, Some(received), s.clock) then MarkVerified(received) else received]
  }

  lemma {:induction false} OverduePoll(accepts: Verifier, s: System, t: nat, id: string)
    requires t !in s.tasks && id in s.store && s.store[id].expiresAt < s.clock
    ensures AfterMark(AfterVerify(accepts, AfterRead(s, t, id), t), t).store == s.store - {id}
  {
  }

  lemma {:induction false} PollOfPosted(accepts: Verifier, s: System, posted: System, r: Response, t: nat, id: string)
    requires id in s.store && t !in posted.tasks && posted.clock == s.clock
    requires posted.store == s.store[id := Receive(s.store[id], r)]
    requires FindByState(posted.store, r.state) == Some(Receive(s.store[id], r))
    ensures AfterMark(AfterVerify(accepts, AfterRead(posted, t, id), t), t).store == Polled(accepts, s, r, id)
  {
    if s.store[id].expiresAt < s.clock {
      OverduePoll(accepts, posted, t, id);
      assert posted.store - {id} == s.store - {id};
    } else {
      PollAfterPost(accepts, posted, r, t, id);
    }
  }

  /** A response posted for a stored transaction and polled without interference. */
  lemma {:induction false} PollDecides(
    valid: Dcql.Query -> bool, accepts: Verifier, s: System, r: Response, t: nat, id: string)
    requires Inv(valid, s) && id in s.store && r.state == s.store[id].state && t !in s.tasks
    ensures Run(valid, accepts, s, PostAndPoll(r, t, id)).store == Polled(accepts, s, r, id)
  {
    RunPostAndPoll(valid, accepts, s, r, t, id);
    PostStores(valid, s, r, id);
    PollOfPosted(accepts, s, AfterPost(s, r), r, t, id);
  }

  /** With the verdict of the poll: Verified exactly when the transaction is in time and the token is admitted
      for it. */
  lemma {:induction false} PollVerifiesAdmitted(
    env: Environment, valid: Dcql.Query -> bool, s: System, r: Response, t: nat, id: string)
    requires Inv(valid, s) && id in s.store && r.state == s.store[id].state && t !in s.tasks
    ensures var n := Run(valid, VerdictOf(env), s, PostAndPoll(r, t, id)).store;
            && (id in n <==> s.store[id].expiresAt >= s.clock)
            && (id in n && n[id].status == Verified <==>
                  s.store[id].expiresAt >= s.clock && Admitted(env, r.vpToken, s.store[id], s.clock))
  {
    var tx := s.store[id];
    PollDecides(valid, VerdictOf(env), s, r, t, id);
    AcceptsIffAdmitted(env, r.vpToken, Receive(tx, r), s.clock);
    assert SessionOf(env, Receive(tx, r)) == SessionOf(env, tx);
  }

  /** The plain JSON a token carries: the whole text, or an object as the first presentation of its entry. */
  ghost function PlainJsonOf(env: Environment, token: string): Option<VpToken> {
    if env.wrapper(token) == NotWrapped then env.fromText(token)
    else if env.wrapper(token).Entry? && env.wrapper(token).presentations != [] &&
            env.wrapper(token).presentations[0].JObject?
    then env.fromJson(env.wrapper(token).presentations[0])
    else None
  }

  /** A token that is bound to nothing and still verifies: plain JSON with an issuer and no expiry. */
  lemma {:induction false} PlainJsonVerifies(
    env: Environment, valid: Dcql.Query -> bool, s: System, r: Response, t: nat, id: string)
    requires Inv(valid, s) && id in s.store && r.state == s.store[id].state && t !in s.tasks
    requires s.store[id].expiresAt >= s.clock
    requires PlainJsonOf(env, r.vpToken).Some?
    requires PlainJsonOf(env, r.vpToken).value.issuer.Some? && PlainJsonOf(env, r.vpToken).value.expiresAt.None?
    ensures var n := Run(valid, VerdictOf(env), s, PostAndPoll(r, t, id)).store;
            id in n && n[id].status == Verified
    ensures forall tx, at :: !BoundToSession(env, r.vpToken, tx, at)
  {
    PollVerifiesAdmitted(env, valid, s, r, t, id);
    PlainJsonIsAdmitted(env, r.vpToken, s.store[id], s.clock);
  }

  /** What is returned for plain JSON: its claims, or else its namespaces, or else nothing. */
  lemma {:induction false} PlainJsonIsReturned(env: Environment, token: string, tx: Transaction, now: int)
    requires PlainJsonOf(env, token).Some?
    ensures var t := PlainJsonOf(env, token).value;
            var r := VerifyAgainstCas(env, token, Some(tx), None, now);
            && r.Ok? && r.value.docType == t.docType && r.value.namespace == t.namespace
            && (t.claims.Some? ==> Some(r.value.claims) == t.claims)
            && (t.claims.None? && t.nameSpaces.Some? ==> Some(r.value.claims) == t.nameSpaces)
            && (t.claims.None? && t.nameSpaces.None? ==> r.value.claims == JObject(map[]))
  {
    assert ParseVpToken(env, token) == Plain(PlainJsonOf(env, token));
  }

  lemma {:induction false} PlainJsonIsAdmitted(env: Environment, token: string, tx: Transaction, now: int)
    requires PlainJsonOf(env, token).Some?
    requires PlainJsonOf(env, token).value.issuer.Some? && PlainJsonOf(env, token).value.expiresAt.None?
    ensures Admitted(env, token, tx, now)
    ensures forall other, at :: !BoundToSession(env, token, other, at)
  {
    assert ParseVpToken(env, token) == Plain(PlainJsonOf(env, token));
  }

  // ---------------------------------------------------------------- an SD-JWT presentation, end to end

  /** A presentation put together from its parts, posted to a transaction and polled, turns it Verified if and only if
      the transaction is in time, a trusted issuer signed claims that are in time, and the Key Binding JWT, if
      there is one, is signed under the key bound in them and names no nonce but the transaction's. */
  lemma {:induction false} PresentedSdJwtVerifiesExactly(
    env: Environment, valid: Dcql.Query -> bool, s: System, r: Response, t: nat, id: string,
    issuer: Presentations.Jwt, disclosures: seq<string>, kb: Option<Presentations.Jwt>)
    requires Inv(valid, s) && id in s.store && r.state == s.store[id].state && t !in s.tasks
    requires Presentations.Assembled(issuer, disclosures, kb)
    requires env.wrapper(r.vpToken).Entry? && env.wrapper(r.vpToken).presentations != []
    requires env.wrapper(r.vpToken).presentations[0] == JString(Presentations.Presented(issuer, disclosures, kb))
    ensures var n := Run(valid, VerdictOf(env), s, PostAndPoll(r, t, id)).store;
            && (id in n <==> s.store[id].expiresAt >= s.clock)
            && (id in n && n[id].status == Verified <==>
                  s.store[id].expiresAt >= s.clock &&
                  exists claims :: Presentations.Holds(env.sdJwt, issuer, kb, s.store[id].nonce, s.clock, claims))
  {
    var raw, tx := Presentations.Presented(issuer, disclosures, kb), s.store[id];
    PollVerifiesAdmitted(env, valid, s, r, t, id);
    Presentations.PresentedIsAcceptedExactly(env.sdJwt, issuer, disclosures, kb, tx.nonce, s.clock);
    Presentations.SegmentsOfPresented(issuer, disclosures, kb);
    SeparatorOccurs(raw);
    SdJwtIsAdmitted(env, r.vpToken, raw, tx, s.clock);
  }

  /** A string with the separator in it is parsed as an SD-JWT and nothing else. */
  lemma {:induction false} SdJwtParses(env: Environment, token: string, raw: string)
    requires env.wrapper(token).Entry? && env.wrapper(token).presentations != []
    requires env.wrapper(token).presentations[0] == JString(raw) && '~' in raw
    ensures ParseVpToken(env, token).Ok? <==> SdJwt.Decoded(env.sdJwt, raw).Ok?
    ensures SdJwt.Decoded(env.sdJwt, raw).Ok? ==>
              ParseVpToken(env, token) == Ok(FromSdJwt(SdJwt.Decoded(env.sdJwt, raw).value, raw))
  {
  }

  lemma {:induction false} SdJwtIsAdmitted(env: Environment, token: string, raw: string, tx: Transaction, now: int)
    requires env.wrapper(token).Entry? && env.wrapper(token).presentations != []
    requires env.wrapper(token).presentations[0] == JString(raw) && '~' in raw
    ensures Admitted(env, token, tx, now) <==> SdJwt.Accepted(env.sdJwt, raw, Some(tx.nonce), now)
  {
    SdJwtParses(env, token, raw);
  }

  /** What is returned for such a presentation, whether or not it is valid: the disclosed claims, the last disclosure
      of a name deciding, and the clear ones nobody discloses. */
  lemma {:induction false} PresentedSdJwtIsReturned(
    env: Environment, token: string, tx: Transaction, now: int,
    issuer: Presentations.Jwt, disclosures: seq<string>, kb: Option<Presentations.Jwt>, payload: Json, name: string)
    requires Presentations.Assembled(issuer, disclosures, kb)
    requires env.wrapper(token).Entry? && env.wrapper(token).presentations != []
    requires env.wrapper(token).presentations[0] == JString(Presentations.Presented(issuer, disclosures, kb))
    requires SdJwt.IssuerPayload(env.sdJwt, Presentations.Presented(issuer, disclosures, kb)) == Ok(payload)
    ensures var r := VerifyAgainstCas(env, token, Some(tx), None, now);
            r.Ok? && r.value.claims.JObject? && r.value.docType == r.value.namespace &&
            r.value.docType == SdJwt.OrDefault(StringField(payload, "vct"), "unknown")
    ensures var claims := VerifyAgainstCas(env, token, Some(tx), None, now).value.claims.fields;
            var disclosed := exists i: nat, value :: Presentations.OpensLast(env.sdJwt, disclosures, i, name, value);
            && (name in claims <==> disclosed || Presentations.InClear(payload, name))
            && (forall i: nat, value :: Presentations.OpensLast(env.sdJwt, disclosures, i, name, value) ==>
                  claims[name] == value)
            && (!disclosed && Presentations.InClear(payload, name) ==> claims[name] == payload.fields[name])
  {
    var raw := Presentations.Presented(issuer, disclosures, kb);
    Presentations.PresentedClaims(env.sdJwt, issuer, disclosures, kb, payload, name);
    Presentations.SegmentsOfPresented(issuer, disclosures, kb);
    SeparatorOccurs(raw);
    SdJwtParses(env, token, raw);
    SdJwtIsReturned(env, token, raw, tx, now);
  }

  lemma {:induction false} SdJwtIsReturned(env: Environment, token: string, raw: string, tx: Transaction, now: int)
    requires SdJwt.Decoded(env.sdJwt, raw).Ok?
    requires ParseVpToken(env, token) == Ok(FromSdJwt(SdJwt.Decoded(env.sdJwt, raw).value, raw))
    ensures var d := SdJwt.Decoded(env.sdJwt, raw).value;
            var r := VerifyAgainstCas(env, token, Some(tx), None, now);
            r.Ok? && r.value.claims == JObject(d.claims) && r.value.docType == r.value.namespace == d.vct
  {
  }

  lemma {:induction false} SeparatorOccurs(raw: string)
    requires SdJwt.Count(raw, '~') > 0
    ensures '~' in raw
  {
    if raw[0] != '~' { SeparatorOccurs(raw[1..]); }
  }

  // ---------------------------------------------------------------- an issued mDoc, end to end

  /** The token wraps the presentation built for `iss`, and base64url undoes itself on it. */
  ghost predicate Wraps(env: Environment, token: string, iss: MdocIssuing.Issuance)
    requires |iss.claims| == |iss.salts|
  {
    var raw := MdocIssuing.Presentation(env.mdoc, iss);
    && '~' !in raw && env.mdoc.fromUrlNoPad(raw) == Some(env.mdoc.write(MdocIssuing.DeviceResponse(env.mdoc, iss)))
    && env.wrapper(token).Entry? && env.wrapper(token).presentations != []
    && env.wrapper(token).presentations[0] == JString(raw)
  }

  lemma {:induction false} MdocParses(env: Environment, token: string, raw: string, decoded: MdocDecoder.DecodedMdoc)
    requires env.wrapper(token).Entry? && env.wrapper(token).presentations != []
    requires env.wrapper(token).presentations[0] == JString(raw) && '~' !in raw
    requires MdocDecoder.DecodePresentation(env.mdoc, raw) == Ok(decoded) && decoded.namespaces != map[]
    ensures ParseVpToken(env, token) == Ok(FromMdoc(decoded, raw))
  {
  }

  lemma {:induction false} IssuedDecodes(
    env: Environment, iss: MdocIssuing.Issuance) returns (d: MdocDecoder.DecodedMdoc)
    requires |iss.claims| == |iss.salts|
    requires MdocSoundness.Survives(env.mdoc, MdocIssuing.DeviceResponse(env.mdoc, iss))
    requires MdocRoundTrip.ItemsSurvive(env.mdoc, iss)
    requires env.mdoc.fromUrlNoPad(MdocIssuing.Presentation(env.mdoc, iss)) ==
             Some(env.mdoc.write(MdocIssuing.DeviceResponse(env.mdoc, iss)))
    ensures MdocDecoder.DecodePresentation(env.mdoc, MdocIssuing.Presentation(env.mdoc, iss)) == Ok(d)
    ensures d ==
            MdocDecoder.DecodedMdoc(iss.docType, map[iss.namespace := MdocRoundTrip.ClaimMap(env.mdoc, iss.claims)])
    ensures d.namespaces != map[]
  {
    MdocRoundTrip.OpensAsBuilt(env.mdoc, iss);
    MdocRoundTrip.NamespacesAsBuilt(env.mdoc, iss);
    d := MdocDecoder.DecodedMdoc(iss.docType, map[iss.namespace := MdocRoundTrip.ClaimMap(env.mdoc, iss.claims)]);
    assert iss.namespace in d.namespaces;
  }

  lemma {:induction false} IssuedParses(env: Environment, token: string, iss: MdocIssuing.Issuance)
    requires |iss.claims| == |iss.salts| && Wraps(env, token, iss)
    requires MdocSoundness.Survives(env.mdoc, MdocIssuing.DeviceResponse(env.mdoc, iss))
    requires MdocRoundTrip.ItemsSurvive(env.mdoc, iss)
    ensures ParseVpToken(env, token).Ok? &&
            ParseVpToken(env, token).value.rawMdoc == Some(MdocIssuing.Presentation(env.mdoc, iss))
  {
    var d := IssuedDecodes(env, iss);
    MdocParses(env, token, MdocIssuing.Presentation(env.mdoc, iss), d);
  }

  /** The codec, COSE and signature assumptions of `MdocRoundTrip`, for this issuance and transaction. */
  ghost predicate IdealFor(
    env: Environment, iss: MdocIssuing.Issuance, tx: Transaction,
    issuerKey: MdocLibrary.PublicKey, deviceKey: MdocLibrary.PublicKey, trusted: bool)
    requires |iss.claims| == |iss.salts|
  {
    && MdocRoundTrip.AllSurvive(env.mdoc, iss, SessionOf(env, tx)) && MdocRoundTrip.CoseParses(env.mdoc, iss)
    && MdocRoundTrip.HandoversDoNotCollide(env.mdoc, iss, SessionOf(env, tx))
    && MdocRoundTrip.SignaturesIdeal(env.mdoc, iss, SessionOf(env, tx), issuerKey, deviceKey, trusted)
  }

  predicate IssuedFor(env: Environment, iss: MdocIssuing.Issuance, tx: Transaction, now: int) {
    && tx.clientId == iss.clientId && tx.nonce == iss.nonce && tx.responseUri == iss.responseUri
    && !tx.encrypted && MdocRoundTrip.InWindow(env.mdoc, iss, now)
  }

  lemma {:induction false} IssuedIsAdmittedExactly(
    env: Environment, token: string, iss: MdocIssuing.Issuance, tx: Transaction, now: int,
    issuerKey: MdocLibrary.PublicKey, deviceKey: MdocLibrary.PublicKey, trusted: bool)
    requires |iss.claims| == |iss.salts| && Wraps(env, token, iss)
    requires IdealFor(env, iss, tx, issuerKey, deviceKey, trusted)
    ensures Admitted(env, token, tx, now) <==> IssuedFor(env, iss, tx, now) && trusted
  {
    IssuedParses(env, token, iss);
    MdocRoundTrip.IssuedIsAcceptedExactly(env.mdoc, iss, SessionOf(env, tx), now, issuerKey, deviceKey, trusted);
  }

  /** An mDoc issued for some session, posted to a transaction and polled, turns it Verified if and only if
      the transaction is in time, the mDoc was issued for its client, nonce and response URI, it does not
      ask for encryption, the clock is inside the validity window and the issuer is trusted. */
  lemma {:induction false} IssuedMdocVerifiesExactly(
    env: Environment, valid: Dcql.Query -> bool, s: System, r: Response, t: nat, id: string,
    iss: MdocIssuing.Issuance, issuerKey: MdocLibrary.PublicKey, deviceKey: MdocLibrary.PublicKey, trusted: bool)
    requires Inv(valid, s) && id in s.store && r.state == s.store[id].state && t !in s.tasks
    requires |iss.claims| == |iss.salts| && Wraps(env, r.vpToken, iss)
    requires IdealFor(env, iss, s.store[id], issuerKey, deviceKey, trusted)
    ensures var n := Run(valid, VerdictOf(env), s, PostAndPoll(r, t, id)).store;
            && (id in n <==> s.store[id].expiresAt >= s.clock)
            && (id in n && n[id].status == Verified <==>
                  s.store[id].expiresAt >= s.clock && IssuedFor(env, iss, s.store[id], s.clock) && trusted)
  {
    PollVerifiesAdmitted(env, valid, s, r, t, id);
    IssuedIsAdmittedExactly(env, r.vpToken, iss, s.store[id], s.clock, issuerKey, deviceKey, trusted);
  }
}
