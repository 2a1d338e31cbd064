/** The structural validator for DCQL queries (OpenID4VP 1.0, sections 6 and 6.4.1). */
module Dcql {
  import opened Prelude

  datatype Claim = Claim(id: Option<string>)

  datatype Credential = Credential(
    id: string,
    claims: Option<seq<Claim>>,
    claimSets: Option<seq<seq<string>>>,
    trustedAuthorities: Option<seq<string>>)

  datatype Query = Query(credentials: seq<Credential>, credentialSets: Option<seq<seq<seq<string>>>>)

  // ---------------------------------------------------------------- the rules

  /** `alnum` is the character test: `char::is_alphanumeric` in Rust, `[A-Za-z0-9]` in TypeScript. */
  predicate WellFormedId(alnum: char -> bool, id: string) {
    id != "" && forall i :: 0 <= i < |id| ==> alnum(id[i]) || id[i] == '_' || id[i] == '-'
  }

  predicate DistinctIds(credentials: seq<Credential>) {
    forall i, j :: 0 <= i < j < |credentials| ==> credentials[i].id != credentials[j].id
  }

  predicate DistinctClaimIds(claims: seq<Claim>) {
    forall i, j :: 0 <= i < j < |claims| ==> claims[i].id.None? || claims[i].id != claims[j].id
  }

  function DeclaredIds(credentials: seq<Credential>): set<string> {
    set i | 0 <= i < |credentials| :: credentials[i].id
  }

  function DeclaredClaimIds(claims: seq<Claim>): set<string> {
    set i | 0 <= i < |claims| && claims[i].id.Some? :: claims[i].id.value
  }

  predicate AllDeclared(references: seq<seq<string>>, declared: set<string>) {
    forall i, j :: 0 <= i < |references| && 0 <= j < |references[i]| ==> references[i][j] in declared
  }

  predicate ClaimRules(alnum: char -> bool, claims: seq<Claim>, claimSets: Option<seq<seq<string>>>) {
    && (forall i :: 0 <= i < |claims| && claims[i].id.Some? ==> WellFormedId(alnum, claims[i].id.value))
    && DistinctClaimIds(claims)
    && (claimSets.Some? ==>
          && (forall i :: 0 <= i < |claims| ==> claims[i].id.Some?)
          && AllDeclared(claimSets.value, DeclaredClaimIds(claims)))
  }

  predicate CredentialRules(alnum: char -> bool, c: Credential) {
    && WellFormedId(alnum, c.id)
    && c.trustedAuthorities != Some([])
    && (c.claimSets.Some? ==> c.claims.Some?)
    && (c.claims.Some? ==> ClaimRules(alnum, c.claims.value, c.claimSets))
  }

  /** A query is structurally valid. */
  predicate Rules(alnum: char -> bool, q: Query) {
    && q.credentials != []
    && DistinctIds(q.credentials)
    && (forall i :: 0 <= i < |q.credentials| ==> CredentialRules(alnum, q.credentials[i]))
    && (q.credentialSets.Some? ==>
          && q.credentialSets.value != []
          && forall i :: 0 <= i < |q.credentialSets.value| ==>
               AllDeclared(q.credentialSets.value[i], DeclaredIds(q.credentials)))
  }

  // ---------------------------------------------------------------- the validator

  datatype Violation =
    | NoCredentials
    | BadId(id: string)
    | DuplicateId(id: string)
    | EmptyTrustedAuthorities
    | ClaimSetsWithoutClaims
    | ClaimWithoutId
    | UnknownId(id: string)
    | EmptyCredentialSets

  predicate Refers(references: seq<seq<string>>, id: string) {
    exists i :: 0 <= i < |references| && id in references[i]
  }

  /** A reported violation really is one, of the kind reported: within one list of claims. */
  predicate ClaimBlame(alnum: char -> bool, claims: seq<Claim>, claimSets: Option<seq<seq<string>>>, v: Violation) {
    match v
    case BadId(id) => id in DeclaredClaimIds(claims) && !WellFormedId(alnum, id)
    case DuplicateId(id) => exists i, j :: 0 <= i < j < |claims| && claims[i].id == claims[j].id == Some(id)
    case ClaimWithoutId => claimSets.Some? && Claim(None) in claims
    case UnknownId(id) => claimSets.Some? && Refers(claimSets.value, id) && id !in DeclaredClaimIds(claims)
    case _ => false
  }

  predicate CredentialBlame(alnum: char -> bool, c: Credential, v: Violation) {
    match v
    case EmptyTrustedAuthorities => c.trustedAuthorities == Some([])
    case ClaimSetsWithoutClaims => c.claimSets.Some? && c.claims.None?
    case _ => c.claims.Some? && ClaimBlame(alnum, c.claims.value, c.claimSets, v)
  }

  /** A reported violation really is one, somewhere in the query. */
  predicate Blame(alnum: char -> bool, q: Query, v: Violation) {
    || (exists c :: c in q.credentials && CredentialBlame(alnum, c, v))
    || match v
       case NoCredentials => q.credentials == []
       case BadId(id) => id in DeclaredIds(q.credentials) && !WellFormedId(alnum, id)
       case DuplicateId(id) =>
         exists i, j :: 0 <= i < j < |q.credentials| && q.credentials[i].id == q.credentials[j].id == id
       case EmptyCredentialSets => q.credentialSets == Some([])
       case UnknownId(id) =>
         && q.credentialSets.Some? && id !in DeclaredIds(q.credentials)
         && exists s :: s in q.credentialSets.value && Refers(s, id)
       case _ => false
  }

  /** The reference loops: the first identifier that is not among the known ones. */
  method CheckReferences(references: seq<seq<string>>, known: set<string>) returns (r: Result<(), Violation>)
    ensures r.Ok? <==> AllDeclared(references, known)
    ensures r.Err? ==> r.error.UnknownId? && r.error.id !in known && Refers(references, r.error.id)
  {
    for i := 0 to |references|
      invariant AllDeclared(references[..i], known)
    {
      for j := 0 to |references[i]|
        invariant forall k :: 0 <= k < j ==> references[i][k] in known
      {
        if references[i][j] !in known {
          return Err(UnknownId(references[i][j]));
        }
      }
    }
    return Ok(());
  }

  method CheckId(alnum: char -> bool, id: string) returns (ok: bool)
    ensures ok <==> WellFormedId(alnum, id)
  {
    if id == "" { return false; }
    for i := 0 to |id|
      invariant forall k :: 0 <= k < i ==> alnum(id[k]) || id[k] == '_' || id[k] == '-'
    {
      if !(alnum(id[i]) || id[i] == '_' || id[i] == '-') { return false; }
    }
    return true;
  }

  /** The claim loops of one credential query, with the set of ids seen so far. */
  method CheckClaims(alnum: char -> bool, claims: seq<Claim>, claimSets: Option<seq<seq<string>>>)
    returns (r: Result<(), Violation>)
    ensures r.Ok? <==> ClaimRules(alnum, claims, claimSets)
    ensures r.Err? ==> ClaimBlame(alnum, claims, claimSets, r.error)
  {
    var seen: set<string> := {};
    for i := 0 to |claims|
      invariant seen == DeclaredClaimIds(claims[..i])
      invariant forall k :: 0 <= k < i && claims[k].id.Some? ==> WellFormedId(alnum, claims[k].id.value)
      invariant DistinctClaimIds(claims[..i])
    {
      if claims[i].id.Some? {
        var id := claims[i].id.value;
        var ok := CheckId(alnum, id);
        if !ok { return Err(BadId(id)); }
        if id in seen {
          ghost var k :| 0 <= k < i && claims[..i][k].id == Some(id);
          return Err(DuplicateId(id));
        }
        seen := seen + {id};
      }
    }
    assert claims[..|claims|] == claims;
    if claimSets.Some? {
      for i := 0 to |claims|
        invariant forall k :: 0 <= k < i ==> claims[k].id.Some?
      {
        if claims[i].id.None? { return Err(ClaimWithoutId); }
      }
      r := CheckReferences(claimSets.value, seen);
      return r;
    }
    return Ok(());
  }

  method CheckCredential(alnum: char -> bool, c: Credential) returns (r: Result<(), Violation>)
    requires WellFormedId(alnum, c.id)
    ensures r.Ok? <==> CredentialRules(alnum, c)
    ensures r.Err? ==> CredentialBlame(alnum, c, r.error)
  {
    if c.trustedAuthorities.Some? && c.trustedAuthorities.value == [] {
      return Err(EmptyTrustedAuthorities);
    }
    if c.claimSets.Some? && c.claims.None? {
      return Err(ClaimSetsWithoutClaims);
    }
    if c.claims.Some? {
      r := CheckClaims(alnum, c.claims.value, c.claimSets);
      return r;
    }
    return Ok(());
  }

  /** `DCQLQuery::is_valid`. */
  method IsValid(alnum: char -> bool, q: Query) returns (r: Result<(), Violation>)
    ensures r.Ok? <==> Rules(alnum, q)
    ensures r.Err? ==> Blame(alnum, q, r.error)
  {
    if q.credentials == [] {
      return Err(NoCredentials);
    }
    var seen: set<string> := {};
    for i := 0 to |q.credentials|
      invariant seen == DeclaredIds(q.credentials[..i])
      invariant DistinctIds(q.credentials[..i])
      invariant forall k :: 0 <= k < i ==> CredentialRules(alnum, q.credentials[k])
    {
      var id := q.credentials[i].id;
      var ok := CheckId(alnum, id);
      if !ok { return Err(BadId(id)); }
      if id in seen {
        ghost var k :| 0 <= k < i && q.credentials[..i][k].id == id;
        return Err(DuplicateId(id));
      }
      seen := seen + {id};
      r := CheckCredential(alnum, q.credentials[i]);
      if r.Err? { return r; }
    }
    assert q.credentials[..|q.credentials|] == q.credentials;
    if q.credentialSets.Some? {
      var sets := q.credentialSets.value;
      if sets == [] { return Err(EmptyCredentialSets); }
      for i := 0 to |sets|
        invariant forall k :: 0 <= k < i ==> AllDeclared(sets[k], seen)
      {
        r := CheckReferences(sets[i], seen);
        if r.Err? { return r; }
      }
    }
    return Ok(());
  }

  // ---------------------------------------------------------------- each rule by itself

  function WithCredential(q: Query, c: Credential): Query {
    q.(credentials := q.credentials + [c])
  }

  lemma {:induction false} AddedCredential(alnum: char -> bool, q: Query, c: Credential)
    requires Rules(alnum, q)
    ensures Rules(alnum, WithCredential(q, c)) <==> CredentialRules(alnum, c) && c.id !in DeclaredIds(q.credentials)
  {
    var n, credentials := |q.credentials|, WithCredential(q, c).credentials;
    assert credentials[n] == c && forall i :: 0 <= i < n ==> credentials[i] == q.credentials[i];
    assert DeclaredIds(credentials) == DeclaredIds(q.credentials) + {c.id};
  }

  /** A valid query stays valid with one more bare credential query exactly when its id is new, not empty and made of
      the permitted characters; empty authorities, claim sets without claims, and an id twice are refused. */
  lemma {:induction false} WhichCredentialMayBeAdded(alnum: char -> bool, q: Query, id: string)
    requires Rules(alnum, q)
    ensures Rules(alnum, WithCredential(q, Credential(id, None, None, None))) <==>
            && id != "" && (forall c :: c in id ==> alnum(c) || c == '_' || c == '-')
            && forall i :: 0 <= i < |q.credentials| ==> q.credentials[i].id != id
    ensures !Rules(alnum, WithCredential(q, Credential(id, None, None, Some([]))))
    ensures !Rules(alnum, WithCredential(q, Credential(id, None, Some([]), None)))
    ensures !Rules(alnum, q.(credentials := [])) && !Rules(alnum, q.(credentialSets := Some([])))
  {
    AddedCredential(alnum, q, Credential(id, None, None, None));
    AddedCredential(alnum, q, Credential(id, None, None, Some([])));
    AddedCredential(alnum, q, Credential(id, None, Some([]), None));
  }

  /** Claims without claim sets: a further one needs no id, and if it has one it is new and well formed. */
  lemma {:induction false} WhichClaimMayBeAdded(alnum: char -> bool, claims: seq<Claim>, id: string)
    requires ClaimRules(alnum, claims, None)
    ensures ClaimRules(alnum, [], None) && ClaimRules(alnum, claims + [Claim(None)], None)
    ensures ClaimRules(alnum, claims + [Claim(Some(id))], None) <==>
            && id != "" && (forall c :: c in id ==> alnum(c) || c == '_' || c == '-')
            && forall i :: 0 <= i < |claims| ==> claims[i].id != Some(id)
  {
    var n, more, unnamed := |claims|, claims + [Claim(Some(id))], claims + [Claim(None)];
    assert more[n].id == Some(id) && forall i :: 0 <= i < n ==> more[i] == claims[i] == unnamed[i];
  }

  /** With claim sets every claim has an id, and the sets name no others. */
  lemma {:induction false} WhichClaimSetsMayBeAdded(
    alnum: char -> bool, claims: seq<Claim>, claimSets: seq<seq<string>>)
    requires ClaimRules(alnum, claims, None)
    ensures ClaimRules(alnum, claims, Some(claimSets)) <==>
            && (forall c :: c in claims ==> c.id.Some?)
            && forall s, id :: s in claimSets && id in s ==> exists i :: 0 <= i < |claims| && claims[i].id == Some(id)
  {
    if forall s, id :: s in claimSets && id in s ==> exists i :: 0 <= i < |claims| && claims[i].id == Some(id) {
      forall i, j | 0 <= i < |claimSets| && 0 <= j < |claimSets[i]|
        ensures claimSets[i][j] in DeclaredClaimIds(claims)
      {
        assert claimSets[i] in claimSets && claimSets[i][j] in claimSets[i];
      }
    }
  }

  /** Claims belong to a valid query exactly when they are valid together with their claim sets. */
  lemma {:induction false} WhichClaimsBelong(
    alnum: char -> bool, q: Query, id: string, claims: seq<Claim>, claimSets: Option<seq<seq<string>>>)
    requires Rules(alnum, q) && Rules(alnum, WithCredential(q, Credential(id, None, None, None)))
    ensures Rules(alnum, WithCredential(q, Credential(id, Some(claims), claimSets, None))) <==>
            ClaimRules(alnum, claims, claimSets)
  {
    AddedCredential(alnum, q, Credential(id, None, None, None));
    AddedCredential(alnum, q, Credential(id, Some(claims), claimSets, None));
  }

  /** Sets of credentials may be required exactly when there is one and all their options name declared
      credentials only. */
  lemma {:induction false} WhichSetsMayBeRequired(alnum: char -> bool, q: Query, sets: seq<seq<seq<string>>>)
    requires Rules(alnum, q)
    ensures Rules(alnum, q.(credentialSets := None))
    ensures Rules(alnum, q.(credentialSets := Some(sets))) <==>
            && sets != []
            && forall required, option, id :: required in sets && option in required && id in option ==>
                 exists i :: 0 <= i < |q.credentials| && q.credentials[i].id == id
  {
    if forall required, option, id :: required in sets && option in required && id in option ==>
         exists i :: 0 <= i < |q.credentials| && q.credentials[i].id == id
    {
      forall k, i, j | 0 <= k < |sets| && 0 <= i < |sets[k]| && 0 <= j < |sets[k][i]|
        ensures sets[k][i][j] in DeclaredIds(q.credentials)
      {
        assert sets[k] in sets && sets[k][i] in sets[k] && sets[k][i][j] in sets[k][i];
      }
    }
  }

  // ---------------------------------------------------------------- Rust and TypeScript

  predicate AsciiAlnum(c: char) {
    '0' <= c <= '9' || 'A' <= c <= 'Z' || 'a' <= c <= 'z'
  }

  predicate IsAscii(s: string) {
    forall i :: 0 <= i < |s| ==> s[i] < 128 as char
  }

  /** `idPattern`: the whole text matches `[A-Za-z0-9_-]+`. */
  predicate IdPattern(id: string) {
    |id| > 0 && forall c :: c in id ==> c == '_' || c == '-' || AsciiAlnum(c)
  }

  lemma PatternIsWellFormed(id: string)
    ensures IdPattern(id) <==> WellFormedId(AsciiAlnum, id)
  {
  }

  /** The claim block of `isValidDCQLQuery`: ids collected in a Set, then the two checks on claim sets. */
  method ClaimBlockIsValid(claims: seq<Claim>, claimSets: Option<seq<seq<string>>>) returns (valid: bool)
    ensures valid <==> ClaimRules(AsciiAlnum, claims, claimSets)
  {
    var seenClaimIds: set<string> := {};
    var i := 0;
    while i < |claims|
      invariant 0 <= i <= |claims| && seenClaimIds == DeclaredClaimIds(claims[..i]) && DistinctClaimIds(claims[..i])
      invariant forall k :: 0 <= k < i && claims[k].id.Some? ==> WellFormedId(AsciiAlnum, claims[k].id.value)
    {
      if claims[i].id.Some? {
        var id := claims[i].id.value;
        PatternIsWellFormed(id);
        if !IdPattern(id) { return false; }
        if id in seenClaimIds {
          ghost var k :| 0 <= k < i && claims[..i][k].id == Some(id);
          return false;
        }
        seenClaimIds := seenClaimIds + {id};
      }
      i := i + 1;
    }
    assert claims[..i] == claims;
    if claimSets.Some? {
      i := 0;
      while i < |claims|
        invariant 0 <= i <= |claims| && forall k :: 0 <= k < i ==> claims[k].id.Some?
      {
        if claims[i].id.None? { return false; }
        i := i + 1;
      }
      i := 0;
      while i < |claimSets.value|
        invariant 0 <= i <= |claimSets.value| && AllDeclared(claimSets.value[..i], seenClaimIds)
      {
        var references, j := claimSets.value[i], 0;
        while j < |references|
          invariant 0 <= j <= |references| && forall k :: 0 <= k < j ==> references[k] in seenClaimIds
        {
          if references[j] !in seenClaimIds { return false; }
          j := j + 1;
        }
        i := i + 1;
      }
    }
    return true;
  }

  /** `isValidDCQLQuery`: credentials in order, each checked whole before the next, then credential sets. */
  method IsValidDcqlQuery(q: Query) returns (valid: bool)
    ensures valid <==> Rules(AsciiAlnum, q)
  {
    if |q.credentials| == 0 { return false; }
    var seenCredIds: set<string> := {};
    var i := 0;
    while i < |q.credentials|
      invariant 0 <= i <= |q.credentials|
      invariant seenCredIds == DeclaredIds(q.credentials[..i]) && DistinctIds(q.credentials[..i])
      invariant forall k :: 0 <= k < i ==> CredentialRules(AsciiAlnum, q.credentials[k])
    {
      var cred := q.credentials[i];
      PatternIsWellFormed(cred.id);
      if !IdPattern(cred.id) { return false; }
      if cred.id in seenCredIds {
        ghost var k :| 0 <= k < i && q.credentials[..i][k].id == cred.id;
        return false;
      }
      seenCredIds := seenCredIds + {cred.id};
      if cred.trustedAuthorities.Some? {
        if |cred.trustedAuthorities.value| == 0 { return false; }
      }
      if cred.claimSets.Some? && cred.claims.None? { return false; }
      if cred.claims.Some? {
        var ok := ClaimBlockIsValid(cred.claims.value, cred.claimSets);
        if !ok { return false; }
      }
      i := i + 1;
    }
    assert q.credentials[..i] == q.credentials;
    if q.credentialSets.Some? {
      if |q.credentialSets.value| == 0 { return false; }
      valid := OptionsAreDeclared(q.credentialSets.value, seenCredIds);
      return valid;
    }
    return true;
  }

  /** The three nested reference loops over credential sets, options and ids. */
  method OptionsAreDeclared(sets: seq<seq<seq<string>>>, seenCredIds: set<string>) returns (valid: bool)
    ensures valid <==> forall i :: 0 <= i < |sets| ==> AllDeclared(sets[i], seenCredIds)
  {
    var i := 0;
    while i < |sets|
      invariant 0 <= i <= |sets| && forall k :: 0 <= k < i ==> AllDeclared(sets[k], seenCredIds)
    {
      var j := 0;
      while j < |sets[i]|
        invariant 0 <= j <= |sets[i]| && AllDeclared(sets[i][..j], seenCredIds)
      {
        var k := 0;
        while k < |sets[i][j]|
          invariant 0 <= k <= |sets[i][j]| && forall l :: 0 <= l < k ==> sets[i][j][l] in seenCredIds
        {
          if sets[i][j][k] !in seenCredIds { return false; }
          k := k + 1;
        }
        j := j + 1;
      }
      i := i + 1;
    }
    return true;
  }

  /** Every id a query declares, for credentials and claims, is ASCII. */
  predicate AsciiIds(q: Query) {
    forall i :: 0 <= i < |q.credentials| ==>
      && IsAscii(q.credentials[i].id)
      && (q.credentials[i].claims.Some? ==>
            forall j :: 0 <= j < |q.credentials[i].claims.value| && q.credentials[i].claims.value[j].id.Some? ==>
              IsAscii(q.credentials[i].claims.value[j].id.value))
  }

  /** The Unicode test agrees with the ASCII class below 128. */
  ghost predicate ExtendsAscii(alnum: char -> bool) {
    forall c :: c < 128 as char ==> (alnum(c) <==> AsciiAlnum(c))
  }

  lemma {:induction false} IdsAgree(alnum: char -> bool, id: string)
    requires ExtendsAscii(alnum)
    ensures WellFormedId(AsciiAlnum, id) <==> WellFormedId(alnum, id) && IsAscii(id)
  {
  }

  /** The TypeScript validator accepts exactly the queries the Rust one accepts whose ids are ASCII. */
  lemma {:induction false} ValidatorsAgreeOnAscii(alnum: char -> bool, q: Query)
    requires ExtendsAscii(alnum)
    ensures Rules(AsciiAlnum, q) <==> Rules(alnum, q) && AsciiIds(q)
  {
    forall id: string ensures WellFormedId(AsciiAlnum, id) <==> WellFormedId(alnum, id) && IsAscii(id) {
      IdsAgree(alnum, id);
    }
  }
}
