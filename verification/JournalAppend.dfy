/** The retry loop of `append_verification`, run against everything other callers append meanwhile. */
module JournalAppend {
  import opened Prelude
  import opened JournalChain
  import opened JournalStore
  import opened JournalRuns

  /** One iteration's surroundings: the id drawn, the time stamped, the appends of other callers
      before the head is read and between that read and the compare-and-swap. */
  datatype Attempt = Attempt(id: Bytes, now: int, before: seq<Entry>, between: seq<Entry>)

  function OthersAppend(db: Database, others: seq<Entry>): Database {
    if others == [] then db
    else
      var n := |others| - 1;
      AfterAppend(OthersAppend(db, others[..n]), others[n], others[n].previousHash)
  }

  function ReadBy(db: Database, a: Attempt): Database {
    OthersAppend(db, a.before)
  }

  function SwappedBy(db: Database, a: Attempt): Database {
    OthersAppend(ReadBy(db, a), a.between)
  }

  function EntryOfAttempt(sha: Bytes -> Bytes, db: Database, user: Bytes, jwt: Bytes, a: Attempt): Entry {
    BuildEntry(sha, Call(user, jwt, 0, Reading(0)), GetHead(ReadBy(db, a), user), a.id, a.now)
  }

  /** One iteration from database `db`. */
  function OutcomeOfAttempt(sha: Bytes -> Bytes, db: Database, user: Bytes, jwt: Bytes, a: Attempt)
    : Result<Database, JournalError>
  {
    var e := EntryOfAttempt(sha, db, user, jwt, a);
    AppendOutcome(SwappedBy(db, a), e, e.previousHash)
  }

  /** The whole call: the first attempt that is not stale decides; when all are, the call gives up. */
  function CallOutcome(sha: Bytes -> Bytes, db: Database, user: Bytes, jwt: Bytes, attempts: seq<Attempt>)
    : (Result<(), JournalError>, Database)
    decreases |attempts|
  {
    if attempts == [] then (Err(CasExhausted), db)
    else
      match OutcomeOfAttempt(sha, db, user, jwt, attempts[0])
      case Ok(next) => (Ok(()), next)
      case Err(StaleHead) => CallOutcome(sha, SwappedBy(db, attempts[0]), user, jwt, attempts[1..])
      case Err(e) => (Err(e), SwappedBy(db, attempts[0]))
  }

  method Interfere(store: SqliteJournalStore, others: seq<Entry>)
    modifies store
    ensures store.Contents() == OthersAppend(old(store.Contents()), others)
  {
    var i := 0;
    while i < |others|
      invariant 0 <= i <= |others|
      invariant store.Contents() == OthersAppend(old(store.Contents()), others[..i])
    {
      var _ := store.AppendEntry(others[i], others[i].previousHash);
      assert others[..i + 1][..i] == others[..i];
      i := i + 1;
    }
    assert others[..i] == others;
  }

  /** One attempt from `db` returned `r` and left `after`. */
  predicate AttemptEnds(
    sha: Bytes -> Bytes, db: Database, user: Bytes, jwt: Bytes, a: Attempt, r: Result<(), JournalError>,
    after: Database)
  {
    match OutcomeOfAttempt(sha, db, user, jwt, a)
    case Ok(next) => r == Ok(()) && after == next
    case Err(e) => r == Err(e) && after == SwappedBy(db, a)
  }

  /** The last entry of the table is one this call stamped, and it commits to the attestation handed over. */
  ghost predicate EndsCommitted(
    sha: Bytes -> Bytes, db: Database, user: Bytes, jwt: Bytes, attempts: seq<Attempt>)
  {
    && db.entries != []
    && var e := db.entries[|db.entries| - 1];
       && Attests(sha, user, jwt, e) && GetHead(db, user) == Some(e.entryHash)
       && exists a :: a in attempts && e.id == a.id && e.createdAt == a.now
  }

  method TryAppend(sha: Bytes -> Bytes, store: SqliteJournalStore, username: Bytes, jwt: Bytes, a: Attempt)
    returns (r: Result<(), JournalError>)
    modifies store
    ensures AttemptEnds(sha, old(store.Contents()), username, jwt, a, r, store.Contents())
    ensures r.Ok? ==> EndsCommitted(sha, store.Contents(), username, jwt, [a])
  {
    Interfere(store, a.before);
    var head := store.ReadHead(username);
    var input := if jwt == [] then QR_PREFIX + username + COLON + a.id else jwt;
    var attestationHash := sha(input);
    var entryHash := ComputeEntryHash(sha, username, head, attestationHash);
    var entry := Entry(a.id, username, head, entryHash, attestationHash, a.now);
    assert entry == EntryOfAttempt(sha, old(store.Contents()), username, jwt, a);
    Interfere(store, a.between);
    r := store.AppendEntry(entry, head);
    assert a in [a];
  }

  lemma {:induction false} CallStep(
    sha: Bytes -> Bytes, db: Database, user: Bytes, jwt: Bytes, attempts: seq<Attempt>,
    r: Result<(), JournalError>, after: Database)
    requires attempts != [] && AttemptEnds(sha, db, user, jwt, attempts[0], r, after)
    ensures CallOutcome(sha, db, user, jwt, attempts) ==
            if r == Err(StaleHead) then CallOutcome(sha, after, user, jwt, attempts[1..]) else (r, after)
  {
  }

  lemma {:induction false} SuccessCommits(
    sha: Bytes -> Bytes, db: Database, user: Bytes, jwt: Bytes, attempts: seq<Attempt>)
    ensures var (r, after) := CallOutcome(sha, db, user, jwt, attempts);
            r.Ok? ==> EndsCommitted(sha, after, user, jwt, attempts)
    decreases |attempts|
  {
    if attempts != [] {
      assert attempts[0] in attempts;
      if OutcomeOfAttempt(sha, db, user, jwt, attempts[0]) == Err(StaleHead) {
        SuccessCommits(sha, SwappedBy(db, attempts[0]), user, jwt, attempts[1..]);
      }
    }
  }

  /** `append_verification`, with the caller's retry budget. */
  method AppendVerification(
    sha: Bytes -> Bytes, store: SqliteJournalStore, username: Bytes, jwt: Bytes, attempts: seq<Attempt>)
    returns (r: Result<(), JournalError>)
    requires |attempts| == 5
    modifies store
    ensures r.Ok? ==> EndsCommitted(sha, store.Contents(), username, jwt, attempts)
    ensures (r, store.Contents()) == CallOutcome(sha, old(store.Contents()), username, jwt, attempts)
  {
    ghost var promised := CallOutcome(sha, store.Contents(), username, jwt, attempts);
    SuccessCommits(sha, store.Contents(), username, jwt, attempts);
    var attempt := 0;
    while attempt < MAX_CAS_RETRIES
      invariant 0 <= attempt <= |attempts|
      invariant CallOutcome(sha, store.Contents(), username, jwt, attempts[attempt..]) == promised
    {
      ghost var db, left := store.Contents(), attempts[attempt..];
      r := TryAppend(sha, store, username, jwt, attempts[attempt]);
      CallStep(sha, db, username, jwt, left, r, store.Contents());
      if r != Err(StaleHead) {
        return r;
      }
      assert left[1..] == attempts[attempt + 1..];
      attempt := attempt + 1;
    }
    return Err(CasExhausted);
  }

  // ---------------------------------------------------------------- when the loop gives up

  /** Other callers build their entries the same way. */
  predicate WellBuilt(sha: Bytes -> Bytes, others: seq<Entry>) {
    forall i :: 0 <= i < |others| ==> BuiltOn(sha, others[i], others[i].previousHash)
  }

  lemma {:induction false} OthersKeepConsistent(sha: Bytes -> Bytes, db: Database, others: seq<Entry>, u: Bytes)
    requires Consistent(sha, db) && WellBuilt(sha, others)
    ensures Consistent(sha, OthersAppend(db, others))
    ensures ChainOf(db.entries, u) <= ChainOf(OthersAppend(db, others).entries, u)
  {
    if others != [] {
      var n := |others| - 1;
      OthersKeepConsistent(sha, db, others[..n], u);
      AppendKeepsConsistent(sha, OthersAppend(db, others[..n]), others[n], others[n].previousHash);
      AppendGrows(OthersAppend(db, others[..n]), others[n], others[n].previousHash, u);
    }
  }

  ghost predicate AllWellBuilt(sha: Bytes -> Bytes, attempts: seq<Attempt>) {
    forall i :: 0 <= i < |attempts| ==> WellBuilt(sha, attempts[i].before) && WellBuilt(sha, attempts[i].between)
  }

  /** Somebody else's entry for this user landed between the read and the compare-and-swap. */
  predicate Overtaken(db: Database, user: Bytes, a: Attempt) {
    LengthOf(ReadBy(db, a), user) < LengthOf(SwappedBy(db, a), user)
  }

  lemma {:induction false} StaleIffOvertaken(sha: Bytes -> Bytes, db: Database, user: Bytes, jwt: Bytes, a: Attempt)
    requires Consistent(sha, db) && WellBuilt(sha, a.before) && WellBuilt(sha, a.between)
    ensures OutcomeOfAttempt(sha, db, user, jwt, a) == Err(StaleHead) <==> Overtaken(db, user, a)
  {
    OthersKeepConsistent(sha, db, a.before, user);
    OthersKeepConsistent(sha, ReadBy(db, a), a.between, user);
    var before, after := ChainOf(ReadBy(db, a).entries, user), ChainOf(SwappedBy(db, a).entries, user);
    assert UserConsistent(sha, ReadBy(db, a), user) && UserConsistent(sha, SwappedBy(db, a), user);
    ChainOfDistinct(SwappedBy(db, a).entries, user);
    assert after[..|before|] == before;
    SameHeadSameLength(after, HeadOf(before), |before|);
  }

  /** Every attempt of the call is overtaken, each from the database the previous one left. */
  predicate AlwaysOvertaken(db: Database, user: Bytes, attempts: seq<Attempt>)
    decreases |attempts|
  {
    attempts != [] ==>
      Overtaken(db, user, attempts[0]) && AlwaysOvertaken(SwappedBy(db, attempts[0]), user, attempts[1..])
  }

  /** `append_verification` gives up exactly when every one of its attempts was overtaken — and by then at least as
      many entries of the user were appended by others as the call made attempts. */
  lemma {:induction false} ExhaustedIffAlwaysOvertaken(
    sha: Bytes -> Bytes, db: Database, user: Bytes, jwt: Bytes, attempts: seq<Attempt>)
    requires Consistent(sha, db) && AllWellBuilt(sha, attempts)
    ensures var (r, after) := CallOutcome(sha, db, user, jwt, attempts);
            && (r == Err(CasExhausted) <==> AlwaysOvertaken(db, user, attempts))
            && r != Err(StaleHead)
            && Consistent(sha, after)
            && (r == Err(CasExhausted) ==> LengthOf(db, user) + |attempts| <= LengthOf(after, user))
    decreases |attempts|
  {
    if attempts != [] {
      var a := attempts[0];
      StaleIffOvertaken(sha, db, user, jwt, a);
      OthersKeepConsistent(sha, db, a.before, user);
      OthersKeepConsistent(sha, ReadBy(db, a), a.between, user);
      var e := EntryOfAttempt(sha, db, user, jwt, a);
      AppendKeepsConsistent(sha, SwappedBy(db, a), e, e.previousHash);
      if OutcomeOfAttempt(sha, db, user, jwt, a) == Err(StaleHead) {
        ExhaustedIffAlwaysOvertaken(sha, SwappedBy(db, a), user, jwt, attempts[1..]);
      }
    }
  }
}
