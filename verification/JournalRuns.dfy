/** `append_verification` under any number of concurrent callers.

    A call repeats three steps, each of which may be separated from the next by steps of other calls:
    read the head, build the entry (drawing an id and stamping the time), compare-and-swap append. */
module JournalRuns {
  import opened Prelude
  import opened JournalChain
  import opened JournalStore

  const MAX_CAS_RETRIES: nat := 5

  datatype Phase =
    | Reading(attempt: nat)
    | Stamping(attempt: nat, head: Option<Bytes>, readAt: nat)
    | Appending(attempt: nat, entry: Entry, readAt: nat)
    | Finished(result: Result<(), JournalError>, endedAt: nat)

  /** A running call.  `startedAt`, `readAt` and `endedAt` count the user's entries at those moments. */
  datatype Call = Call(user: Bytes, jwt: Bytes, startedAt: nat, phase: Phase)

  datatype System = System(db: Database, clock: int, calls: map<nat, Call>)

  datatype Step =
    // the next reading of the clock, later or earlier: it may be set back, and writers may differ
    | Tick(elapsed: int)
    | Begin(caller: nat, user: Bytes, jwt: Bytes)
    | Read(caller: nat)
    | Stamp(caller: nat, id: Bytes)
    | Cas(caller: nat)

  const QR_PREFIX: Bytes := [113, 114, 58]  // "qr:"
  const COLON: Bytes := [58]

  /** What is hashed in place of an empty attestation. */
  function AttestationInput(jwt: Bytes, user: Bytes, id: Bytes): Bytes {
    if jwt == [] then QR_PREFIX + user + COLON + id else jwt
  }

  /** What an entry must commit to: the attestation its caller handed over, or without one the text
      "qr:<user>:<entry id>". */
  predicate Attests(sha: Bytes -> Bytes, user: Bytes, jwt: Bytes, e: Entry) {
    && e.username == user
    && (jwt != [] ==> e.attestationHash == sha(jwt))
    && (jwt == [] ==> e.attestationHash == sha([113, 114, 58] + user + [58] + e.id))
  }

  const UUID_LENGTH := 36

  /** Entries without an attestation hash a value of their own: the synthetic inputs of two appends are
      equal only for the same user and the same entry id. */
  lemma {:induction false} SyntheticInputsDiffer(u1: Bytes, id1: Bytes, u2: Bytes, id2: Bytes)
    requires |id1| == |id2| == UUID_LENGTH
    ensures AttestationInput([], u1, id1) == AttestationInput([], u2, id2) <==> u1 == u2 && id1 == id2
  {
    if AttestationInput([], u1, id1) == AttestationInput([], u2, id2) {
      CancelSuffix(QR_PREFIX + u1 + COLON, id1, QR_PREFIX + u2 + COLON, id2);
      CancelSuffix(QR_PREFIX + u1, COLON, QR_PREFIX + u2, COLON);
      CancelPrefix(QR_PREFIX, u1, QR_PREFIX, u2);
    }
  }

  function BuildEntry(sha: Bytes -> Bytes, call: Call, head: Option<Bytes>, id: Bytes, now: int): Entry {
    var attestationHash := sha(AttestationInput(call.jwt, call.user, id));
    Entry(id, call.user, head, EntryHash(sha, call.user, head, attestationHash), attestationHash, now)
  }

  function LengthOf(db: Database, u: Bytes): nat {
    |ChainOf(db.entries, u)|
  }

  function PhaseAfterCas(attempt: nat, outcome: Result<Database, JournalError>, length: nat): Phase {
    match outcome
    case Ok(_) => Finished(Ok(()), length)
    case Err(StaleHead) =>
      if attempt + 1 < MAX_CAS_RETRIES then Reading(attempt + 1) else Finished(Err(CasExhausted), length)
    case Err(e) => Finished(Err(e), length)
  }

  function ReadHead(db: Database, c: Call): Call
    requires c.phase.Reading?
  {
    c.(phase := Stamping(c.phase.attempt, GetHead(db, c.user), LengthOf(db, c.user)))
  }

  function StampEntry(sha: Bytes -> Bytes, c: Call, id: Bytes, now: int): Call
    requires c.phase.Stamping?
  {
    c.(phase := Appending(c.phase.attempt, BuildEntry(sha, c, c.phase.head, id, now), c.phase.readAt))
  }

  function DatabaseAfterCas(db: Database, c: Call): Database
    requires c.phase.Appending?
  {
    AfterAppend(db, c.phase.entry, c.phase.entry.previousHash)
  }

  function CallAfterCas(db: Database, c: Call): Call
    requires c.phase.Appending?
  {
    c.(phase := PhaseAfterCas(c.phase.attempt, AppendOutcome(db, c.phase.entry, c.phase.entry.previousHash),
                              LengthOf(DatabaseAfterCas(db, c), c.user)))
  }

  /** One step; a step that is not enabled changes nothing. */
  function Apply(sha: Bytes -> Bytes, s: System, step: Step): System {
    match step
    case Tick(elapsed) => s.(clock := s.clock + elapsed)
    case Begin(w, user, jwt) =>
      if w in s.calls then s
      else s.(calls := s.calls[w := Call(user, jwt, LengthOf(s.db, user), Reading(0))])
    case Read(w) =>
      if w in s.calls && s.calls[w].phase.Reading? then
        s.(calls := s.calls[w := ReadHead(s.db, s.calls[w])])
      else s
    case Stamp(w, id) =>
      if w in s.calls && s.calls[w].phase.Stamping? then
        s.(calls := s.calls[w := StampEntry(sha, s.calls[w], id, s.clock)])
      else s
    case Cas(w) =>
      if w in s.calls && s.calls[w].phase.Appending? then
        System(DatabaseAfterCas(s.db, s.calls[w]), s.clock, s.calls[w := CallAfterCas(s.db, s.calls[w])])
      else s
  }

  function Run(sha: Bytes -> Bytes, s: System, steps: seq<Step>): System {
    if steps == [] then s else Apply(sha, Run(sha, s, steps[..|steps| - 1]), steps[|steps| - 1])
  }

  function Initial(clock: int): System { System(EMPTY, clock, map[]) }

  // ---------------------------------------------------------------- invariant

  /** The head a call holds was the head when the user had `readAt` entries. */
  predicate SnapshotOf(chain: seq<Entry>, head: Option<Bytes>, readAt: nat) {
    readAt <= |chain| && head == HeadOf(chain[..readAt])
  }

  predicate PhaseFits(sha: Bytes -> Bytes, c: Call, chain: seq<Entry>) {
    && c.startedAt <= |chain|
    && match c.phase
       case Reading(attempt) => attempt < MAX_CAS_RETRIES && c.startedAt + attempt <= |chain|
       case Stamping(attempt, head, readAt) =>
         attempt < MAX_CAS_RETRIES && c.startedAt + attempt <= readAt && SnapshotOf(chain, head, readAt)
       case Appending(attempt, e, readAt) =>
         && attempt < MAX_CAS_RETRIES && c.startedAt + attempt <= readAt
         && SnapshotOf(chain, e.previousHash, readAt)
         && e.username == c.user && BuiltOn(sha, e, e.previousHash)
       case Finished(result, endedAt) =>
         && endedAt <= |chain|
         && (result.Err? ==> result.error != StaleHead)
         && (result == Err(CasExhausted) ==> c.startedAt + MAX_CAS_RETRIES <= endedAt)
  }

  predicate Fits(sha: Bytes -> Bytes, c: Call, db: Database) {
    PhaseFits(sha, c, ChainOf(db.entries, c.user))
  }

  ghost predicate Inv(sha: Bytes -> Bytes, s: System) {
    && Consistent(sha, s.db)
    && forall w :: w in s.calls ==> Fits(sha, s.calls[w], s.db)
  }

  /** A call that still fits keeps fitting while its user's chain only grows at the end. */
  lemma {:induction false} GrowthKeepsFit(sha: Bytes -> Bytes, c: Call, chain: seq<Entry>, more: seq<Entry>)
    requires PhaseFits(sha, c, chain)
    ensures PhaseFits(sha, c, chain + more)
  {
    match c.phase
    case Reading(_) =>
    case Stamping(_, _, readAt) => assert (chain + more)[..readAt] == chain[..readAt];
    case Appending(_, _, readAt) => assert (chain + more)[..readAt] == chain[..readAt];
    case Finished(_, _) =>
  }

  /** With distinct hashes a head identifies one moment: the chain has not grown since. */
  lemma {:induction false} SameHeadSameLength(chain: seq<Entry>, head: Option<Bytes>, readAt: nat)
    requires DistinctHashes(chain) && SnapshotOf(chain, head, readAt)
    ensures HeadOf(chain) == head <==> readAt == |chain|
  {
  }

  /** How one compare-and-swap changes the rows of each user. */
  function GrowthBy(db: Database, c: Call, u: Bytes): seq<Entry>
    requires c.phase.Appending?
  {
    Growth(db, c.phase.entry, c.phase.entry.previousHash, u)
  }

  lemma {:induction false} CasGrows(db: Database, c: Call, u: Bytes)
    requires c.phase.Appending?
    ensures ChainOf(DatabaseAfterCas(db, c).entries, u) == ChainOf(db.entries, u) + GrowthBy(db, c, u)
  {
    AppendGrows(db, c.phase.entry, c.phase.entry.previousHash, u);
  }

  /** A compare-and-swap that succeeds saw the chain it had read; one that finds the head moved was overtaken. */
  lemma {:induction false} CasReadsSnapshot(sha: Bytes -> Bytes, db: Database, c: Call)
    requires Consistent(sha, db) && c.phase.Appending? && Fits(sha, c, db)
    ensures AppendOutcome(db, c.phase.entry, c.phase.entry.previousHash) == Err(StaleHead) <==>
            c.phase.readAt < LengthOf(db, c.user)
  {
    var chain := ChainOf(db.entries, c.user);
    ChainOfDistinct(db.entries, c.user);
    assert UserConsistent(sha, db, c.user);
    SameHeadSameLength(chain, c.phase.entry.previousHash, c.phase.readAt);
  }

  lemma {:induction false} CasKeepsOwnFit(sha: Bytes -> Bytes, db: Database, c: Call)
    requires Consistent(sha, db) && c.phase.Appending? && Fits(sha, c, db)
    ensures Fits(sha, CallAfterCas(db, c), DatabaseAfterCas(db, c))
  {
    CasGrows(db, c, c.user);
    CasReadsSnapshot(sha, db, c);
  }

  lemma {:induction false} CasKeepsInv(sha: Bytes -> Bytes, s: System, w: nat)
    requires Inv(sha, s) && w in s.calls && s.calls[w].phase.Appending?
    ensures Inv(sha, Apply(sha, s, Cas(w)))
  {
    var c := s.calls[w];
    var db := DatabaseAfterCas(s.db, c);
    AppendKeepsConsistent(sha, s.db, c.phase.entry, c.phase.entry.previousHash);
    CasKeepsOwnFit(sha, s.db, c);
    forall v | v in s.calls && v != w ensures Fits(sha, s.calls[v], db) {
      CasGrows(s.db, c, s.calls[v].user);
      GrowthKeepsFit(sha, s.calls[v], ChainOf(s.db.entries, s.calls[v].user), GrowthBy(s.db, c, s.calls[v].user));
    }
  }

  lemma {:induction false} ReadKeepsFit(sha: Bytes -> Bytes, db: Database, c: Call)
    requires Consistent(sha, db) && c.phase.Reading? && Fits(sha, c, db)
    ensures Fits(sha, ReadHead(db, c), db)
  {
    var chain := ChainOf(db.entries, c.user);
    assert UserConsistent(sha, db, c.user) && chain[..|chain|] == chain;
  }

  lemma {:induction false} StepKeepsInv(sha: Bytes -> Bytes, s: System, step: Step)
    requires Inv(sha, s)
    ensures Inv(sha, Apply(sha, s, step))
  {
    match step
    case Cas(w) => if w in s.calls && s.calls[w].phase.Appending? { CasKeepsInv(sha, s, w); }
    case Read(w) => if w in s.calls && s.calls[w].phase.Reading? { ReadKeepsFit(sha, s.db, s.calls[w]); }
    case Stamp(w, id) =>
      if w in s.calls && s.calls[w].phase.Stamping? {
        assert Fits(sha, StampEntry(sha, s.calls[w], id, s.clock), s.db);
      }
    case Tick(_) =>
    case Begin(_, user, _) => assert Fits(sha, Call(user, [], LengthOf(s.db, user), Reading(0)), s.db);
  }

  lemma {:induction false} RunKeepsInv(sha: Bytes -> Bytes, s: System, steps: seq<Step>)
    requires Inv(sha, s)
    ensures Inv(sha, Run(sha, s, steps))
  {
    if steps != [] {
      RunKeepsInv(sha, s, steps[..|steps| - 1]);
      StepKeepsInv(sha, Run(sha, s, steps[..|steps| - 1]), steps[|steps| - 1]);
    }
  }

  lemma {:induction false} InitialInv(sha: Bytes -> Bytes, clock: int)
    ensures Inv(sha, Initial(clock))
  {
    EmptyConsistent(sha);
  }

  // ---------------------------------------------------------------- timestamps on a clock that never goes back

  predicate TimesSorted(rows: seq<Entry>) {
    forall i, j :: 0 <= i < j < |rows| ==> rows[i].createdAt <= rows[j].createdAt
  }

  predicate NotLaterThan(rows: seq<Entry>, clock: int) {
    forall i :: 0 <= i < |rows| ==> rows[i].createdAt <= clock
  }

  predicate NeverBack(steps: seq<Step>) {
    forall i :: 0 <= i < |steps| && steps[i].Tick? ==> steps[i].elapsed >= 0
  }

  /** An entry about to be appended is not older than the entries its call has read. */
  predicate Timed(c: Call, chain: seq<Entry>, clock: int) {
    c.phase.Appending? && c.phase.readAt <= |chain| ==>
      NotLaterThan(chain[..c.phase.readAt], c.phase.entry.createdAt) && c.phase.entry.createdAt <= clock
  }

  ghost predicate TimeInv(s: System) {
    && (forall u :: TimesSorted(ChainOf(s.db.entries, u)) && NotLaterThan(ChainOf(s.db.entries, u), s.clock))
    && forall w :: w in s.calls ==> Timed(s.calls[w], ChainOf(s.db.entries, s.calls[w].user), s.clock)
  }

  lemma {:induction false} LatestLast(chain: seq<Entry>, e: Entry, clock: int)
    requires TimesSorted(chain) && NotLaterThan(chain, e.createdAt)
    requires e.createdAt <= clock && NotLaterThan(chain, clock)
    ensures TimesSorted(chain + [e]) && NotLaterThan(chain + [e], clock)
  {
  }

  lemma {:induction false} CasKeepsTimesOf(sha: Bytes -> Bytes, s: System, w: nat, u: Bytes)
    requires Inv(sha, s) && TimeInv(s) && w in s.calls && s.calls[w].phase.Appending?
    ensures var rows := ChainOf(DatabaseAfterCas(s.db, s.calls[w]).entries, u);
            TimesSorted(rows) && NotLaterThan(rows, s.clock)
  {
    var c := s.calls[w];
    CasGrows(s.db, c, u);
    var chain := ChainOf(s.db.entries, u);
    if GrowthBy(s.db, c, u) == [] {
      assert chain + [] == chain;
    } else {
      assert Fits(sha, c, s.db);
      CasReadsSnapshot(sha, s.db, c);
      assert chain[..|chain|] == chain && Timed(c, chain, s.clock);
      LatestLast(chain, c.phase.entry, s.clock);
    }
  }

  lemma {:induction false} CasKeepsTimed(sha: Bytes -> Bytes, s: System, w: nat, v: nat)
    requires Inv(sha, s) && TimeInv(s) && w in s.calls && s.calls[w].phase.Appending? && v in s.calls
    ensures Timed(s.calls[v], ChainOf(DatabaseAfterCas(s.db, s.calls[w]).entries, s.calls[v].user), s.clock)
  {
    if s.calls[v].phase.Appending? {
      assert Fits(sha, s.calls[v], s.db);
      CasGrows(s.db, s.calls[w], s.calls[v].user);
      var chain, readAt := ChainOf(s.db.entries, s.calls[v].user), s.calls[v].phase.readAt;
      assert (chain + GrowthBy(s.db, s.calls[w], s.calls[v].user))[..readAt] == chain[..readAt];
    }
  }

  lemma {:induction false} CasKeepsTimes(sha: Bytes -> Bytes, s: System, w: nat)
    requires Inv(sha, s) && TimeInv(s) && w in s.calls && s.calls[w].phase.Appending?
    ensures TimeInv(Apply(sha, s, Cas(w)))
  {
    var n := Apply(sha, s, Cas(w));
    forall u ensures TimesSorted(ChainOf(n.db.entries, u)) && NotLaterThan(ChainOf(n.db.entries, u), n.clock) {
      CasKeepsTimesOf(sha, s, w, u);
    }
    forall v | v in n.calls ensures Timed(n.calls[v], ChainOf(n.db.entries, n.calls[v].user), n.clock) {
      if v != w { CasKeepsTimed(sha, s, w, v); }
    }
  }

  lemma {:induction false} StepKeepsTimes(sha: Bytes -> Bytes, s: System, step: Step)
    requires Inv(sha, s) && TimeInv(s) && (step.Tick? ==> step.elapsed >= 0)
    ensures TimeInv(Apply(sha, s, step))
  {
    match step
    case Cas(w) => if w in s.calls && s.calls[w].phase.Appending? { CasKeepsTimes(sha, s, w); }
    case Read(_) =>
    case Stamp(_, _) =>
    case Tick(_) => TicksKeepTimes(s, step.elapsed);
    case Begin(_, _, _) =>
  }

  lemma {:induction false} TicksKeepTimes(s: System, elapsed: nat)
    requires TimeInv(s)
    ensures TimeInv(s.(clock := s.clock + elapsed))
  {
    forall u
      ensures TimesSorted(ChainOf(s.db.entries, u)) && NotLaterThan(ChainOf(s.db.entries, u), s.clock + elapsed)
    {
      assert NotLaterThan(ChainOf(s.db.entries, u), s.clock);
    }
  }

  lemma {:induction false} RunKeepsTimes(sha: Bytes -> Bytes, clock: int, steps: seq<Step>)
    requires NeverBack(steps)
    ensures TimeInv(Run(sha, Initial(clock), steps))
  {
    if steps == [] {
      assert forall u :: ChainOf(EMPTY.entries, u) == [];
    } else {
      var before := steps[..|steps| - 1];
      RunKeepsTimes(sha, clock, before);
      InitialInv(sha, clock);
      RunKeepsInv(sha, Initial(clock), before);
      StepKeepsTimes(sha, Run(sha, Initial(clock), before), steps[|steps| - 1]);
    }
  }

  // ---------------------------------------------------------------- what every run guarantees

  /** Every interleaving, whatever the clock does, leaves each user with one linear, recomputing chain ending
      in the head; on a clock that never goes back its timestamps never decrease. */
  lemma {:induction false} EveryRunKeepsChains(sha: Bytes -> Bytes, clock: int, steps: seq<Step>, u: Bytes)
    ensures var db := Run(sha, Initial(clock), steps).db;
            var chain := ChainOf(db.entries, u);
            && Linked(sha, u, chain) && GetHead(db, u) == HeadOf(chain) && DistinctHashes(chain)
            && (NeverBack(steps) ==> TimesSorted(chain))
  {
    if NeverBack(steps) { RunKeepsTimes(sha, clock, steps); }
    InitialInv(sha, clock);
    RunKeepsInv(sha, Initial(clock), steps);
    var db := Run(sha, Initial(clock), steps).db;
    assert UserConsistent(sha, db, u);
    ChainOfDistinct(db.entries, u);
  }

  /** A call gives up only after at least five entries of its user were appended between its
      start and its end; so a call that ends having seen fewer, without a storage error, succeeded. */
  lemma {:induction false} ExhaustionNeedsOverlap(sha: Bytes -> Bytes, clock: int, steps: seq<Step>, w: nat)
    requires w in Run(sha, Initial(clock), steps).calls
    requires Run(sha, Initial(clock), steps).calls[w].phase.Finished?
    ensures var c := Run(sha, Initial(clock), steps).calls[w];
            && (c.phase.result == Err(CasExhausted) ==> c.phase.endedAt - c.startedAt >= 5)
            && (c.phase.endedAt - c.startedAt < 5 && c.phase.result != Err(Storage) ==>
                  c.phase.result.Ok?)
  {
    InitialInv(sha, clock);
    RunKeepsInv(sha, Initial(clock), steps);
    var s := Run(sha, Initial(clock), steps);
    assert Fits(sha, s.calls[w], s.db);
  }

  predicate IsSuccess(c: Call, u: Bytes) {
    c.user == u && c.phase.Finished? && c.phase.result.Ok?
  }

  function Succeeded(calls: map<nat, Call>, u: Bytes): set<nat> {
    set w | w in calls && IsSuccess(calls[w], u)
  }

  lemma {:induction false} UpdateCounts(calls: map<nat, Call>, w: nat, c: Call, u: Bytes)
    requires w in calls ==> !IsSuccess(calls[w], u)
    ensures |Succeeded(calls[w := c], u)| == |Succeeded(calls, u)| + (if IsSuccess(c, u) then 1 else 0)
  {
    assert Succeeded(calls[w := c], u) == Succeeded(calls, u) + (if IsSuccess(c, u) then {w} else {});
  }

  lemma {:induction false} SuccessIffGrowth(db: Database, c: Call, u: Bytes)
    requires c.phase.Appending? && c.phase.entry.username == c.user
    ensures IsSuccess(CallAfterCas(db, c), u) <==> GrowthBy(db, c, u) != []
  {
  }

  lemma {:induction false} CasCounts(sha: Bytes -> Bytes, s: System, w: nat, u: Bytes)
    requires w in s.calls && s.calls[w].phase.Appending? && Fits(sha, s.calls[w], s.db)
    requires |Succeeded(s.calls, u)| == LengthOf(s.db, u)
    ensures |Succeeded(Apply(sha, s, Cas(w)).calls, u)| == LengthOf(Apply(sha, s, Cas(w)).db, u)
  {
    var c := s.calls[w];
    CasGrows(s.db, c, u);
    SuccessIffGrowth(s.db, c, u);
    UpdateCounts(s.calls, w, CallAfterCas(s.db, c), u);
  }

  lemma {:induction false} StepKeepsCount(sha: Bytes -> Bytes, s: System, step: Step, u: Bytes)
    requires Inv(sha, s) && |Succeeded(s.calls, u)| == LengthOf(s.db, u)
    ensures |Succeeded(Apply(sha, s, step).calls, u)| == LengthOf(Apply(sha, s, step).db, u)
  {
    match step
    case Cas(w) => if w in s.calls && s.calls[w].phase.Appending? { CasCounts(sha, s, w, u); }
    case Begin(w, user, jwt) => if w !in s.calls { UpdateCounts(s.calls, w, Apply(sha, s, step).calls[w], u); }
    case Read(w) =>
      if w in s.calls && s.calls[w].phase.Reading? { UpdateCounts(s.calls, w, ReadHead(s.db, s.calls[w]), u); }
    case Stamp(w, id) =>
      if w in s.calls && s.calls[w].phase.Stamping? {
        UpdateCounts(s.calls, w, StampEntry(sha, s.calls[w], id, s.clock), u);
      }
    case Tick(_) =>
  }

  /** Conservation: a user's chain has exactly one entry for each call that returned Ok, so an error
      leaves no entry behind and no success is lost. */
  lemma {:induction false} OneEntryPerSuccess(sha: Bytes -> Bytes, clock: int, steps: seq<Step>, u: Bytes)
    ensures var s := Run(sha, Initial(clock), steps); |Succeeded(s.calls, u)| == LengthOf(s.db, u)
  {
    if steps == [] {
      assert Succeeded(Initial(clock).calls, u) == {};
    } else {
      var before := steps[..|steps| - 1];
      InitialInv(sha, clock);
      RunKeepsInv(sha, Initial(clock), before);
      OneEntryPerSuccess(sha, clock, before, u);
      StepKeepsCount(sha, Run(sha, Initial(clock), before), steps[|steps| - 1], u);
    }
  }

  // ---------------------------------------------------------------- no refused append

  /** Attestation hashes are hex hashes, in the table and in entries about to be appended. */
  predicate HexInv(s: System) {
    && (forall i :: 0 <= i < |s.db.entries| ==> IsHexHash(s.db.entries[i].attestationHash))
    && forall w :: w in s.calls && s.calls[w].phase.Appending? ==> IsHexHash(s.calls[w].phase.entry.attestationHash)
  }

  lemma {:induction false} StepKeepsHex(sha: Bytes -> Bytes, s: System, step: Step)
    requires HexValued(sha) && HexInv(s)
    ensures HexInv(Apply(sha, s, step))
  {
  }

  lemma {:induction false} RunKeepsHex(sha: Bytes -> Bytes, clock: int, steps: seq<Step>)
    requires HexValued(sha)
    ensures HexInv(Run(sha, Initial(clock), steps))
  {
    if steps != [] {
      RunKeepsHex(sha, clock, steps[..|steps| - 1]);
      StepKeepsHex(sha, Run(sha, Initial(clock), steps[..|steps| - 1]), steps[|steps| - 1]);
    }
  }

  /** In every run, a compare-and-swap with an unused id, usernames below 64 bytes and no colliding
      preimages ends in Ok or a stale head: the unique index never turns a fresh append away. */
  lemma {:induction false} CasNeverRefused(sha: Bytes -> Bytes, clock: int, steps: seq<Step>, w: nat)
    requires HexValued(sha) && w in Run(sha, Initial(clock), steps).calls
    requires Run(sha, Initial(clock), steps).calls[w].phase.Appending?
    requires var s := Run(sha, Initial(clock), steps);
             var e := s.calls[w].phase.entry;
             && |e.username| < HEX_LENGTH && CollisionFree(sha, Preimages(s.db.entries + [e]))
             && forall i :: 0 <= i < |s.db.entries| ==>
                s.db.entries[i].id != e.id && |s.db.entries[i].username| < HEX_LENGTH
    ensures var s := Run(sha, Initial(clock), steps);
            var e := s.calls[w].phase.entry;
            && (AppendOutcome(s.db, e, e.previousHash).Ok? <==> s.calls[w].phase.readAt == LengthOf(s.db, e.username))
            && (AppendOutcome(s.db, e, e.previousHash).Err? ==>
                  AppendOutcome(s.db, e, e.previousHash) == Err(StaleHead))
  {
    InitialInv(sha, clock);
    RunKeepsInv(sha, Initial(clock), steps);
    RunKeepsHex(sha, clock, steps);
    var s := Run(sha, Initial(clock), steps);
    var c := s.calls[w];
    assert Fits(sha, c, s.db);
    CasReadsSnapshot(sha, s.db, c);
    if GetHead(s.db, c.user) == c.phase.entry.previousHash {
      FreshAppendSucceeds(sha, s.db, c.phase.entry);
    }
  }

  // ---------------------------------------------------------------- verify_chain reads rows by time

  /** A result of `ORDER BY created_at`: any rearrangement that is sorted by time. */
  ghost predicate OrderedByTime(rows: seq<Entry>, chain: seq<Entry>) {
    multiset(rows) == multiset(chain) && TimesSorted(rows)
  }

  predicate TimesStrict(chain: seq<Entry>) {
    forall i :: 0 <= i < |chain| - 1 ==> chain[i].createdAt < chain[i + 1].createdAt
  }

  lemma {:induction false} StrictEverywhere(chain: seq<Entry>, i: nat, j: nat)
    requires TimesStrict(chain) && i < j < |chain|
    ensures chain[i].createdAt < chain[j].createdAt
  {
    if i + 1 < j { StrictEverywhere(chain, i, j - 1); }
  }

  lemma {:induction false} LastIsLatest(rows: seq<Entry>, chain: seq<Entry>)
    requires TimesStrict(chain) && OrderedByTime(rows, chain) && chain != []
    ensures |rows| == |chain| && rows[|rows| - 1] == chain[|chain| - 1]
  {
    var n := |chain| - 1;
    assert |rows| == |multiset(rows)| == |multiset(chain)| == |chain|;
    var x, y := rows[n], chain[n];
    assert x in multiset(rows) && y in multiset(chain);
    var i :| 0 <= i < |rows| && rows[i] == y;
    var j :| 0 <= j < |chain| && chain[j] == x;
    if j < n { StrictEverywhere(chain, j, n); }
  }

  lemma {:induction false} DropLast(rows: seq<Entry>, chain: seq<Entry>)
    requires OrderedByTime(rows, chain) && rows != [] && |rows| == |chain| && rows[|rows| - 1] == chain[|chain| - 1]
    ensures OrderedByTime(rows[..|rows| - 1], chain[..|chain| - 1])
  {
    MultisetOfInit(rows);
    MultisetOfInit(chain);
    CancelElement(multiset(rows[..|rows| - 1]), multiset(chain[..|chain| - 1]), rows[|rows| - 1]);
  }

  /** Without ties there is only one way to sort. */
  lemma {:induction false} StrictOrderIsUnique(rows: seq<Entry>, chain: seq<Entry>)
    requires TimesStrict(chain) && OrderedByTime(rows, chain)
    ensures rows == chain
  {
    if chain == [] {
      assert |rows| == |multiset(rows)| == 0;
    } else {
      LastIsLatest(rows, chain);
      DropLast(rows, chain);
      var n := |chain| - 1;
      StrictOrderIsUnique(rows[..n], chain[..n]);
      assert rows == rows[..n] + [rows[n]] && chain == chain[..n] + [chain[n]];
    }
  }

  /** Two neighbours exchanged. */
  function Swapped(chain: seq<Entry>, i: nat): (rows: seq<Entry>)
    requires i + 1 < |chain|
    ensures |rows| == |chain| && rows[..i] == chain[..i]
    ensures forall k :: 0 <= k < |chain| ==>
      rows[k] == chain[if k == i then i + 1 else if k == i + 1 then i else k]
    ensures multiset(rows) == multiset(chain)
  {
    assert chain == chain[..i] + [chain[i], chain[i + 1]] + chain[i + 2..];
    chain[..i] + [chain[i + 1], chain[i]] + chain[i + 2..]
  }

  /** Two entries with the same time may come back swapped, and then the walk fails. */
  lemma {:induction false} TieBreaksTheWalk(sha: Bytes -> Bytes, u: Bytes, chain: seq<Entry>, i: nat)
    requires Linked(sha, u, chain) && DistinctHashes(chain) && TimesSorted(chain)
    requires i + 1 < |chain| && chain[i].createdAt == chain[i + 1].createdAt
    ensures OrderedByTime(Swapped(chain, i), chain) && !Linked(sha, u, Swapped(chain, i))
  {
    var rows := Swapped(chain, i);
    assert LinkedAt(sha, u, chain, i + 1) && HeadOf(chain[..i + 1]) == Some(chain[i].entryHash);
    assert HeadOf(rows[..i]) != Some(chain[i].entryHash);
    assert !LinkedAt(sha, u, rows, i);
  }

  /** Every answer to `ORDER BY created_at` passes `VerifyChain` against the head. */
  ghost predicate AlwaysVerifies(sha: Bytes -> Bytes, u: Bytes, chain: seq<Entry>) {
    forall rows :: OrderedByTime(rows, chain) ==> ChainAccepted(sha, u, rows, HeadOf(chain))
  }

  /** Entry `k` of a rearrangement that links is entry `k` of the chain, if the entries before it are. */
  lemma {:induction false} NextLinkIsFixed(sha: Bytes -> Bytes, u: Bytes, rows: seq<Entry>, chain: seq<Entry>, k: nat)
    requires Linked(sha, u, rows) && Linked(sha, u, chain) && DistinctHashes(chain)
    requires k < |rows| == |chain| && multiset(rows) == multiset(chain) && rows[..k] == chain[..k]
    ensures rows[k] == chain[k]
  {
    assert rows[k] in multiset(chain);
    var j :| 0 <= j < |chain| && chain[j] == rows[k];
    assert LinkedAt(sha, u, rows, k) && LinkedAt(sha, u, chain, j);
    assert HeadOf(chain[..j]) == HeadOf(chain[..k]);
  }

  /** Only one arrangement of a chain links. */
  lemma {:induction false} LinkedArrangementIsUnique(
    sha: Bytes -> Bytes, u: Bytes, rows: seq<Entry>, chain: seq<Entry>, k: nat)
    requires Linked(sha, u, rows) && Linked(sha, u, chain) && DistinctHashes(chain)
    requires multiset(rows) == multiset(chain) && k <= |chain|
    ensures |rows| == |chain| && rows[..k] == chain[..k]
  {
    assert |rows| == |multiset(rows)| == |multiset(chain)| == |chain|;
    if k > 0 {
      LinkedArrangementIsUnique(sha, u, rows, chain, k - 1);
      NextLinkIsFixed(sha, u, rows, chain, k - 1);
      assert rows[..k] == rows[..k - 1] + [rows[k - 1]] && chain[..k] == chain[..k - 1] + [chain[k - 1]];
    }
  }

  /** Insertion into rows sorted by time. */
  function InsertByTime(e: Entry, rows: seq<Entry>): seq<Entry> {
    if rows == [] || rows[|rows| - 1].createdAt <= e.createdAt then rows + [e]
    else InsertByTime(e, rows[..|rows| - 1]) + [rows[|rows| - 1]]
  }

  lemma {:induction false} InsertKeepsRows(e: Entry, rows: seq<Entry>)
    ensures multiset(InsertByTime(e, rows)) == multiset(rows) + multiset{e}
  {
    if rows != [] && rows[|rows| - 1].createdAt > e.createdAt {
      InsertKeepsRows(e, rows[..|rows| - 1]);
      MultisetOfInit(rows);
    }
  }

  /** Everything in the result is the new entry or was there. */
  lemma {:induction false} InsertedAmong(e: Entry, rows: seq<Entry>, i: nat)
    requires i < |InsertByTime(e, rows)|
    ensures InsertByTime(e, rows)[i] == e || InsertByTime(e, rows)[i] in rows
  {
    InsertKeepsRows(e, rows);
    assert InsertByTime(e, rows)[i] in multiset(rows) + multiset{e};
  }

  lemma {:induction false} InsertKeepsOrder(e: Entry, rows: seq<Entry>)
    requires TimesSorted(rows)
    ensures TimesSorted(InsertByTime(e, rows))
  {
    if rows != [] && rows[|rows| - 1].createdAt > e.createdAt {
      var front, last := rows[..|rows| - 1], rows[|rows| - 1];
      InsertKeepsOrder(e, front);
      forall i | 0 <= i < |InsertByTime(e, front)| ensures InsertByTime(e, front)[i].createdAt <= last.createdAt {
        InsertedAmong(e, front, i);
      }
    }
  }

  /** Some answer to `ORDER BY created_at` exists. */
  lemma {:induction false} SomeAnswer(chain: seq<Entry>) returns (rows: seq<Entry>)
    ensures OrderedByTime(rows, chain)
  {
    if chain == [] {
      rows := [];
    } else {
      var front := SomeAnswer(chain[..|chain| - 1]);
      rows := InsertByTime(chain[|chain| - 1], front);
      InsertKeepsRows(chain[|chain| - 1], front);
      InsertKeepsOrder(chain[|chain| - 1], front);
      MultisetOfInit(chain);
    }
  }

  lemma {:induction false} VerifiesIffNoTies(sha: Bytes -> Bytes, u: Bytes, chain: seq<Entry>)
    requires Linked(sha, u, chain) && DistinctHashes(chain)
    ensures AlwaysVerifies(sha, u, chain) <==> TimesStrict(chain)
  {
    if TimesStrict(chain) {
      forall rows | OrderedByTime(rows, chain) ensures ChainAccepted(sha, u, rows, HeadOf(chain)) {
        StrictOrderIsUnique(rows, chain);
      }
    } else if AlwaysVerifies(sha, u, chain) {
      var rows := SomeAnswer(chain);
      LinkedArrangementIsUnique(sha, u, rows, chain, |chain|);
      assert rows[..|chain|] == rows && chain[..|chain|] == chain;
      var i :| 0 <= i < |chain| - 1 && chain[i].createdAt >= chain[i + 1].createdAt;
      TieBreaksTheWalk(sha, u, chain, i);
      assert false;
    }
  }

  /** Whatever the clock did, `verify_chain` accepts a reachable journal for every order the database may
      return among equal timestamps if and only if the timestamps along the chain strictly increase. */
  lemma {:induction false} VerifyChainAcceptsIffNoTies(sha: Bytes -> Bytes, clock: int, steps: seq<Step>, u: Bytes)
    ensures var chain := ChainOf(Run(sha, Initial(clock), steps).db.entries, u);
            AlwaysVerifies(sha, u, chain) <==> TimesStrict(chain)
  {
    EveryRunKeepsChains(sha, clock, steps, u);
    VerifiesIffNoTies(sha, u, ChainOf(Run(sha, Initial(clock), steps).db.entries, u));
  }

  // ---------------------------------------------------------------- a reachable tie

  /** The steps of one whole call. */
  function CallSteps(w: nat, u: Bytes, jwt: Bytes, id: Bytes): seq<Step> {
    [Begin(w, u, jwt), Read(w), Stamp(w, id), Cas(w)]
  }

  /** Two calls of one user, one after the other, within one reading of the clock. */
  function TiedRun(u: Bytes, jwt: Bytes, id: Bytes, other: Bytes): seq<Step> {
    CallSteps(0, u, jwt, id) + CallSteps(1, u, jwt, other)
  }

  /** The entries those calls append. */
  function TiedEntries(sha: Bytes -> Bytes, u: Bytes, jwt: Bytes, id: Bytes, other: Bytes, clock: int): (Entry, Entry) {
    var first := BuildEntry(sha, Call(u, jwt, 0, Reading(0)), None, id, clock);
    (first, BuildEntry(sha, Call(u, jwt, 0, Reading(0)), Some(first.entryHash), other, clock))
  }

  lemma {:induction false} RunConcat(sha: Bytes -> Bytes, s: System, first: seq<Step>, later: seq<Step>)
    ensures Run(sha, s, first + later) == Run(sha, Run(sha, s, first), later)
  {
    if later == [] {
      assert first + later == first;
    } else {
      assert (first + later)[..|first + later| - 1] == first + later[..|later| - 1];
      RunConcat(sha, s, first, later[..|later| - 1]);
    }
  }

  lemma {:induction false} RunFour(sha: Bytes -> Bytes, s: System, a: Step, b: Step, c: Step, d: Step)
    ensures Run(sha, s, [a, b, c, d]) == Apply(sha, Apply(sha, Apply(sha, Apply(sha, s, a), b), c), d)
  {
    assert [a, b, c, d][..3] == [a, b, c] && [a, b, c][..2] == [a, b] && [a, b][..1] == [a] && [a][..0] == [];
    assert Run(sha, s, [a]) == Apply(sha, s, a);
    assert Run(sha, s, [a, b]) == Apply(sha, Apply(sha, s, a), b);
  }

  function Drawn(sha: Bytes -> Bytes, s: System, u: Bytes, jwt: Bytes, id: Bytes): Entry {
    BuildEntry(sha, Call(u, jwt, 0, Reading(0)), GetHead(s.db, u), id, s.clock)
  }

  /** Beginning, reading and stamping leave the call about to append its entry. */
  lemma {:induction false} UndisturbedUntilCas(sha: Bytes -> Bytes, s: System, w: nat, u: Bytes, jwt: Bytes, id: Bytes)
    requires w !in s.calls
    ensures var n := Apply(sha, Apply(sha, Apply(sha, s, Begin(w, u, jwt)), Read(w)), Stamp(w, id));
            && n.db == s.db && n.clock == s.clock && n.calls.Keys == s.calls.Keys + {w}
            && n.calls[w].phase.Appending? && n.calls[w].phase.entry == Drawn(sha, s, u, jwt, id)
  {
    var begun := Apply(sha, s, Begin(w, u, jwt));
    assert begun.calls[w].phase == Reading(0);
    var read := Apply(sha, begun, Read(w));
    assert read.calls[w].phase.head == GetHead(s.db, u);
  }

  /** One whole call, undisturbed: its four steps append one entry built on the head. */
  lemma {:induction false} UndisturbedCall(sha: Bytes -> Bytes, s: System, w: nat, u: Bytes, jwt: Bytes, id: Bytes)
    requires w !in s.calls && KeyFree(s.db, Drawn(sha, s, u, jwt, id))
    ensures var n, e := Run(sha, s, CallSteps(w, u, jwt, id)), Drawn(sha, s, u, jwt, id);
            && n.db == Database(s.db.entries + [e], s.db.heads[u := e.entryHash])
            && n.clock == s.clock && n.calls.Keys == s.calls.Keys + {w}
  {
    RunFour(sha, s, Begin(w, u, jwt), Read(w), Stamp(w, id), Cas(w));
    UndisturbedUntilCas(sha, s, w, u, jwt, id);
  }

  lemma {:induction false} TiedHashesDiffer(
    sha: Bytes -> Bytes, clock: int, u: Bytes, jwt: Bytes, id: Bytes, other: Bytes)
    requires HexValued(sha)
    requires var (first, second) := TiedEntries(sha, u, jwt, id, other, clock);
             CollisionFree(sha, {PreimageOf(first), PreimageOf(second)})
    ensures var (first, second) := TiedEntries(sha, u, jwt, id, other, clock); first.entryHash != second.entryHash
  {
    var (first, second) := TiedEntries(sha, u, jwt, id, other, clock);
    PreimageCollisions(u, None, first.attestationHash, u, second.previousHash, second.attestationHash);
  }

  lemma {:induction false} TiedRunAppendsBoth(
    sha: Bytes -> Bytes, clock: int, u: Bytes, jwt: Bytes, id: Bytes, other: Bytes)
    requires id != other
    requires var (first, second) := TiedEntries(sha, u, jwt, id, other, clock); first.entryHash != second.entryHash
    ensures var (first, second) := TiedEntries(sha, u, jwt, id, other, clock);
            Run(sha, Initial(clock), TiedRun(u, jwt, id, other)).db.entries == [first, second]
  {
    var (first, second) := TiedEntries(sha, u, jwt, id, other, clock);
    UndisturbedCall(sha, Initial(clock), 0, u, jwt, id);
    var s := Run(sha, Initial(clock), CallSteps(0, u, jwt, id));
    assert s.db.entries == [first] && GetHead(s.db, u) == Some(first.entryHash);
    assert Drawn(sha, s, u, jwt, other) == second;
    UndisturbedCall(sha, s, 1, u, jwt, other);
    RunConcat(sha, Initial(clock), CallSteps(0, u, jwt, id), CallSteps(1, u, jwt, other));
    assert [first] + [second] == [first, second];
  }

  /** Ties are reachable: unless the two hashes collide, that run leaves a chain with one timestamp twice,
      so some answer of the database makes `verify_chain` reject it. */
  lemma {:induction false} TieIsReachable(
    sha: Bytes -> Bytes, clock: int, u: Bytes, jwt: Bytes, id: Bytes, other: Bytes)
    requires id != other && HexValued(sha)
    requires var (first, second) := TiedEntries(sha, u, jwt, id, other, clock);
             CollisionFree(sha, {PreimageOf(first), PreimageOf(second)})
    ensures var (first, second) := TiedEntries(sha, u, jwt, id, other, clock);
            var chain := ChainOf(Run(sha, Initial(clock), TiedRun(u, jwt, id, other)).db.entries, u);
            && chain == [first, second] && first.createdAt == second.createdAt
            && !TimesStrict(chain) && !AlwaysVerifies(sha, u, chain)
  {
    var (first, second) := TiedEntries(sha, u, jwt, id, other, clock);
    TiedHashesDiffer(sha, clock, u, jwt, id, other);
    TiedRunAppendsBoth(sha, clock, u, jwt, id, other);
    ChainOfAppend([], first, u);
    ChainOfAppend([first], second, u);
    assert [] + [first] == [first] && [first] + [second] == [first, second];
    VerifyChainAcceptsIffNoTies(sha, clock, TiedRun(u, jwt, id, other), u);
  }
}
