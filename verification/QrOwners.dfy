/** Who started which QR transaction: the lazily pruned owner map, and the two route handlers that rely
    on it.  Instants are nanoseconds; transactions keep milliseconds, the owner map keeps instants. */
module QrOwners {
  import opened Prelude
  import opened TransactionStore
  import Runs = TransactionRuns
  import Dcql

  datatype Owner = Owner(userId: string, userEmail: string, expiresAt: int)

  type Owners = map<string, Owner>

  const NANOS_PER_MILLI := 1_000_000
  const NANOS_PER_SEC := 1_000_000_000

  function Millis(t: int): int { t / NANOS_PER_MILLI }

  /** `retain` then `insert`. */
  function Pruned(m: Owners, now: int): Owners {
    map id | id in m && m[id].expiresAt > now :: m[id]
  }

  function AfterInsert(m: Owners, now: int, id: string, owner: Owner): Owners {
    Pruned(m, now)[id := owner]
  }

  function Lookup(m: Owners, id: string, now: int): Option<Owner> {
    if id in m && m[id].expiresAt > now then Some(m[id]) else None
  }

  class QrUserMap {
    var inner: Owners

    constructor ()
      ensures inner == map[]
    {
      inner := map[];
    }

    method Insert(now: int, id: string, owner: Owner)
      modifies this
      ensures inner == AfterInsert(old(inner), now, id, owner)
    {
      inner := map k | k in inner && inner[k].expiresAt > now :: inner[k];
      inner := inner[id := owner];
    }

    method Get(id: string, now: int) returns (r: Option<Owner>)
      ensures r == Lookup(inner, id, now)
    {
      if id !in inner { return None; }
      if inner[id].expiresAt <= now { return None; }
      return Some(inner[id]);
    }
  }

  // ---------------------------------------------------------------- pruning is invisible

  datatype Insertion = Insertion(now: int, id: string, owner: Owner)

  function AfterInsertions(m: Owners, ins: seq<Insertion>): Owners {
    if ins == [] then m
    else
      var n := |ins| - 1;
      AfterInsert(AfterInsertions(m, ins[..n]), ins[n].now, ins[n].id, ins[n].owner)
  }

  /** The same insertions without pruning. */
  function Unpruned(m: Owners, ins: seq<Insertion>): Owners {
    if ins == [] then m
    else
      var n := |ins| - 1;
      Unpruned(m, ins[..n])[ins[n].id := ins[n].owner]
  }

  predicate InOrder(ins: seq<Insertion>, end: int) {
    && (forall i, j :: 0 <= i < j < |ins| ==> ins[i].now <= ins[j].now)
    && forall i :: 0 <= i < |ins| ==> ins[i].now <= end
  }

  /** An insertion leaves nothing behind that is past its time. */
  lemma InsertionPrunes(m: Owners, now: int, id: string, owner: Owner, other: string)
    ensures other in AfterInsert(m, now, id, owner) <==> other == id || (other in m && now < m[other].expiresAt)
  {
  }

  /** On a clock that never goes back, the pruned map answers every lookup as a map that is never pruned. */
  lemma {:induction false} PruningInvisible(m: Owners, ins: seq<Insertion>, id: string, now: int)
    requires InOrder(ins, now)
    ensures Lookup(AfterInsertions(m, ins), id, now) == Lookup(Unpruned(m, ins), id, now)
  {
    if ins != [] {
      PruningInvisible(m, ins[..|ins| - 1], id, now);
    }
  }

  /** Later insertions for other transactions never hide an owner before its time. */
  lemma {:induction false} OwnerStays(m: Owners, id: string, owner: Owner, at: int, later: seq<Insertion>, now: int)
    requires InOrder(later, now) && forall i :: 0 <= i < |later| ==> later[i].id != id
    ensures Lookup(AfterInsertions(AfterInsert(m, at, id, owner), later), id, now) ==
            if now < owner.expiresAt then Some(owner) else None
  {
    PruningInvisible(AfterInsert(m, at, id, owner), later, id, now);
    UnprunedKeeps(AfterInsert(m, at, id, owner), later, id);
  }

  lemma {:induction false} UnprunedKeeps(m: Owners, ins: seq<Insertion>, id: string)
    requires id in m && forall i :: 0 <= i < |ins| ==> ins[i].id != id
    ensures id in Unpruned(m, ins) && Unpruned(m, ins)[id] == m[id]
  {
    if ins != [] { UnprunedKeeps(m, ins[..|ins| - 1], id); }
  }

  // ---------------------------------------------------------------- owner entry against transaction

  /** The owner entry `generate_qr` writes at `recordedAt`. */
  function OwnerOf(user: string, email: string, recordedAt: int, ttlSecs: int): Owner {
    Owner(user, email, recordedAt + (if ttlSecs < 0 then 0 else ttlSecs) * NANOS_PER_SEC)
  }

  /** A poll at `t` still finds the transaction created at `createdAt`. */
  predicate TransactionLive(createdAt: int, ttlSecs: int, t: int) {
    !(Millis(createdAt) + ttlSecs * MILLIS < Millis(t))
  }

  predicate OwnerKnown(recordedAt: int, ttlSecs: int, t: int) {
    t < recordedAt + (if ttlSecs < 0 then 0 else ttlSecs) * NANOS_PER_SEC
  }

  /** The last instant at which the transaction is still found: the end of the millisecond. */
  function LastLive(createdAt: int, ttlSecs: int): int {
    (Millis(createdAt) + 1) * NANOS_PER_MILLI + ttlSecs * NANOS_PER_SEC - 1
  }

  lemma {:induction false} LiveUntilLast(createdAt: int, ttlSecs: int, t: int)
    ensures TransactionLive(createdAt, ttlSecs, t) <==> t <= LastLive(createdAt, ttlSecs)
  {
  }

  /** The owner is known for as long as the transaction can be polled if and only if the owner entry was
      written in a later millisecond than the transaction was created (or nothing ever lives). */
  lemma {:induction false} OwnerKnownWhileLive(createdAt: int, recordedAt: int, ttlSecs: int)
    requires createdAt <= recordedAt
    ensures (forall t :: recordedAt <= t && TransactionLive(createdAt, ttlSecs, t) ==>
             OwnerKnown(recordedAt, ttlSecs, t))
            <==> ttlSecs < 0 || Millis(createdAt) < Millis(recordedAt)
  {
    var last := LastLive(createdAt, ttlSecs);
    forall t ensures TransactionLive(createdAt, ttlSecs, t) <==> t <= last { LiveUntilLast(createdAt, ttlSecs, t); }
    if ttlSecs >= 0 && Millis(createdAt) == Millis(recordedAt) {
      assert recordedAt <= last && TransactionLive(createdAt, ttlSecs, last) && !OwnerKnown(recordedAt, ttlSecs, last);
    }
  }

  /** Created and recorded in one millisecond with a time to live of 300 seconds: in the last instant the
      transaction is found but its owner is not. */
  lemma OwnerForgottenFirst()
    ensures TransactionLive(0, 300, 300_000_500_000) && !OwnerKnown(400_000, 300, 300_000_500_000)
  {
  }

  // ---------------------------------------------------------------- route handlers

  /** `generate_qr`: create the transaction, then record who started it. */
  method GenerateQr(
    service: OpenId4VpService, owners: QrUserMap, alnum: char -> bool, user: string, email: string,
    id: string, state: string, nonce: string, query: Dcql.Query, clientId: string, responseUri: string, encrypted: bool,
    createdAt: int, recordedAt: int)
    returns (r: Result<string, string>)
    requires createdAt <= recordedAt
    modifies service.transactions, owners
    ensures r.Err? ==>
            owners.inner == old(owners.inner) && service.transactions.inner == old(service.transactions.inner)
    ensures r.Ok? ==>
      && Dcql.Rules(alnum, query)
      && owners.inner ==
           AfterInsert(old(owners.inner), recordedAt, id, OwnerOf(user, email, recordedAt, service.ttlSecs))
      && var before, after := old(service.transactions.inner), service.transactions.inner;
         && r.value == id && id in after && after == before[id := after[id]]
         && IsNewRow(after[id], id, state, nonce, Millis(createdAt), service.ttlSecs, query, clientId, responseUri,
                  encrypted)
  {
    r := service.InitTransaction(alnum, id, state, nonce, Millis(createdAt), query, clientId, responseUri, encrypted);
    if r.Ok? {
      owners.Insert(recordedAt, id, OwnerOf(user, email, recordedAt, service.ttlSecs));
    }
  }

  datatype Reply = Forbidden | Reported(result: StatusResult) | VerifiedNow | VerificationFailed

  /** The answer of `qr_status` without interference, and the store it leaves: ownership, status, inline
      verification, mark; each step reads the clock for itself. */
  function QrAnswer(
    store: Store, owner: Option<Owner>, verifier: Option<(string, string, string) -> bool>,
    user: string, isAdmin: bool, id: string, checkedAt: int, later: int): (Reply, Store)
  {
    if owner.Some? && owner.value.userId != user && !isAdmin then (Forbidden, store)
    else
      var status := if IsExpired(store, id, Millis(checkedAt)) then EXPIRED else StatusOf(store[id], Millis(later));
      if status.status == Received && verifier.Some? && status.response.Some? then
        var token, email := status.response.value, if owner.Some? then owner.value.userEmail else "system";
        if verifier.value(token.vpToken, token.state, email) then (VerifiedNow, store[id := MarkVerified(store[id])])
        else (VerificationFailed, store)
      else (Reported(status), AfterIsExpired(store, id, Millis(checkedAt)))
  }

  /** `qr_status`: Forbidden for exactly those who are not administrators and are not the live owner. */
  method QrStatus(
    service: OpenId4VpService, owners: QrUserMap, verifier: Option<(string, string, string) -> bool>,
    user: string, isAdmin: bool, id: string, ownerAt: int, checkedAt: int, later: int)
    returns (r: Reply)
    modifies service.transactions
    ensures (r, service.transactions.inner) ==
            QrAnswer(old(service.transactions.inner), Lookup(owners.inner, id, ownerAt), verifier, user, isAdmin, id,
                     checkedAt, later)
    ensures r == Forbidden <==> id in owners.inner && ownerAt < owners.inner[id].expiresAt &&
                                owners.inner[id].userId != user && !isAdmin
  {
    var owner := owners.Get(id, ownerAt);
    if owner.Some? && owner.value.userId != user && !isAdmin {
      return Forbidden;
    }
    var status := service.GetTransactionStatus(id, Millis(checkedAt), Millis(later));
    if status.status == Received && verifier.Some? && status.response.Some? {
      var token := status.response.value;
      var email := if owner.Some? then owner.value.userEmail else "system";
      if verifier.value(token.vpToken, token.state, email) {
        service.MarkTransactionVerified(id);
        return VerifiedNow;
      }
      return VerificationFailed;
    }
    return Reported(status);
  }

  // ---------------------------------------------------------------- who is answered, and what

  /** After `generate_qr` and any insertions for other transactions, exactly those are refused who neither started
      the transaction nor are administrators, and only while the owner entry lives: the one who started it is
      always answered, and so is everyone once the entry has lapsed. */
  lemma {:induction false} RefusedExactly(
    m: Owners, id: string, user: string, email: string, ttlSecs: nat, recordedAt: int, insertions: seq<Insertion>,
    store: Store, verifier: Option<(string, string, string) -> bool>, poller: string, isAdmin: bool,
    ownerAt: int, checkedAt: int, later: int)
    requires InOrder(insertions, ownerAt) && forall i :: 0 <= i < |insertions| ==> insertions[i].id != id
    ensures var owners :=
              AfterInsertions(AfterInsert(m, recordedAt, id, OwnerOf(user, email, recordedAt, ttlSecs)), insertions);
            var r := QrAnswer(store, Lookup(owners, id, ownerAt), verifier, poller, isAdmin, id, checkedAt, later).0;
            r == Forbidden <==> ownerAt < recordedAt + 1_000_000_000 * ttlSecs && poller != user && !isAdmin
  {
    OwnerStays(m, id, OwnerOf(user, email, recordedAt, ttlSecs), recordedAt, insertions, ownerAt);
  }

  /** Until then the entry names the one who started the transaction. */
  lemma {:induction false} OwnerIsNamed(
    m: Owners, id: string, user: string, email: string, ttlSecs: nat, recordedAt: int, insertions: seq<Insertion>,
    ownerAt: int)
    requires InOrder(insertions, ownerAt) && forall i :: 0 <= i < |insertions| ==> insertions[i].id != id
    ensures var owners :=
              AfterInsertions(AfterInsert(m, recordedAt, id, OwnerOf(user, email, recordedAt, ttlSecs)), insertions);
            var owner := Lookup(owners, id, ownerAt);
            && (owner.Some? <==> ownerAt < recordedAt + 1_000_000_000 * ttlSecs)
            && (owner.Some? ==> owner.value.userId == user && owner.value.userEmail == email)
  {
    OwnerStays(m, id, OwnerOf(user, email, recordedAt, ttlSecs), recordedAt, insertions, ownerAt);
  }

  /** From the moment `generate_qr` returns until the time to live has passed, a non-admin who did not
      start the transaction is answered Forbidden, whatever other transactions have been inserted meanwhile. */
  lemma {:induction false} StrangersRefused(
    m: Owners, id: string, user: string, email: string, ttlSecs: nat, createdAt: int, recordedAt: int,
    insertions: seq<Insertion>, store: Store, verifier: Option<(string, string, string) -> bool>, stranger: string,
    ownerAt: int, checkedAt: int, later: int)
    requires createdAt <= recordedAt <= ownerAt < createdAt + ttlSecs * NANOS_PER_SEC
    requires InOrder(insertions, ownerAt) && forall i :: 0 <= i < |insertions| ==> insertions[i].id != id
    requires stranger != user
    ensures var owners :=
              AfterInsertions(AfterInsert(m, recordedAt, id, OwnerOf(user, email, recordedAt, ttlSecs)), insertions);
            QrAnswer(store, Lookup(owners, id, ownerAt), verifier, stranger, false, id, checkedAt, later) ==
            (Forbidden, store)
  {
    RefusedExactly(
      m, id, user, email, ttlSecs, recordedAt, insertions, store, verifier, stranger, false, ownerAt, checkedAt, later);
  }

  /** The answer to an owner or administrator does to the store what the three steps of a poll do in the runs when
      nothing comes between them: read, verify against the transaction found by state, mark. */
  lemma {:induction false} AnswerIsThreeSteps(
    accepts: Runs.Verifier, s: Runs.System, t: nat, owner: Option<Owner>, verifier: (string, string, string) -> bool,
    user: string, isAdmin: bool, id: string, at: int, later: int)
    requires s.clock == Millis(at) && t !in s.tasks && (owner.None? || owner.value.userId == user || isAdmin)
    requires forall token, state, email :: verifier(token, state, email) <==>
               accepts(token, FindByState(s.store, state), s.clock)
    ensures var read := Runs.AfterRead(s, t, id);
            var n := Runs.AfterMark(Runs.AfterVerify(accepts, read, t), t);
            n.store == QrAnswer(s.store, owner, Some(verifier), user, isAdmin, id, at, later).1 && n.tasks == s.tasks
  {
    assert Runs.AfterRead(s, t, id).tasks - {t} == s.tasks;
  }

  /** The row is live and holds a response the wallet sent. */
  predicate Answered(store: Store, id: string, checkedAt: int) {
    && id in store && Millis(checkedAt) <= store[id].expiresAt
    && store[id].status == Received && store[id].response.Some?
  }

  /** Whoever is not refused is answered: with the verdict on the wallet's response, asked in the name of the owner, if
      there is a response and a verifier, which alone can change a live row; else with what the row says, and
      Expired for a row that is overdue or absent. */
  lemma {:induction false} AnswersExactly(
    store: Store, owner: Option<Owner>, verifier: Option<(string, string, string) -> bool>,
    user: string, isAdmin: bool, id: string, checkedAt: int, later: int)
    requires owner.None? || owner.value.userId == user || isAdmin
    ensures var (r, after) := QrAnswer(store, owner, verifier, user, isAdmin, id, checkedAt, later);
            if Answered(store, id, checkedAt) && verifier.Some? then
              var token := store[id].response.value;
              if verifier.value(token.vpToken, token.state, if owner.Some? then owner.value.userEmail else "system")
              then r == VerifiedNow && after == store[id := store[id].(status := Verified)]
              else r == VerificationFailed && after == store
            else
              && r.Reported?
              && (id in store && Millis(checkedAt) <= store[id].expiresAt ==>
                    r.result.status == store[id].status && after == store)
              && (id !in store || store[id].expiresAt < Millis(checkedAt) ==>
                    r.result.status == Expired && after == store - {id})
  {
  }
}
