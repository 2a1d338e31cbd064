/** All interleavings of wallet posts, wallet errors, deletions, expiry and status polls.

    A poll is three steps: read the status (an overdue row is removed and reported expired), verify the
    response, mark the transaction.  An update of a row is one step in the in-memory store; the SQLite
    store reads the row, changes the copy and writes it back, so there it is two steps with anything in
    between. */
module TransactionRuns {
  import opened Prelude
  import opened TransactionStore
  import Dcql

  /** What a running operation remembers between its steps. */
  datatype Task =
    | WriteBack(copy: Transaction)
    | Verifying(id: string, seen: Response)
    | Marking(id: string, verdict: Acceptance)

  /** An accepted verification: the response, the transaction it was checked against, and when. */
  datatype Acceptance = Acceptance(response: Response, lookup: Option<Transaction>, at: int)

  /** `created`, `posted`, `reported` and `accepted` record the past. */
  datatype System = System(
    store: Store, tasks: map<nat, Task>, clock: int,
    created: map<string, Transaction>, posted: set<Response>, reported: set<WalletError>, accepted: set<Acceptance>)

  datatype Step =
    | Tick(elapsed: nat)
    | Init(tx: Transaction)
    | Post(response: Response)
    | PostError(error: WalletError)
    | Delete(id: string)
    | Expire(id: string)
    | PollRead(task: nat, id: string)
    | PollVerify(task: nat)
    | PollMark(task: nat)
    // the two-step updates of the SQLite store
    | BeginPost(task: nat, response: Response)
    | BeginPostError(task: nat, error: WalletError)
    | BeginMark(task: nat)
    | FinishUpdate(task: nat)

  predicate IsAtomic(step: Step) {
    !step.BeginPost? && !step.BeginPostError? && !step.BeginMark? && !step.FinishUpdate?
  }

  /** Verification of a token against the transaction found by its state, at a given time. */
  type Verifier = (string, Option<Transaction>, int) -> bool

  function Record(s: System, t: nat, task: Task): System {
    s.(tasks := s.tasks[t := task])
  }

  function Done(s: System, t: nat): System {
    s.(tasks := s.tasks - {t})
  }

  /** A created row: an unused id (ids are fresh UUIDs), pending, with a valid query. */
  predicate Creatable(valid: Dcql.Query -> bool, s: System, tx: Transaction) {
    && tx.id !in s.created && tx.createdAt == s.clock && tx.status == Pending
    && tx.response == None && tx.error == None && valid(tx.query)
  }

  // ---------------------------------------------------------------- steps; one that is not enabled changes nothing

  function AfterInit(valid: Dcql.Query -> bool, s: System, tx: Transaction): System {
    if Creatable(valid, s, tx) && !StateTaken(s.store, tx) then
      s.(store := s.store[tx.id := tx], created := s.created[tx.id := tx])
    else s
  }

  ghost function AfterPost(s: System, r: Response): System {
    s.(posted := s.posted + {r}, store := AfterUpdateByState(s.store, r.state, tx => Receive(tx, r)))
  }

  ghost function AfterPostError(s: System, e: WalletError): System {
    s.(reported := s.reported + {e}, store := AfterUpdateByState(s.store, StateOfError(e), tx => Fail(tx, e)))
  }

  function AfterRead(s: System, t: nat, id: string): System {
    if IsExpired(s.store, id, s.clock) then s.(store := AfterIsExpired(s.store, id, s.clock))
    else if t !in s.tasks && s.store[id].status == Received && s.store[id].response.Some? then
      Record(s, t, Verifying(id, s.store[id].response.value))
    else s
  }

  ghost function AfterVerify(accepts: Verifier, s: System, t: nat): System {
    if t in s.tasks && s.tasks[t].Verifying? then
      var v := s.tasks[t];
      var lookup := FindByState(s.store, v.seen.state);
      if accepts(v.seen.vpToken, lookup, s.clock) then
        var verdict := Acceptance(v.seen, lookup, s.clock);
        Record(s, t, Marking(v.id, verdict)).(accepted := s.accepted + {verdict})
      else Done(s, t)
    else s
  }

  function AfterMark(s: System, t: nat): System {
    if t in s.tasks && s.tasks[t].Marking? then
      Done(s, t).(store := AfterUpdate(s.store, s.tasks[t].id, tx => MarkVerified(tx)))
    else s
  }

  ghost function BegunPost(s: System, t: nat, r: Response): System {
    if t !in s.tasks && HasState(s.store, r.state) then
      Record(s, t, WriteBack(Receive(FindByState(s.store, r.state).value, r))).(posted := s.posted + {r})
    else s.(posted := s.posted + {r})
  }

  ghost function BegunPostError(s: System, t: nat, e: WalletError): System {
    if t !in s.tasks && HasState(s.store, StateOfError(e)) then
      Record(s, t, WriteBack(Fail(FindByState(s.store, StateOfError(e)).value, e))).(reported := s.reported + {e})
    else s.(reported := s.reported + {e})
  }

  function BegunMark(s: System, t: nat): System {
    if t in s.tasks && s.tasks[t].Marking? then
      if s.tasks[t].id in s.store then Record(s, t, WriteBack(MarkVerified(s.store[s.tasks[t].id])))
      else Done(s, t)
    else s
  }

  function Finished(s: System, t: nat): System {
    if t in s.tasks && s.tasks[t].WriteBack? then Done(s, t).(store := AfterSet(s.store, s.tasks[t].copy)) else s
  }

  ghost function Apply(valid: Dcql.Query -> bool, accepts: Verifier, s: System, step: Step): System {
    match step
    case Tick(elapsed) => s.(clock := s.clock + elapsed)
    case Init(tx) => AfterInit(valid, s, tx)
    case Post(r) => AfterPost(s, r)
    case PostError(e) => AfterPostError(s, e)
    case Delete(id) => s.(store := s.store - {id})
    case Expire(id) => s.(store := AfterIsExpired(s.store, id, s.clock))
    case PollRead(t, id) => AfterRead(s, t, id)
    case PollVerify(t) => AfterVerify(accepts, s, t)
    case PollMark(t) => AfterMark(s, t)
    case BeginPost(t, r) => BegunPost(s, t, r)
    case BeginPostError(t, e) => BegunPostError(s, t, e)
    case BeginMark(t) => BegunMark(s, t)
    case FinishUpdate(t) => Finished(s, t)
  }

  ghost function Run(valid: Dcql.Query -> bool, accepts: Verifier, s: System, steps: seq<Step>): System {
    if steps == [] then s
    else Apply(valid, accepts, Run(valid, accepts, s, steps[..|steps| - 1]), steps[|steps| - 1])
  }

  function Start(clock: int): System { System(map[], map[], clock, map[], {}, {}, {}) }

  // ---------------------------------------------------------------- what holds of every row

  /** The fields fixed at creation. */
  predicate SameIdentity(x: Transaction, y: Transaction) {
    && x.id == y.id && x.state == y.state && x.nonce == y.nonce && x.createdAt == y.createdAt
    && x.expiresAt == y.expiresAt && x.query == y.query && x.clientId == y.clientId
    && x.responseUri == y.responseUri && x.encrypted == y.encrypted
  }

  /** An accepted response that had been posted for this state. */
  ghost predicate Justified(s: System, state: string) {
    exists a :: a in s.accepted && a.response in s.posted && a.response.state == state
  }

  /** A row, stored or held as a copy, in the light of the past. */
  ghost predicate RowOk(s: System, tx: Transaction) {
    && tx.id in s.created && SameIdentity(tx, s.created[tx.id])
    && (tx.response.Some? ==> tx.response.value in s.posted && tx.response.value.state == tx.state)
    && (tx.error.Some? ==> tx.error.value in s.reported && StateOfError(tx.error.value) == tx.state)
    && (tx.status == Received ==> tx.response.Some?)
    && (tx.status == Error ==> tx.error.Some?)
    && (tx.status == Verified ==> Justified(s, tx.state))
    && tx.status != Expired
  }

  ghost predicate TaskOk(s: System, task: Task) {
    match task
    case WriteBack(copy) => RowOk(s, copy)
    case Verifying(id, r) => id in s.created && r in s.posted && r.state == s.created[id].state
    case Marking(id, verdict) =>
      && id in s.created && verdict.response in s.posted && verdict.response.state == s.created[id].state
      && verdict in s.accepted
  }

  ghost predicate Inv(valid: Dcql.Query -> bool, s: System) {
    && Keyed(s.store)
    && (forall id :: id in s.store ==> RowOk(s, s.store[id]))
    && (forall t :: t in s.tasks ==> TaskOk(s, s.tasks[t]))
    && (forall id :: id in s.created ==> s.created[id].id == id && valid(s.created[id].query))
  }

  /** The past only grows. */
  ghost predicate Grows(s: System, n: System) {
    && s.posted <= n.posted && s.reported <= n.reported && s.accepted <= n.accepted
    && forall id :: id in s.created ==> id in n.created && n.created[id] == s.created[id]
  }

  lemma {:induction false} GrowthKeepsRow(s: System, n: System, tx: Transaction)
    requires Grows(s, n) && RowOk(s, tx)
    ensures RowOk(n, tx)
  {
  }

  lemma {:induction false} GrowthKeepsTask(s: System, n: System, task: Task)
    requires Grows(s, n) && TaskOk(s, task)
    ensures TaskOk(n, task)
  {
    if task.WriteBack? { GrowthKeepsRow(s, n, task.copy); }
  }

  /** `n` differs from `s` in at most the row `id` and the task `t`. */
  predicate Touches(s: System, n: System, id: string, t: nat) {
    && (n.store == s.store || n.store == s.store - {id} || (id in n.store && n.store == s.store[id := n.store[id]]))
    && (n.tasks == s.tasks || n.tasks == s.tasks - {t} || (t in n.tasks && n.tasks == s.tasks[t := n.tasks[t]]))
  }

  predicate SameRow(s: System, n: System, id: string) {
    id in n.store ==> id in s.store && n.store[id] == s.store[id]
  }

  predicate SameTask(s: System, n: System, t: nat) {
    t in n.tasks ==> t in s.tasks && n.tasks[t] == s.tasks[t]
  }

  /** A step that changes at most one row and one task keeps the invariant when the new ones are fine. */
  lemma {:induction false} LocalStep(valid: Dcql.Query -> bool, s: System, n: System, id: string, t: nat)
    requires Inv(valid, s) && Grows(s, n) && Keyed(n.store) && Touches(s, n, id, t)
    requires SameRow(s, n, id) || RowOk(n, n.store[id])
    requires SameTask(s, n, t) || TaskOk(n, n.tasks[t])
    requires n.created == s.created ||
             (id in n.created && n.created == s.created[id := n.created[id]] && n.created[id].id == id &&
              valid(n.created[id].query))
    ensures Inv(valid, n)
  {
    forall i | i in n.store ensures RowOk(n, n.store[i]) {
      if i in s.store && n.store[i] == s.store[i] { GrowthKeepsRow(s, n, s.store[i]); }
    }
    forall u | u in n.tasks ensures TaskOk(n, n.tasks[u]) {
      if u in s.tasks && n.tasks[u] == s.tasks[u] { GrowthKeepsTask(s, n, s.tasks[u]); }
    }
  }

  /** Time passing, and a row going away. */
  lemma {:induction false} RemovalKeepsInv(valid: Dcql.Query -> bool, s: System, elapsed: nat, id: string)
    requires Inv(valid, s)
    ensures Inv(valid, s.(clock := s.clock + elapsed)) && Inv(valid, s.(store := s.store - {id}))
    ensures Inv(valid, s.(store := AfterIsExpired(s.store, id, s.clock)))
  {
    LocalStep(valid, s, s.(clock := s.clock + elapsed), "", 0);
    LocalStep(valid, s, s.(store := s.store - {id}), id, 0);
  }

  /** The id of the row found by a state, if there is one. */
  ghost function FoundId(s: System, state: string): string {
    match FindByState(s.store, state)
    case Some(tx) => tx.id
    case None => ""
  }

  /** A wallet response fits the row it finds. */
  lemma {:induction false} ResponseFits(valid: Dcql.Query -> bool, s: System, n: System, r: Response)
    requires Inv(valid, s) && Grows(s, n) && r in n.posted && HasState(s.store, r.state)
    ensures var tx := FindByState(s.store, r.state).value;
            tx.id in s.store && s.store[tx.id] == tx && RowOk(n, Receive(tx, r))
  {
  }

  lemma {:induction false} ErrorFits(valid: Dcql.Query -> bool, s: System, n: System, e: WalletError)
    requires Inv(valid, s) && Grows(s, n) && e in n.reported && HasState(s.store, StateOfError(e))
    ensures var tx := FindByState(s.store, StateOfError(e)).value;
            tx.id in s.store && s.store[tx.id] == tx && RowOk(n, Fail(tx, e))
  {
  }

  lemma {:induction false} PostKeepsInv(valid: Dcql.Query -> bool, s: System, r: Response)
    requires Inv(valid, s)
    ensures Inv(valid, AfterPost(s, r))
  {
    var n := AfterPost(s, r);
    if HasState(s.store, r.state) { ResponseFits(valid, s, n, r); }
    LocalStep(valid, s, n, FoundId(s, r.state), 0);
  }

  lemma {:induction false} PostErrorKeepsInv(valid: Dcql.Query -> bool, s: System, e: WalletError)
    requires Inv(valid, s)
    ensures Inv(valid, AfterPostError(s, e))
  {
    var n := AfterPostError(s, e);
    if HasState(s.store, StateOfError(e)) { ErrorFits(valid, s, n, e); }
    LocalStep(valid, s, n, FoundId(s, StateOfError(e)), 0);
  }

  lemma {:induction false} BeginPostKeepsInv(valid: Dcql.Query -> bool, s: System, t: nat, r: Response)
    requires Inv(valid, s)
    ensures Inv(valid, BegunPost(s, t, r))
  {
    var n := BegunPost(s, t, r);
    if HasState(s.store, r.state) { ResponseFits(valid, s, n, r); }
    LocalStep(valid, s, n, "", t);
  }

  lemma {:induction false} BeginPostErrorKeepsInv(valid: Dcql.Query -> bool, s: System, t: nat, e: WalletError)
    requires Inv(valid, s)
    ensures Inv(valid, BegunPostError(s, t, e))
  {
    var n := BegunPostError(s, t, e);
    if HasState(s.store, StateOfError(e)) { ErrorFits(valid, s, n, e); }
    LocalStep(valid, s, n, "", t);
  }

  /** A row about to be marked was justified by the accepted response of the poll. */
  lemma {:induction false} MarkedRowOk(valid: Dcql.Query -> bool, s: System, n: System, t: nat)
    requires Inv(valid, s) && t in s.tasks && s.tasks[t].Marking? && s.tasks[t].id in s.store && Grows(s, n)
    ensures RowOk(n, MarkVerified(s.store[s.tasks[t].id]))
  {
    var m := s.tasks[t];
    assert TaskOk(s, m) && RowOk(s, s.store[m.id]);
    assert m.verdict in s.accepted;
    GrowthKeepsRow(s, n, MarkVerified(s.store[m.id]));
  }

  lemma {:induction false} PollMarkKeepsInv(valid: Dcql.Query -> bool, s: System, t: nat)
    requires Inv(valid, s)
    ensures Inv(valid, AfterMark(s, t))
  {
    if t in s.tasks && s.tasks[t].Marking? {
      var n := AfterMark(s, t);
      if s.tasks[t].id in s.store { MarkedRowOk(valid, s, n, t); }
      LocalStep(valid, s, n, s.tasks[t].id, t);
    }
  }

  lemma {:induction false} BeginMarkKeepsInv(valid: Dcql.Query -> bool, s: System, t: nat)
    requires Inv(valid, s)
    ensures Inv(valid, BegunMark(s, t))
  {
    if t in s.tasks && s.tasks[t].Marking? {
      var n := BegunMark(s, t);
      if s.tasks[t].id in s.store { MarkedRowOk(valid, s, n, t); }
      LocalStep(valid, s, n, "", t);
    }
  }

  lemma {:induction false} VerifyKeepsInv(valid: Dcql.Query -> bool, accepts: Verifier, s: System, t: nat)
    requires Inv(valid, s)
    ensures Inv(valid, AfterVerify(accepts, s, t))
  {
    if t in s.tasks && s.tasks[t].Verifying? {
      var n := AfterVerify(accepts, s, t);
      assert TaskOk(s, s.tasks[t]);
      assert SameTask(s, n, t) || TaskOk(n, n.tasks[t]);
      LocalStep(valid, s, n, "", t);
    }
  }

  lemma {:induction false} FinishKeepsInv(valid: Dcql.Query -> bool, s: System, t: nat)
    requires Inv(valid, s)
    ensures Inv(valid, Finished(s, t))
  {
    if t in s.tasks && s.tasks[t].WriteBack? {
      var n, copy := Finished(s, t), s.tasks[t].copy;
      assert TaskOk(s, s.tasks[t]);
      SetKeepsKeyed(s.store, copy);
      GrowthKeepsRow(s, n, copy);
      LocalStep(valid, s, n, copy.id, t);
    }
  }

  lemma {:induction false} ReadKeepsInv(valid: Dcql.Query -> bool, s: System, t: nat, id: string)
    requires Inv(valid, s)
    ensures Inv(valid, AfterRead(s, t, id))
  {
    var n := AfterRead(s, t, id);
    if IsExpired(s.store, id, s.clock) {
      RemovalKeepsInv(valid, s, 0, id);
    } else if n != s {
      assert RowOk(s, s.store[id]);
      assert TaskOk(n, n.tasks[t]);
      LocalStep(valid, s, n, "", t);
    }
  }

  lemma {:induction false} InitKeepsInv(valid: Dcql.Query -> bool, s: System, tx: Transaction)
    requires Inv(valid, s)
    ensures Inv(valid, AfterInit(valid, s, tx))
  {
    if Creatable(valid, s, tx) && !StateTaken(s.store, tx) {
      var n := AfterInit(valid, s, tx);
      SetKeepsKeyed(s.store, tx);
      assert n.store == AfterSet(s.store, tx) && RowOk(n, tx);
      LocalStep(valid, s, n, tx.id, 0);
    }
  }

  lemma {:induction false} AtomicStepKeepsInv(valid: Dcql.Query -> bool, accepts: Verifier, s: System, step: Step)
    requires Inv(valid, s) && IsAtomic(step)
    ensures Inv(valid, Apply(valid, accepts, s, step))
  {
    match step
    case Tick(elapsed) => RemovalKeepsInv(valid, s, elapsed, "");
    case Init(tx) => InitKeepsInv(valid, s, tx);
    case Post(r) => PostKeepsInv(valid, s, r);
    case PostError(e) => PostErrorKeepsInv(valid, s, e);
    case Delete(id) => RemovalKeepsInv(valid, s, 0, id);
    case Expire(id) => RemovalKeepsInv(valid, s, 0, id);
    case PollRead(t, id) => ReadKeepsInv(valid, s, t, id);
    case PollVerify(t) => VerifyKeepsInv(valid, accepts, s, t);
    case PollMark(t) => PollMarkKeepsInv(valid, s, t);
  }

  lemma {:induction false} StepKeepsInv(valid: Dcql.Query -> bool, accepts: Verifier, s: System, step: Step)
    requires Inv(valid, s)
    ensures Inv(valid, Apply(valid, accepts, s, step))
  {
    match step
    case BeginPost(t, r) => BeginPostKeepsInv(valid, s, t, r);
    case BeginPostError(t, e) => BeginPostErrorKeepsInv(valid, s, t, e);
    case BeginMark(t) => BeginMarkKeepsInv(valid, s, t);
    case FinishUpdate(t) => FinishKeepsInv(valid, s, t);
    case _ => AtomicStepKeepsInv(valid, accepts, s, step);
  }

  lemma {:induction false} RunKeepsInv(valid: Dcql.Query -> bool, accepts: Verifier, s: System, steps: seq<Step>)
    requires Inv(valid, s)
    ensures Inv(valid, Run(valid, accepts, s, steps))
  {
    if steps != [] {
      RunKeepsInv(valid, accepts, s, steps[..|steps| - 1]);
      StepKeepsInv(valid, accepts, Run(valid, accepts, s, steps[..|steps| - 1]), steps[|steps| - 1]);
    }
  }

  // ---------------------------------------------------------------- what every run guarantees

  /** The rows of every reachable store, for either kind of update: states are pairwise distinct, the
      identity of a row is the one it was created with, its query is valid, Received and Error come
      with a stored message for the row's own state, and Verified only after a response posted for
      that state was accepted. */
  lemma {:induction false} EveryRunKeepsRows(
    valid: Dcql.Query -> bool, accepts: Verifier, clock: int, steps: seq<Step>, id: string)
    requires id in Run(valid, accepts, Start(clock), steps).store
    ensures var s := Run(valid, accepts, Start(clock), steps);
            var tx := s.store[id];
            && Keyed(s.store) && FindByState(s.store, tx.state) == Some(tx)
            && id in s.created && SameIdentity(tx, s.created[id]) && valid(tx.query)
            && (tx.status == Received ==>
                  tx.response.Some? && tx.response.value in s.posted && tx.response.value.state == tx.state)
            && (tx.status == Error ==>
                  tx.error.Some? && tx.error.value in s.reported && StateOfError(tx.error.value) == tx.state)
            && (tx.status == Verified ==> Justified(s, tx.state))
  {
    RunKeepsInv(valid, accepts, Start(clock), steps);
    var s := Run(valid, accepts, Start(clock), steps);
    assert RowOk(s, s.store[id]);
    FoundIsUnique(s.store, id);
  }

  /** What a poll of a live row reports: a response only if the wallet posted it for this row's own state,
      together with the nonce fixed at creation; an error only if the wallet reported it for this row. */
  lemma {:induction false} EveryPollReportsItsOwn(
    valid: Dcql.Query -> bool, accepts: Verifier, clock: int, steps: seq<Step>, id: string, now: int)
    requires id in Run(valid, accepts, Start(clock), steps).store
    ensures var s := Run(valid, accepts, Start(clock), steps);
            var r := StatusOf(s.store[id], now);
            && id in s.created && r.status == s.store[id].status
            && (r.status == Received <==> r.response.Some?) && (r.response.Some? <==> r.nonce.Some?)
            && (r.response.Some? ==> r.response.value in s.posted && r.response.value.state == s.created[id].state &&
                                     r.nonce == Some(s.created[id].nonce))
            && (r.status == Error <==> r.error.Some?)
            && (r.error.Some? ==> r.error.value in s.reported && StateOfError(r.error.value) == s.created[id].state)
            && (r.status == Pending || r.status == Verified <==> r.expiresIn.Some?)
  {
    RunKeepsInv(valid, accepts, Start(clock), steps);
    var s := Run(valid, accepts, Start(clock), steps);
    assert RowOk(s, s.store[id]);
  }

  // ---------------------------------------------------------------- checked against the same transaction

  /** Some accepted response for this row's state was checked against this row: its nonce, client_id and
      response_uri. */
  ghost predicate CheckedItself(s: System, id: string) {
    id in s.created && exists a :: a in s.accepted && a.lookup.Some? && SameIdentity(a.lookup.value, s.created[id]) &&
                                   a.response in s.posted && a.response.state == s.created[id].state
  }

  lemma {:induction false} VerifiesWhatItRead(valid: Dcql.Query -> bool, s: System, t: nat)
    requires Inv(valid, s) && t in s.tasks && s.tasks[t].Verifying? && s.tasks[t].id in s.store
    ensures FindByState(s.store, s.tasks[t].seen.state) == Some(s.store[s.tasks[t].id])
    ensures SameIdentity(s.store[s.tasks[t].id], s.created[s.tasks[t].id])
  {
    assert TaskOk(s, s.tasks[t]) && RowOk(s, s.store[s.tasks[t].id]);
    FoundIsUnique(s.store, s.tasks[t].id);
  }

  lemma {:induction false} CheckedStays(s: System, n: System, id: string)
    requires Grows(s, n) && CheckedItself(s, id)
    ensures CheckedItself(n, id)
  {
  }

  /** A poll about to mark a row that is still there was checked against that row, and so was a row
      about to be written back as Verified. */
  ghost predicate MarkFits(s: System, task: Task) {
    match task
    case WriteBack(copy) => copy.status == Verified ==> CheckedItself(s, copy.id)
    case Verifying(_, _) => true
    case Marking(id, verdict) =>
      id in s.store ==> verdict.lookup.Some? && id in s.created && SameIdentity(verdict.lookup.value, s.created[id])
  }

  ghost predicate ChecksItself(s: System) {
    && (forall t :: t in s.tasks ==> MarkFits(s, s.tasks[t]))
    && (forall id :: id in s.store && s.store[id].status == Verified ==> CheckedItself(s, id))
  }

  /** A step that changes at most one row, of which no poll is about to mark the absence, and one task. */
  lemma {:induction false} LocalCheck(s: System, n: System, id: string, t: nat)
    requires ChecksItself(s) && Grows(s, n) && Touches(s, n, id, t)
    requires SameTask(s, n, t) || MarkFits(n, n.tasks[t])
    requires id in n.store && id !in s.store ==>
               forall u :: u in s.tasks && s.tasks[u].Marking? ==> s.tasks[u].id != id
    requires id in n.store && n.store[id].status == Verified ==>
               (id in s.store && s.store[id].status == Verified) || CheckedItself(n, id)
    ensures ChecksItself(n)
  {
    forall i | i in n.store && n.store[i].status == Verified ensures CheckedItself(n, i) {
      if i in s.store && s.store[i].status == Verified { CheckedStays(s, n, i); }
    }
    forall u | u in n.tasks ensures MarkFits(n, n.tasks[u]) {
      if u in s.tasks && n.tasks[u] == s.tasks[u] {
        assert MarkFits(s, s.tasks[u]);
        if s.tasks[u].WriteBack? && s.tasks[u].copy.status == Verified { CheckedStays(s, n, s.tasks[u].copy.id); }
      }
    }
  }

  lemma {:induction false} PostKeepsCheck(valid: Dcql.Query -> bool, s: System, r: Response)
    requires Inv(valid, s) && ChecksItself(s)
    ensures ChecksItself(AfterPost(s, r))
  {
    LocalCheck(s, AfterPost(s, r), FoundId(s, r.state), 0);
  }

  lemma {:induction false} PostErrorKeepsCheck(valid: Dcql.Query -> bool, s: System, e: WalletError)
    requires Inv(valid, s) && ChecksItself(s)
    ensures ChecksItself(AfterPostError(s, e))
  {
    LocalCheck(s, AfterPostError(s, e), FoundId(s, StateOfError(e)), 0);
  }

  lemma {:induction false} InitKeepsCheck(valid: Dcql.Query -> bool, s: System, tx: Transaction)
    requires Inv(valid, s) && ChecksItself(s)
    ensures ChecksItself(AfterInit(valid, s, tx))
  {
    forall t | t in s.tasks && s.tasks[t].Marking? ensures s.tasks[t].id in s.created {
      assert TaskOk(s, s.tasks[t]);
    }
    LocalCheck(s, AfterInit(valid, s, tx), tx.id, 0);
  }

  lemma {:induction false} VerifyKeepsCheck(valid: Dcql.Query -> bool, accepts: Verifier, s: System, t: nat)
    requires Inv(valid, s) && ChecksItself(s)
    ensures ChecksItself(AfterVerify(accepts, s, t))
  {
    if t in s.tasks && s.tasks[t].Verifying? {
      assert TaskOk(s, s.tasks[t]);
      if s.tasks[t].id in s.store { VerifiesWhatItRead(valid, s, t); }
    }
    LocalCheck(s, AfterVerify(accepts, s, t), "", t);
  }

  lemma {:induction false} MarkIsChecked(valid: Dcql.Query -> bool, s: System, n: System, t: nat)
    requires Inv(valid, s) && ChecksItself(s) && t in s.tasks && s.tasks[t].Marking? && s.tasks[t].id in s.store
    requires Grows(s, n)
    ensures CheckedItself(n, s.tasks[t].id) && s.store[s.tasks[t].id].id == s.tasks[t].id
  {
    var m := s.tasks[t];
    assert TaskOk(s, m) && MarkFits(s, m);
    assert m.verdict in s.accepted;
    CheckedStays(s, n, m.id);
  }

  lemma {:induction false} PollMarkKeepsCheck(valid: Dcql.Query -> bool, s: System, t: nat)
    requires Inv(valid, s) && ChecksItself(s)
    ensures ChecksItself(AfterMark(s, t))
  {
    if t in s.tasks && s.tasks[t].Marking? {
      if s.tasks[t].id in s.store { MarkIsChecked(valid, s, AfterMark(s, t), t); }
      LocalCheck(s, AfterMark(s, t), s.tasks[t].id, t);
    }
  }

  lemma {:induction false} BeginMarkKeepsCheck(valid: Dcql.Query -> bool, s: System, t: nat)
    requires Inv(valid, s) && ChecksItself(s)
    ensures ChecksItself(BegunMark(s, t))
  {
    if t in s.tasks && s.tasks[t].Marking? {
      if s.tasks[t].id in s.store { MarkIsChecked(valid, s, BegunMark(s, t), t); }
      LocalCheck(s, BegunMark(s, t), "", t);
    }
  }

  /** A write-back that brings back a row removed since it was read. */
  predicate Restores(s: System, step: Step) {
    && step.FinishUpdate? && step.task in s.tasks && s.tasks[step.task].WriteBack?
    && s.tasks[step.task].copy.id !in s.store
  }

  lemma {:induction false} FinishKeepsCheck(valid: Dcql.Query -> bool, s: System, t: nat)
    requires Inv(valid, s) && ChecksItself(s) && !Restores(s, FinishUpdate(t))
    ensures ChecksItself(Finished(s, t))
  {
    if t in s.tasks && s.tasks[t].WriteBack? {
      var n, copy := Finished(s, t), s.tasks[t].copy;
      assert MarkFits(s, s.tasks[t]);
      if copy.status == Verified { CheckedStays(s, n, copy.id); }
      LocalCheck(s, n, copy.id, t);
    }
  }

  /** Time passing, and a row going away. */
  lemma {:induction false} RemovalKeepsCheck(s: System, elapsed: nat, id: string)
    requires ChecksItself(s)
    ensures ChecksItself(s.(clock := s.clock + elapsed)) && ChecksItself(s.(store := s.store - {id}))
    ensures ChecksItself(s.(store := AfterIsExpired(s.store, id, s.clock)))
  {
    LocalCheck(s, s.(clock := s.clock + elapsed), "", 0);
    LocalCheck(s, s.(store := s.store - {id}), id, 0);
  }

  lemma {:induction false} ReadKeepsCheck(s: System, t: nat, id: string)
    requires ChecksItself(s)
    ensures ChecksItself(AfterRead(s, t, id))
  {
    LocalCheck(s, AfterRead(s, t, id), id, t);
  }

  lemma {:induction false} BeginPostKeepsCheck(s: System, t: nat, r: Response)
    requires ChecksItself(s)
    ensures ChecksItself(BegunPost(s, t, r))
  {
    LocalCheck(s, BegunPost(s, t, r), "", t);
  }

  lemma {:induction false} BeginPostErrorKeepsCheck(s: System, t: nat, e: WalletError)
    requires ChecksItself(s)
    ensures ChecksItself(BegunPostError(s, t, e))
  {
    LocalCheck(s, BegunPostError(s, t, e), "", t);
  }

  lemma {:induction false} StepKeepsCheck(valid: Dcql.Query -> bool, accepts: Verifier, s: System, step: Step)
    requires Inv(valid, s) && ChecksItself(s) && !Restores(s, step)
    ensures ChecksItself(Apply(valid, accepts, s, step))
  {
    match step
    case Tick(elapsed) => RemovalKeepsCheck(s, elapsed, "");
    case Init(tx) => InitKeepsCheck(valid, s, tx);
    case Post(r) => PostKeepsCheck(valid, s, r);
    case PostError(e) => PostErrorKeepsCheck(valid, s, e);
    case Delete(id) => RemovalKeepsCheck(s, 0, id);
    case Expire(id) => RemovalKeepsCheck(s, 0, id);
    case PollRead(t, id) => ReadKeepsCheck(s, t, id);
    case PollVerify(t) => VerifyKeepsCheck(valid, accepts, s, t);
    case PollMark(t) => PollMarkKeepsCheck(valid, s, t);
    case BeginPost(t, r) => BeginPostKeepsCheck(s, t, r);
    case BeginPostError(t, e) => BeginPostErrorKeepsCheck(s, t, e);
    case BeginMark(t) => BeginMarkKeepsCheck(valid, s, t);
    case FinishUpdate(t) => FinishKeepsCheck(valid, s, t);
  }

  /** No step of the run brings back a removed row. */
  ghost predicate NeverRestores(valid: Dcql.Query -> bool, accepts: Verifier, s: System, steps: seq<Step>) {
    steps == [] ||
    (NeverRestores(valid, accepts, s, steps[..|steps| - 1]) &&
     !Restores(Run(valid, accepts, s, steps[..|steps| - 1]), steps[|steps| - 1]))
  }

  /** In every run whose write-backs never bring back a removed row, a row is Verified only if a response
      posted for its own state was accepted by a verification that was given this very transaction. */
  lemma {:induction false} RunChecksItself(valid: Dcql.Query -> bool, accepts: Verifier, clock: int, steps: seq<Step>)
    requires NeverRestores(valid, accepts, Start(clock), steps)
    ensures ChecksItself(Run(valid, accepts, Start(clock), steps))
  {
    if steps != [] {
      var before := steps[..|steps| - 1];
      RunChecksItself(valid, accepts, clock, before);
      RunKeepsInv(valid, accepts, Start(clock), before);
      StepKeepsCheck(valid, accepts, Run(valid, accepts, Start(clock), before), steps[|steps| - 1]);
    }
  }

  /** With atomic updates nothing is ever written back. */
  lemma {:induction false} AtomicNeverRestores(
    valid: Dcql.Query -> bool, accepts: Verifier, s: System, steps: seq<Step>)
    requires forall i :: 0 <= i < |steps| ==> IsAtomic(steps[i])
    ensures NeverRestores(valid, accepts, s, steps)
    ensures (forall t :: t in s.tasks ==> !s.tasks[t].WriteBack?) ==>
              forall t :: t in Run(valid, accepts, s, steps).tasks ==>
                !Run(valid, accepts, s, steps).tasks[t].WriteBack?
  {
    if steps != [] {
      AtomicNeverRestores(valid, accepts, s, steps[..|steps| - 1]);
    }
  }

  // ---------------------------------------------------------------- a row that comes back unchecked

  /** Two-step updates in which the restriction matters: a slow post has read the row, a poll reads the
      response, the row is removed, the verification finds no transaction, and the slow post and the
      mark then write the row back.  Here the row is deleted. */
  function RestoringRun(tx: Transaction, r: Response): seq<Step> {
    Opening(tx, r) + [Delete(tx.id)] + Closing()
  }

  /** The same, with a row that expires between the read and the verification of the poll. */
  function ExpiringRun(tx: Transaction, r: Response, elapsed: nat): seq<Step> {
    Opening(tx, r) + [Tick(elapsed), Expire(tx.id)] + Closing()
  }

  function Opening(tx: Transaction, r: Response): seq<Step> {
    [Init(tx), BeginPost(0, r), Post(r), PollRead(1, tx.id)]
  }

  function Closing(): seq<Step> { [PollVerify(1), FinishUpdate(0), PollMark(1)] }

  lemma {:induction false} RunConcat(
    valid: Dcql.Query -> bool, accepts: Verifier, s: System, first: seq<Step>, later: seq<Step>)
    ensures Run(valid, accepts, s, first + later) == Run(valid, accepts, Run(valid, accepts, s, first), later)
  {
    if later == [] {
      assert first + later == first;
    } else {
      var n := |later| - 1;
      assert (first + later)[..|first + later| - 1] == first + later[..n];
      RunConcat(valid, accepts, s, first, later[..n]);
    }
  }

  lemma {:induction false} RunTwo(valid: Dcql.Query -> bool, accepts: Verifier, s: System, a: Step, b: Step)
    ensures Run(valid, accepts, s, [a]) == Apply(valid, accepts, s, a)
    ensures Run(valid, accepts, s, [a, b]) == Apply(valid, accepts, Apply(valid, accepts, s, a), b)
  {
    assert [a][..0] == [] && [a, b][..1] == [a];
  }

  /** Created, with a slow post in flight. */
  lemma {:induction false} InitThenSlowPost(
    valid: Dcql.Query -> bool, accepts: Verifier, clock: int, tx: Transaction, r: Response)
    requires Creatable(valid, Start(clock), tx) && r.state == tx.state
    ensures Run(valid, accepts, Start(clock), [Init(tx), BeginPost(0, r)]) ==
            System(map[tx.id := tx], map[0 := WriteBack(Receive(tx, r))], clock, map[tx.id := tx], {r}, {}, {})
  {
    RunTwo(valid, accepts, Start(clock), Init(tx), BeginPost(0, r));
    FoundIsUnique(AfterInit(valid, Start(clock), tx).store, tx.id);
  }

  /** Then posted and read by a poll. */
  lemma {:induction false} ReadWhilePosting(
    valid: Dcql.Query -> bool, accepts: Verifier, clock: int, tx: Transaction, r: Response)
    requires Creatable(valid, Start(clock), tx) && r.state == tx.state && tx.expiresAt >= clock
    ensures Run(valid, accepts, Start(clock), Opening(tx, r)) ==
            System(map[tx.id := Receive(tx, r)], map[0 := WriteBack(Receive(tx, r)), 1 := Verifying(tx.id, r)], clock,
                   map[tx.id := tx], {r}, {}, {})
  {
    InitThenSlowPost(valid, accepts, clock, tx, r);
    var s := Run(valid, accepts, Start(clock), [Init(tx), BeginPost(0, r)]);
    RunTwo(valid, accepts, s, Post(r), PollRead(1, tx.id));
    FoundIsUnique(s.store, tx.id);
    assert Opening(tx, r) == [Init(tx), BeginPost(0, r)] + [Post(r), PollRead(1, tx.id)];
    RunConcat(valid, accepts, Start(clock), [Init(tx), BeginPost(0, r)], [Post(r), PollRead(1, tx.id)]);
    var posted := s.(store := map[tx.id := Receive(tx, r)]);
    assert AfterPost(s, r) == posted by { assert s.posted + {r} == {r}; }
  }

  /** What both runs end in: a Verified row, and no acceptance that was given any transaction. */
  ghost predicate EndsUnchecked(s: System, id: string) {
    && id in s.store && s.store[id].status == Verified && id in s.created
    && forall a :: a in s.accepted ==> a.lookup.None?
  }

  /** An empty store with the slow post and the poll still running. */
  ghost predicate Emptied(accepts: Verifier, s: System, tx: Transaction, r: Response) {
    && s.store == map[] && s.tasks == map[0 := WriteBack(Receive(tx, r)), 1 := Verifying(tx.id, r)]
    && s.accepted == {} && tx.id in s.created && accepts(r.vpToken, None, s.clock)
  }

  lemma {:induction false} ClosingSteps(accepts: Verifier, s: System, tx: Transaction, r: Response)
    requires Emptied(accepts, s, tx, r)
    ensures EndsUnchecked(AfterMark(Finished(AfterVerify(accepts, s, 1), 0), 1), tx.id)
  {
    var verdict := Acceptance(r, None, s.clock);
    assert !HasState(s.store, r.state);
    var verified := s.(tasks := s.tasks[1 := Marking(tx.id, verdict)], accepted := {verdict});
    assert AfterVerify(accepts, s, 1) == verified by { assert s.accepted + {verdict} == {verdict}; }
    var restored := Finished(verified, 0);
    assert restored.store == map[tx.id := Receive(tx, r)] && restored.tasks == map[1 := Marking(tx.id, verdict)];
  }

  lemma {:induction false} ClosingRestores(
    valid: Dcql.Query -> bool, accepts: Verifier, s: System, tx: Transaction, r: Response)
    requires Emptied(accepts, s, tx, r)
    ensures EndsUnchecked(Run(valid, accepts, s, Closing()), tx.id)
  {
    ClosingSteps(accepts, s, tx, r);
    assert Closing() == [PollVerify(1), FinishUpdate(0)] + [PollMark(1)];
    RunConcat(valid, accepts, s, [PollVerify(1), FinishUpdate(0)], [PollMark(1)]);
    RunTwo(valid, accepts, s, PollVerify(1), FinishUpdate(0));
    RunTwo(valid, accepts, Finished(AfterVerify(accepts, s, 1), 0), PollMark(1), PollMark(1));
  }

  /** If the verifier accepts the token without a transaction, the run with a deletion ends with a Verified
      row that was never checked against its own transaction or any other. */
  lemma {:induction false} RestoredRowUnchecked(
    valid: Dcql.Query -> bool, accepts: Verifier, clock: int, tx: Transaction, r: Response)
    requires Creatable(valid, Start(clock), tx) && r.state == tx.state && tx.expiresAt >= clock
    requires accepts(r.vpToken, None, clock)
    ensures var s := Run(valid, accepts, Start(clock), RestoringRun(tx, r));
            EndsUnchecked(s, tx.id) && !CheckedItself(s, tx.id)
  {
    ReadWhilePosting(valid, accepts, clock, tx, r);
    var s := Run(valid, accepts, Start(clock), Opening(tx, r));
    RunConcat(valid, accepts, Start(clock), Opening(tx, r) + [Delete(tx.id)], Closing());
    RunConcat(valid, accepts, Start(clock), Opening(tx, r), [Delete(tx.id)]);
    RunTwo(valid, accepts, s, Delete(tx.id), Delete(tx.id));
    assert s.store - {tx.id} == map[];
    ClosingRestores(valid, accepts, Apply(valid, accepts, s, Delete(tx.id)), tx, r);
  }

  /** The same without any deletion, if the token is still accepted after the transaction has expired. */
  lemma {:induction false} ExpiredRowUnchecked(
    valid: Dcql.Query -> bool, accepts: Verifier, clock: int, tx: Transaction, r: Response, elapsed: nat)
    requires Creatable(valid, Start(clock), tx) && r.state == tx.state && clock <= tx.expiresAt < clock + elapsed
    requires accepts(r.vpToken, None, clock + elapsed)
    ensures var s := Run(valid, accepts, Start(clock), ExpiringRun(tx, r, elapsed));
            EndsUnchecked(s, tx.id) && !CheckedItself(s, tx.id)
  {
    ReadWhilePosting(valid, accepts, clock, tx, r);
    var s := Run(valid, accepts, Start(clock), Opening(tx, r));
    var gone := [Tick(elapsed), Expire(tx.id)];
    RunConcat(valid, accepts, Start(clock), Opening(tx, r) + gone, Closing());
    RunConcat(valid, accepts, Start(clock), Opening(tx, r), gone);
    RunTwo(valid, accepts, s, Tick(elapsed), Expire(tx.id));
    assert s.store - {tx.id} == map[];
    ClosingRestores(valid, accepts, s.(clock := clock + elapsed, store := map[]), tx, r);
  }

  // ---------------------------------------------------------------- gone for good

  /** Task `t` will write back a copy of this id. */
  predicate Returns(s: System, t: nat, id: string) {
    t in s.tasks && s.tasks[t].WriteBack? && s.tasks[t].copy.id == id
  }

  /** A write-back in flight for this id. */
  ghost predicate PendingWriteBack(s: System, id: string) {
    exists t :: Returns(s, t, id)
  }

  ghost predicate Gone(s: System, id: string) {
    id in s.created && id !in s.store && !PendingWriteBack(s, id)
  }

  /** A step that changes another row and starts no update of this one. */
  lemma {:induction false} LocalGone(s: System, n: System, id: string, row: string, t: nat)
    requires Gone(s, id) && Grows(s, n) && Touches(s, n, row, t)
    requires row == id ==> id !in n.store
    requires !Returns(n, t, id) || SameTask(s, n, t)
    ensures Gone(n, id)
  {
    forall u ensures !Returns(n, u, id) {
      assert !Returns(s, u, id);
    }
  }

  lemma {:induction false} MessageKeepsGone(valid: Dcql.Query -> bool, s: System, state: string, id: string)
    requires Inv(valid, s) && Gone(s, id)
    ensures FindByState(s.store, state).Some? ==> FoundId(s, state) in s.store && FoundId(s, state) != id
  {
  }

  lemma {:induction false} FinishKeepsGone(valid: Dcql.Query -> bool, s: System, t: nat, id: string)
    requires Inv(valid, s) && Gone(s, id)
    ensures Gone(Finished(s, t), id)
  {
    if t in s.tasks && s.tasks[t].WriteBack? {
      assert !Returns(s, t, id);
      LocalGone(s, Finished(s, t), id, s.tasks[t].copy.id, t);
    }
  }

  lemma {:induction false} MarkKeepsGone(valid: Dcql.Query -> bool, s: System, t: nat, id: string)
    requires Inv(valid, s) && Gone(s, id)
    ensures Gone(AfterMark(s, t), id) && Gone(BegunMark(s, t), id)
  {
    if t in s.tasks && s.tasks[t].Marking? {
      LocalGone(s, AfterMark(s, t), id, s.tasks[t].id, t);
      LocalGone(s, BegunMark(s, t), id, "", t);
    }
  }

  lemma {:induction false} PostKeepsGone(valid: Dcql.Query -> bool, s: System, r: Response, id: string)
    requires Inv(valid, s) && Gone(s, id)
    ensures Gone(AfterPost(s, r), id)
  {
    MessageKeepsGone(valid, s, r.state, id);
    LocalGone(s, AfterPost(s, r), id, FoundId(s, r.state), 0);
  }

  lemma {:induction false} PostErrorKeepsGone(valid: Dcql.Query -> bool, s: System, e: WalletError, id: string)
    requires Inv(valid, s) && Gone(s, id)
    ensures Gone(AfterPostError(s, e), id)
  {
    MessageKeepsGone(valid, s, StateOfError(e), id);
    LocalGone(s, AfterPostError(s, e), id, FoundId(s, StateOfError(e)), 0);
  }

  lemma {:induction false} BeginPostKeepsGone(valid: Dcql.Query -> bool, s: System, t: nat, r: Response, id: string)
    requires Inv(valid, s) && Gone(s, id)
    ensures Gone(BegunPost(s, t, r), id)
  {
    MessageKeepsGone(valid, s, r.state, id);
    LocalGone(s, BegunPost(s, t, r), id, "", t);
  }

  lemma {:induction false} BeginPostErrorKeepsGone(
    valid: Dcql.Query -> bool, s: System, t: nat, e: WalletError, id: string)
    requires Inv(valid, s) && Gone(s, id)
    ensures Gone(BegunPostError(s, t, e), id)
  {
    MessageKeepsGone(valid, s, StateOfError(e), id);
    LocalGone(s, BegunPostError(s, t, e), id, "", t);
  }

  lemma {:induction false} RemovalKeepsGone(s: System, elapsed: nat, other: string, id: string)
    requires Gone(s, id)
    ensures Gone(s.(clock := s.clock + elapsed), id) && Gone(s.(store := s.store - {other}), id)
    ensures Gone(s.(store := AfterIsExpired(s.store, other, s.clock)), id)
  {
    LocalGone(s, s.(clock := s.clock + elapsed), id, "", 0);
    LocalGone(s, s.(store := s.store - {other}), id, other, 0);
  }

  lemma {:induction false} InitKeepsGone(valid: Dcql.Query -> bool, s: System, tx: Transaction, id: string)
    requires Gone(s, id)
    ensures Gone(AfterInit(valid, s, tx), id)
  {
    LocalGone(s, AfterInit(valid, s, tx), id, tx.id, 0);
  }

  lemma {:induction false} ReadKeepsGone(s: System, t: nat, other: string, id: string)
    requires Gone(s, id)
    ensures Gone(AfterRead(s, t, other), id)
  {
    LocalGone(s, AfterRead(s, t, other), id, other, t);
  }

  lemma {:induction false} VerifyKeepsGone(accepts: Verifier, s: System, t: nat, id: string)
    requires Gone(s, id)
    ensures Gone(AfterVerify(accepts, s, t), id)
  {
    LocalGone(s, AfterVerify(accepts, s, t), id, "", t);
  }

  /** No step stores a row that is gone or starts an update of it. */
  lemma {:induction false} StepKeepsGone(
    valid: Dcql.Query -> bool, accepts: Verifier, s: System, step: Step, id: string)
    requires Inv(valid, s) && Gone(s, id)
    ensures Gone(Apply(valid, accepts, s, step), id)
  {
    match step
    case Tick(elapsed) => RemovalKeepsGone(s, elapsed, "", id);
    case Init(tx) => InitKeepsGone(valid, s, tx, id);
    case Post(r) => PostKeepsGone(valid, s, r, id);
    case PostError(e) => PostErrorKeepsGone(valid, s, e, id);
    case Delete(other) => RemovalKeepsGone(s, 0, other, id);
    case Expire(other) => RemovalKeepsGone(s, 0, other, id);
    case PollRead(t, other) => ReadKeepsGone(s, t, other, id);
    case PollVerify(t) => VerifyKeepsGone(accepts, s, t, id);
    case PollMark(t) => MarkKeepsGone(valid, s, t, id);
    case BeginPost(t, r) => BeginPostKeepsGone(valid, s, t, r, id);
    case BeginPostError(t, e) => BeginPostErrorKeepsGone(valid, s, t, e, id);
    case BeginMark(t) => MarkKeepsGone(valid, s, t, id);
    case FinishUpdate(t) => FinishKeepsGone(valid, s, t, id);
  }

  lemma {:induction false} RunKeepsGone(
    valid: Dcql.Query -> bool, accepts: Verifier, s: System, steps: seq<Step>, id: string)
    requires Inv(valid, s) && Gone(s, id)
    ensures Gone(Run(valid, accepts, s, steps), id)
  {
    if steps != [] {
      var before := steps[..|steps| - 1];
      RunKeepsGone(valid, accepts, s, before, id);
      RunKeepsInv(valid, accepts, s, before);
      StepKeepsGone(valid, accepts, Run(valid, accepts, s, before), steps[|steps| - 1], id);
    }
  }

  lemma {:induction false} StepGrows(valid: Dcql.Query -> bool, accepts: Verifier, s: System, step: Step)
    ensures Grows(s, Apply(valid, accepts, s, step)) && s.clock <= Apply(valid, accepts, s, step).clock
  {
    match step
    case Init(_) =>
    case PollVerify(_) =>
    case _ =>
  }

  lemma {:induction false} RunGrows(valid: Dcql.Query -> bool, accepts: Verifier, s: System, steps: seq<Step>)
    ensures Grows(s, Run(valid, accepts, s, steps)) && s.clock <= Run(valid, accepts, s, steps).clock
  {
    if steps != [] {
      RunGrows(valid, accepts, s, steps[..|steps| - 1]);
      StepGrows(valid, accepts, Run(valid, accepts, s, steps[..|steps| - 1]), steps[|steps| - 1]);
    }
  }

  /** After some continuation a poll reports the transaction as not expired. */
  ghost predicate CanReappear(valid: Dcql.Query -> bool, accepts: Verifier, s: System, id: string) {
    exists steps :: !PollsExpired(Run(valid, accepts, s, steps), id)
  }

  predicate PollsExpired(s: System, id: string) {
    IsExpired(s.store, id, s.clock)
  }

  /** A write-back in time for which no other row has the state stores a live row. */
  lemma {:induction false} FinishReappears(s: System, id: string, t: nat)
    requires Returns(s, t, id) && s.tasks[t].copy.expiresAt >= s.clock && !StateTaken(s.store, s.tasks[t].copy)
    ensures !PollsExpired(Finished(s, t), id)
  {
  }

  lemma {:induction false} DeletionFrees(store: Store, other: string, copy: Transaction)
    requires Keyed(store) && other in store && store[other].state == copy.state
    ensures !StateTaken(store - {other}, copy)
  {
  }

  lemma {:induction false} ReappearsBy(
    valid: Dcql.Query -> bool, accepts: Verifier, s: System, id: string, steps: seq<Step>, n: System)
    requires Run(valid, accepts, s, steps) == n && !PollsExpired(n, id)
    ensures CanReappear(valid, accepts, s, id)
  {
  }

  lemma {:induction false} TakenWriteBack(
    valid: Dcql.Query -> bool, accepts: Verifier, s: System, id: string, t: nat, other: string)
    requires Keyed(s.store) && Returns(s, t, id) && s.tasks[t].copy.expiresAt >= s.clock
    requires other in s.store && s.store[other].state == s.tasks[t].copy.state
    ensures CanReappear(valid, accepts, s, id)
  {
    var cleared := s.(store := s.store - {other});
    DeletionFrees(s.store, other, s.tasks[t].copy);
    FinishReappears(cleared, id, t);
    RunTwo(valid, accepts, s, Delete(other), FinishUpdate(t));
    ReappearsBy(valid, accepts, s, id, [Delete(other), FinishUpdate(t)], Finished(cleared, t));
  }

  lemma {:induction false} WriteBackRestores(
    valid: Dcql.Query -> bool, accepts: Verifier, s: System, id: string, t: nat)
    requires Inv(valid, s) && Returns(s, t, id) && id in s.created && s.created[id].expiresAt >= s.clock
    ensures CanReappear(valid, accepts, s, id)
  {
    assert TaskOk(s, s.tasks[t]);
    if StateTaken(s.store, s.tasks[t].copy) {
      var other :| other in s.store && s.store[other].id != id && s.store[other].state == s.tasks[t].copy.state;
      TakenWriteBack(valid, accepts, s, id, t, other);
    } else {
      FinishReappears(s, id, t);
      RunTwo(valid, accepts, s, FinishUpdate(t), FinishUpdate(t));
      ReappearsBy(valid, accepts, s, id, [FinishUpdate(t)], Finished(s, t));
    }
  }

  /** A removed transaction can be polled as live again if and only if an update that had read it before
      the removal has yet to write it back, and its time is not over. */
  lemma {:induction false} ReappearsIffWriteBackPending(
    valid: Dcql.Query -> bool, accepts: Verifier, s: System, id: string)
    requires Inv(valid, s) && id in s.created && id !in s.store
    ensures CanReappear(valid, accepts, s, id) <==> PendingWriteBack(s, id) && s.created[id].expiresAt >= s.clock
  {
    if PendingWriteBack(s, id) && s.created[id].expiresAt >= s.clock {
      var t :| Returns(s, t, id);
      WriteBackRestores(valid, accepts, s, id, t);
    }
    forall steps | !PollsExpired(Run(valid, accepts, s, steps), id)
      ensures PendingWriteBack(s, id) && s.created[id].expiresAt >= s.clock
    {
      if !PendingWriteBack(s, id) { RunKeepsGone(valid, accepts, s, steps, id); }
      RunKeepsInv(valid, accepts, s, steps);
      RunGrows(valid, accepts, s, steps);
      var n := Run(valid, accepts, s, steps);
      assert RowOk(n, n.store[id]);
    }
  }

  /** With atomic updates, an id that has been consumed or reported expired stays expired for every later
      poll, and any id past its time is reported expired. */
  lemma {:induction false} AtomicRunsExpireForGood(
    valid: Dcql.Query -> bool, accepts: Verifier, clock: int, first: seq<Step>, later: seq<Step>, id: string)
    requires forall i :: 0 <= i < |first| ==> IsAtomic(first[i])
    requires id in Run(valid, accepts, Start(clock), first).created
    ensures var s := Run(valid, accepts, Start(clock), first);
            id !in s.store || s.created[id].expiresAt < s.clock ==> PollsExpired(Run(valid, accepts, s, later), id)
  {
    var s := Run(valid, accepts, Start(clock), first);
    RunKeepsInv(valid, accepts, Start(clock), first);
    AtomicNeverRestores(valid, accepts, Start(clock), first);
    if id !in s.store {
      RunKeepsGone(valid, accepts, s, later, id);
    }
    RunKeepsInv(valid, accepts, s, later);
    RunGrows(valid, accepts, s, later);
    var n := Run(valid, accepts, s, later);
    if id in n.store { assert RowOk(n, n.store[id]); }
  }

  // ---------------------------------------------------------------- accepted means verified

  /** Every recorded acceptance was a verdict of the verifier. */
  lemma {:induction false} RecordedWereAccepted(
    valid: Dcql.Query -> bool, accepts: Verifier, clock: int, steps: seq<Step>, a: Acceptance)
    requires a in Run(valid, accepts, Start(clock), steps).accepted
    ensures accepts(a.response.vpToken, a.lookup, a.at)
  {
    if steps != [] {
      var before := steps[..|steps| - 1];
      if a in Run(valid, accepts, Start(clock), before).accepted {
        RecordedWereAccepted(valid, accepts, clock, before, a);
      } else {
        OnlyVerifyAccepts(valid, accepts, Run(valid, accepts, Start(clock), before), steps[|steps| - 1], a);
      }
    }
  }

  lemma {:induction false} OnlyVerifyAccepts(
    valid: Dcql.Query -> bool, accepts: Verifier, s: System, step: Step, a: Acceptance)
    requires a in Apply(valid, accepts, s, step).accepted && a !in s.accepted
    ensures accepts(a.response.vpToken, a.lookup, a.at)
  {
  }

  // ---------------------------------------------------------------- the countdown of successive polls

  /** No row was created in the future. */
  predicate CreatedBefore(s: System, id: string) {
    id in s.created ==> s.created[id].createdAt <= s.clock
  }

  lemma {:induction false} RunCreatedBefore(
    valid: Dcql.Query -> bool, accepts: Verifier, clock: int, steps: seq<Step>, id: string)
    ensures CreatedBefore(Run(valid, accepts, Start(clock), steps), id)
  {
    if steps != [] {
      var before := steps[..|steps| - 1];
      RunCreatedBefore(valid, accepts, clock, before, id);
      StepCreatedBefore(valid, accepts, Run(valid, accepts, Start(clock), before), steps[|steps| - 1], id);
    }
  }

  lemma {:induction false} StepCreatedBefore(
    valid: Dcql.Query -> bool, accepts: Verifier, s: System, step: Step, id: string)
    requires CreatedBefore(s, id)
    ensures CreatedBefore(Apply(valid, accepts, s, step), id)
  {
    StepGrows(valid, accepts, s, step);
    match step
    case Init(_) =>
    case _ =>
  }

  /** What two polls of a row report, at `t` and at `u`, the second clock reading of each `delay` later than
      the first: at most the time to live, non-negative exactly until a second past expiry (always when
      there is no delay), and never more the second time. */
  predicate CountsDown(x: Transaction, y: Transaction, ttlSecs: nat, t: int, u: int, delay: nat, laterDelay: nat) {
    var r, q := StatusOf(x, t + delay).expiresIn, StatusOf(y, u + laterDelay).expiresIn;
    && (r.Some? ==>
          r.value <= ttlSecs && (r.value >= 0 <==> t + delay < x.expiresAt + MILLIS) && (delay == 0 ==> r.value >= 0))
    && (r.Some? && q.Some? && t + delay <= u + laterDelay ==> q.value <= r.value)
  }

  lemma {:induction false} RowCountsDown(
    x: Transaction, y: Transaction, ttlSecs: nat, t: int, u: int, delay: nat, laterDelay: nat)
    requires x.expiresAt == y.expiresAt == x.createdAt + ttlSecs * MILLIS && x.createdAt <= t <= x.expiresAt
    ensures CountsDown(x, y, ttlSecs, t, u, delay, laterDelay)
  {
    if StatusOf(x, t + delay).expiresIn.Some? {
      ExpiresInBounded(x, ttlSecs, t, t + delay);
      if StatusOf(y, u + laterDelay).expiresIn.Some? && t + delay <= u + laterDelay {
        ExpiresInDecreases(x, y, t + delay, u + laterDelay);
      }
    }
  }

  lemma {:induction false} LiveRow(
    valid: Dcql.Query -> bool, accepts: Verifier, clock: int, steps: seq<Step>, id: string)
    requires !PollsExpired(Run(valid, accepts, Start(clock), steps), id)
    ensures var s := Run(valid, accepts, Start(clock), steps);
            && Inv(valid, s) && id in s.created && SameIdentity(s.store[id], s.created[id])
            && s.created[id].createdAt <= s.clock <= s.created[id].expiresAt
  {
    RunKeepsInv(valid, accepts, Start(clock), steps);
    RunCreatedBefore(valid, accepts, clock, steps, id);
    assert RowOk(Run(valid, accepts, Start(clock), steps), Run(valid, accepts, Start(clock), steps).store[id]);
  }

  /** The polls of a run count down: whatever happens between two polls that find the transaction live. */
  lemma {:induction false} PollsCountDown(
    valid: Dcql.Query -> bool, accepts: Verifier, clock: int, first: seq<Step>, later: seq<Step>, id: string,
    ttlSecs: nat, delay: nat, laterDelay: nat)
    requires var s := Run(valid, accepts, Start(clock), first);
             && !PollsExpired(s, id) && !PollsExpired(Run(valid, accepts, s, later), id)
             && s.store[id].expiresAt == s.store[id].createdAt + ttlSecs * MILLIS
    ensures var s := Run(valid, accepts, Start(clock), first);
            var n := Run(valid, accepts, s, later);
            CountsDown(s.store[id], n.store[id], ttlSecs, s.clock, n.clock, delay, laterDelay)
  {
    var s := Run(valid, accepts, Start(clock), first);
    var n := Run(valid, accepts, s, later);
    LiveRow(valid, accepts, clock, first, id);
    RunKeepsInv(valid, accepts, s, later);
    RunGrows(valid, accepts, s, later);
    assert RowOk(n, n.store[id]);
    RowCountsDown(s.store[id], n.store[id], ttlSecs, s.clock, n.clock, delay, laterDelay);
  }
}
