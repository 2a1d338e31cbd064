/** When exactly a transaction can come to stand as Verified although no accepted verification was given
    its client, nonce and response URI: a condition on the present state, for two-step updates too. */
module UncheckedRows {
  import opened Prelude
  import opened TransactionStore
  import opened TransactionRuns
  import Dcql

  // ---------------------------------------------------------------- checked for its session

  /** What a verification reads of a transaction. */
  predicate SameSession(x: Transaction, y: Transaction) {
    x.clientId == y.clientId && x.nonce == y.nonce && x.responseUri == y.responseUri && x.encrypted == y.encrypted
  }

  /** Some verification of a response for this transaction's state accepted it for this session. */
  ghost predicate CheckedSession(s: System, id: string) {
    id in s.created && exists a :: a in s.accepted && a.response.state == s.created[id].state && a.lookup.Some? &&
                                   SameSession(a.lookup.value, s.created[id])
  }

  ghost predicate Unchecked(s: System, id: string) {
    id in s.store && s.store[id].status == Verified && !CheckedSession(s, id)
  }

  ghost predicate CanGoUnchecked(valid: Dcql.Query -> bool, accepts: Verifier, s: System, id: string) {
    exists steps :: Unchecked(Run(valid, accepts, s, steps), id)
  }

  /** The verdict looks at nothing but the session of the transaction it is given. */
  ghost predicate DependsOnSession(accepts: Verifier) {
    forall token, x, y, at :: SameSession(x, y) ==> accepts(token, Some(x), at) == accepts(token, Some(y), at)
  }

  /** No transaction, or one with another session. */
  predicate Elsewhere(lookup: Option<Transaction>, tx: Transaction) {
    lookup.None? || !SameSession(lookup.value, tx)
  }

  /** From now on the token can be accepted without this transaction's session. */
  ghost predicate AcceptedElsewhere(accepts: Verifier, token: string, tx: Transaction, now: int) {
    exists lookup, at :: at >= now && Elsewhere(lookup, tx) && accepts(token, lookup, at)
  }

  // ---------------------------------------------------------------- the condition

  /** A copy about to be written back as Verified, a poll about to mark, or a poll about to verify a token
      that can be accepted elsewhere. */
  ghost predicate Carries(accepts: Verifier, s: System, task: Task, id: string)
    requires id in s.created
  {
    match task
    case WriteBack(copy) => copy.id == id && copy.status == Verified
    case Marking(marked, _) => marked == id
    case Verifying(polled, seen) => polled == id && AcceptedElsewhere(accepts, seen.vpToken, s.created[id], s.clock)
  }

  /** The transaction is Verified or carried there already, or is in time and some token can be accepted elsewhere. */
  ghost predicate Seeded(accepts: Verifier, s: System, id: string)
    requires id in s.created
  {
    || (id in s.store && s.store[id].status == Verified)
    || (exists t :: t in s.tasks && Carries(accepts, s, s.tasks[t], id))
    || (s.created[id].expiresAt >= s.clock && exists token :: AcceptedElsewhere(accepts, token, s.created[id], s.clock))
  }

  /** Not yet checked, still stored or about to be written back, and seeded. */
  ghost predicate AtRisk(accepts: Verifier, s: System, id: string) {
    id in s.created && !CheckedSession(s, id) && (id in s.store || PendingWriteBack(s, id)) && Seeded(accepts, s, id)
  }

  // ---------------------------------------------------------------- without it nothing happens

  lemma {:induction false} CheckedSessionStays(s: System, n: System, id: string)
    requires Grows(s, n) && CheckedSession(s, id)
    ensures CheckedSession(n, id)
  {
  }

  lemma {:induction false} LaterIsHarder(accepts: Verifier, token: string, tx: Transaction, now: int, later: int)
    requires now <= later && AcceptedElsewhere(accepts, token, tx, later)
    ensures AcceptedElsewhere(accepts, token, tx, now)
  {
  }

  /** A step that changes at most one row and one task, which then carry nothing, seeds nothing. */
  lemma {:induction false} LocalSeed(accepts: Verifier, s: System, n: System, id: string, row: string, t: nat)
    requires id in s.created && Grows(s, n) && s.clock <= n.clock && !Seeded(accepts, s, id) && Touches(s, n, row, t)
    requires row == id && id in n.store ==> n.store[id].status != Verified
    requires SameTask(s, n, t) || !Carries(accepts, n, n.tasks[t], id)
    ensures !Seeded(accepts, n, id)
  {
    forall u | u in n.tasks ensures !Carries(accepts, n, n.tasks[u], id) {
      if u in s.tasks && n.tasks[u] == s.tasks[u] && n.tasks[u].Verifying? && Carries(accepts, n, n.tasks[u], id) {
        LaterIsHarder(accepts, n.tasks[u].seen.vpToken, s.created[id], s.clock, n.clock);
      }
    }
    forall token | AcceptedElsewhere(accepts, token, s.created[id], n.clock)
      ensures AcceptedElsewhere(accepts, token, s.created[id], s.clock)
    {
      LaterIsHarder(accepts, token, s.created[id], s.clock, n.clock);
    }
  }

  /** Accepting a token that cannot be accepted elsewhere is accepting it for this session. */
  lemma {:induction false} AcceptedHere(
    valid: Dcql.Query -> bool, accepts: Verifier, s: System, t: nat, id: string)
    requires Inv(valid, s) && id in s.created && t in s.tasks && s.tasks[t].Verifying? && s.tasks[t].id == id
    requires !AcceptedElsewhere(accepts, s.tasks[t].seen.vpToken, s.created[id], s.clock)
    requires accepts(s.tasks[t].seen.vpToken, FindByState(s.store, s.tasks[t].seen.state), s.clock)
    ensures CheckedSession(AfterVerify(accepts, s, t), id)
  {
    var seen := s.tasks[t].seen;
    var lookup := FindByState(s.store, seen.state);
    assert TaskOk(s, s.tasks[t]);
    assert !Elsewhere(lookup, s.created[id]);
    assert Acceptance(seen, lookup, s.clock) in AfterVerify(accepts, s, t).accepted;
  }

  lemma {:induction false} VerifySeedsOnlyChecked(
    valid: Dcql.Query -> bool, accepts: Verifier, s: System, t: nat, id: string)
    requires Inv(valid, s) && id in s.created && !Seeded(accepts, s, id)
    ensures var n := AfterVerify(accepts, s, t); CheckedSession(n, id) || !Seeded(accepts, n, id)
  {
    if t in s.tasks && s.tasks[t].Verifying? {
      assert !Carries(accepts, s, s.tasks[t], id);
      if s.tasks[t].id == id && accepts(s.tasks[t].seen.vpToken, FindByState(s.store, s.tasks[t].seen.state), s.clock) {
        AcceptedHere(valid, accepts, s, t, id);
      } else {
        LocalSeed(accepts, s, AfterVerify(accepts, s, t), id, "", t);
      }
    }
  }

  lemma {:induction false} ReadSeedsNothing(
    valid: Dcql.Query -> bool, accepts: Verifier, s: System, t: nat, polled: string, id: string)
    requires Inv(valid, s) && id in s.created && !Seeded(accepts, s, id)
    ensures !Seeded(accepts, AfterRead(s, t, polled), id)
  {
    var n := AfterRead(s, t, polled);
    if IsExpired(s.store, polled, s.clock) {
      RemovalSeedsNothing(accepts, s, 0, polled, id);
    } else if n != s {
      assert RowOk(s, s.store[polled]);
      assert !Carries(accepts, n, n.tasks[t], id);
      LocalSeed(accepts, s, n, id, "", t);
    }
  }

  lemma {:induction false} MarkSeedsNothing(valid: Dcql.Query -> bool, accepts: Verifier, s: System, t: nat, id: string)
    requires Inv(valid, s) && id in s.created && !Seeded(accepts, s, id)
    ensures !Seeded(accepts, AfterMark(s, t), id) && !Seeded(accepts, BegunMark(s, t), id)
  {
    if t in s.tasks && s.tasks[t].Marking? {
      assert !Carries(accepts, s, s.tasks[t], id);
      LocalSeed(accepts, s, AfterMark(s, t), id, s.tasks[t].id, t);
      LocalSeed(accepts, s, BegunMark(s, t), id, "", t);
    }
  }

  lemma {:induction false} FinishSeedsNothing(
    valid: Dcql.Query -> bool, accepts: Verifier, s: System, t: nat, id: string)
    requires Inv(valid, s) && id in s.created && !Seeded(accepts, s, id)
    ensures !Seeded(accepts, Finished(s, t), id)
  {
    if t in s.tasks && s.tasks[t].WriteBack? {
      assert !Carries(accepts, s, s.tasks[t], id);
      LocalSeed(accepts, s, Finished(s, t), id, s.tasks[t].copy.id, t);
    }
  }

  lemma {:induction false} PostSeedsNothing(accepts: Verifier, s: System, r: Response, id: string)
    requires Keyed(s.store) && id in s.created && !Seeded(accepts, s, id)
    ensures !Seeded(accepts, AfterPost(s, r), id)
  {
    LocalSeed(accepts, s, AfterPost(s, r), id, FoundId(s, r.state), 0);
  }

  lemma {:induction false} PostErrorSeedsNothing(accepts: Verifier, s: System, e: WalletError, id: string)
    requires Keyed(s.store) && id in s.created && !Seeded(accepts, s, id)
    ensures !Seeded(accepts, AfterPostError(s, e), id)
  {
    LocalSeed(accepts, s, AfterPostError(s, e), id, FoundId(s, StateOfError(e)), 0);
  }

  lemma {:induction false} BeginPostSeedsNothing(accepts: Verifier, s: System, t: nat, r: Response, id: string)
    requires id in s.created && !Seeded(accepts, s, id)
    ensures !Seeded(accepts, BegunPost(s, t, r), id)
  {
    LocalSeed(accepts, s, BegunPost(s, t, r), id, "", t);
  }

  lemma {:induction false} BeginPostErrorSeedsNothing(accepts: Verifier, s: System, t: nat, e: WalletError, id: string)
    requires id in s.created && !Seeded(accepts, s, id)
    ensures !Seeded(accepts, BegunPostError(s, t, e), id)
  {
    LocalSeed(accepts, s, BegunPostError(s, t, e), id, "", t);
  }

  lemma {:induction false} RemovalSeedsNothing(accepts: Verifier, s: System, elapsed: nat, other: string, id: string)
    requires id in s.created && !Seeded(accepts, s, id)
    ensures !Seeded(accepts, s.(clock := s.clock + elapsed), id) && !Seeded(accepts, s.(store := s.store - {other}), id)
    ensures !Seeded(accepts, s.(store := AfterIsExpired(s.store, other, s.clock)), id)
  {
    LocalSeed(accepts, s, s.(clock := s.clock + elapsed), id, "", 0);
    LocalSeed(accepts, s, s.(store := s.store - {other}), id, other, 0);
  }

  lemma {:induction false} InitSeedsNothing(
    valid: Dcql.Query -> bool, accepts: Verifier, s: System, tx: Transaction, id: string)
    requires id in s.created && !Seeded(accepts, s, id)
    ensures !Seeded(accepts, AfterInit(valid, s, tx), id)
  {
    LocalSeed(accepts, s, AfterInit(valid, s, tx), id, tx.id, 0);
  }

  lemma {:induction false} TwoStepSeedsNothing(
    valid: Dcql.Query -> bool, accepts: Verifier, s: System, step: Step, id: string)
    requires Inv(valid, s) && id in s.created && !Seeded(accepts, s, id) && !IsAtomic(step)
    ensures var n := Apply(valid, accepts, s, step); id in n.created && !Seeded(accepts, n, id)
  {
    match step
    case BeginPost(t, r) => BeginPostSeedsNothing(accepts, s, t, r, id);
    case BeginPostError(t, e) => BeginPostErrorSeedsNothing(accepts, s, t, e, id);
    case BeginMark(t) => MarkSeedsNothing(valid, accepts, s, t, id);
    case FinishUpdate(t) => FinishSeedsNothing(valid, accepts, s, t, id);
  }

  lemma {:induction false} AtomicStepSeedsNothing(
    valid: Dcql.Query -> bool, accepts: Verifier, s: System, step: Step, id: string)
    requires Inv(valid, s) && id in s.created && !Seeded(accepts, s, id) && IsAtomic(step) && !step.PollVerify?
    ensures var n := Apply(valid, accepts, s, step); id in n.created && !Seeded(accepts, n, id)
  {
    match step
    case Tick(elapsed) => RemovalSeedsNothing(accepts, s, elapsed, "", id);
    case Init(tx) => InitSeedsNothing(valid, accepts, s, tx, id);
    case Post(r) => PostSeedsNothing(accepts, s, r, id);
    case PostError(e) => PostErrorSeedsNothing(accepts, s, e, id);
    case Delete(other) => RemovalSeedsNothing(accepts, s, 0, other, id);
    case Expire(other) => RemovalSeedsNothing(accepts, s, 0, other, id);
    case PollRead(t, polled) => ReadSeedsNothing(valid, accepts, s, t, polled, id);
    case PollMark(t) => MarkSeedsNothing(valid, accepts, s, t, id);
  }

  lemma {:induction false} StepSeedsOnlyChecked(
    valid: Dcql.Query -> bool, accepts: Verifier, s: System, step: Step, id: string)
    requires Inv(valid, s) && id in s.created && !Seeded(accepts, s, id)
    ensures var n := Apply(valid, accepts, s, step);
            id in n.created && (CheckedSession(n, id) || !Seeded(accepts, n, id))
  {
    if step.PollVerify? { VerifySeedsOnlyChecked(valid, accepts, s, step.task, id); }
    else if IsAtomic(step) { AtomicStepSeedsNothing(valid, accepts, s, step, id); }
    else { TwoStepSeedsNothing(valid, accepts, s, step, id); }
  }

  /** What is not at risk never becomes so. */
  lemma {:induction false} StepKeepsSafe(
    valid: Dcql.Query -> bool, accepts: Verifier, s: System, step: Step, id: string)
    requires Inv(valid, s) && id in s.created && !AtRisk(accepts, s, id)
    ensures var n := Apply(valid, accepts, s, step); id in n.created && !AtRisk(accepts, n, id)
  {
    var n := Apply(valid, accepts, s, step);
    StepGrows(valid, accepts, s, step);
    if CheckedSession(s, id) {
      CheckedSessionStays(s, n, id);
    } else if Gone(s, id) {
      StepKeepsGone(valid, accepts, s, step, id);
    } else {
      StepSeedsOnlyChecked(valid, accepts, s, step, id);
    }
  }

  lemma {:induction false} RunKeepsSafe(
    valid: Dcql.Query -> bool, accepts: Verifier, s: System, steps: seq<Step>, id: string)
    requires Inv(valid, s) && id in s.created && !AtRisk(accepts, s, id)
    ensures var n := Run(valid, accepts, s, steps); id in n.created && !AtRisk(accepts, n, id)
  {
    if steps != [] {
      var before := steps[..|steps| - 1];
      RunKeepsSafe(valid, accepts, s, before, id);
      RunKeepsInv(valid, accepts, s, before);
      StepKeepsSafe(valid, accepts, Run(valid, accepts, s, before), steps[|steps| - 1], id);
    }
  }

  // ---------------------------------------------------------------- with it, it can happen

  lemma {:induction false} RunPrepend(
    valid: Dcql.Query -> bool, accepts: Verifier, s: System, step: Step, rest: seq<Step>)
    ensures Run(valid, accepts, s, [step] + rest) == Run(valid, accepts, Apply(valid, accepts, s, step), rest)
  {
    var all := [step] + rest;
    if rest == [] {
      assert all[..0] == [];
    } else {
      assert all[..|all| - 1] == [step] + rest[..|rest| - 1];
      RunPrepend(valid, accepts, s, step, rest[..|rest| - 1]);
    }
  }

  /** What can happen after a step can happen. */
  lemma {:induction false} Prepend(valid: Dcql.Query -> bool, accepts: Verifier, s: System, step: Step, id: string)
    requires CanGoUnchecked(valid, accepts, Apply(valid, accepts, s, step), id)
    ensures CanGoUnchecked(valid, accepts, s, id)
  {
    var rest :| Unchecked(Run(valid, accepts, Apply(valid, accepts, s, step), rest), id);
    RunPrepend(valid, accepts, s, step, rest);
  }

  lemma {:induction false} Already(valid: Dcql.Query -> bool, accepts: Verifier, s: System, id: string)
    requires Unchecked(s, id)
    ensures CanGoUnchecked(valid, accepts, s, id)
  {
    assert Run(valid, accepts, s, []) == s;
  }

  /** The way is free for a copy of `id` to be written back: no other row has its state. */
  predicate Clear(s: System, id: string)
    requires id in s.created
  {
    forall other :: other in s.store && s.store[other].state == s.created[id].state ==> other == id
  }

  /** Deleting another row with the transaction's state clears the way. */
  lemma {:induction false} DeletionClears(
    valid: Dcql.Query -> bool, accepts: Verifier, s: System, other: string, id: string)
    requires Inv(valid, s) && id in s.created
    requires other in s.store && s.store[other].state == s.created[id].state
    ensures var n := Apply(valid, accepts, s, Delete(other));
            && Inv(valid, n) && !HasState(n.store, s.created[id].state) && Clear(n, id)
            && n == s.(store := s.store - {other})
  {
    StepKeepsInv(valid, accepts, s, Delete(other));
  }

  /** With the way clear, the write-back puts the copy in place. */
  lemma {:induction false} FinishPutsBack(valid: Dcql.Query -> bool, accepts: Verifier, s: System, t: nat, id: string)
    requires Inv(valid, s) && Returns(s, t, id) && id in s.created && Clear(s, id)
    ensures var n := Apply(valid, accepts, s, FinishUpdate(t));
            && Inv(valid, n) && n == s.(store := s.store[id := s.tasks[t].copy], tasks := s.tasks - {t})
  {
    assert TaskOk(s, s.tasks[t]);
    StepKeepsInv(valid, accepts, s, FinishUpdate(t));
  }

  lemma {:induction false} MarkThere(valid: Dcql.Query -> bool, accepts: Verifier, s: System, t: nat, id: string)
    requires t in s.tasks && s.tasks[t].Marking? && s.tasks[t].id == id
    requires id in s.store && !CheckedSession(s, id)
    ensures CanGoUnchecked(valid, accepts, s, id)
  {
    var n := Apply(valid, accepts, s, PollMark(t));
    assert n.store[id].status == Verified && !CheckedSession(n, id);
    Already(valid, accepts, n, id);
    Prepend(valid, accepts, s, PollMark(t), id);
  }

  lemma {:induction false} FinishThenMark(
    valid: Dcql.Query -> bool, accepts: Verifier, s: System, t: nat, back: nat, id: string)
    requires Inv(valid, s) && id in s.created && !CheckedSession(s, id) && Clear(s, id) && Returns(s, back, id)
    requires t in s.tasks && s.tasks[t].Marking? && s.tasks[t].id == id
    ensures CanGoUnchecked(valid, accepts, s, id)
  {
    FinishPutsBack(valid, accepts, s, back, id);
    MarkThere(valid, accepts, Apply(valid, accepts, s, FinishUpdate(back)), t, id);
    Prepend(valid, accepts, s, FinishUpdate(back), id);
  }

  lemma {:induction false} MarkAfterRestore(
    valid: Dcql.Query -> bool, accepts: Verifier, s: System, t: nat, back: nat, id: string)
    requires Inv(valid, s) && id in s.created && !CheckedSession(s, id) && Returns(s, back, id)
    requires t in s.tasks && s.tasks[t].Marking? && s.tasks[t].id == id
    ensures CanGoUnchecked(valid, accepts, s, id)
  {
    if Clear(s, id) {
      FinishThenMark(valid, accepts, s, t, back, id);
    } else {
      var other :| other in s.store && s.store[other].state == s.created[id].state && other != id;
      DeletionClears(valid, accepts, s, other, id);
      FinishThenMark(valid, accepts, Apply(valid, accepts, s, Delete(other)), t, back, id);
      Prepend(valid, accepts, s, Delete(other), id);
    }
  }

  /** A poll of `id` that has read `seen`, with a copy of `id` to write back. */
  ghost predicate Polling(valid: Dcql.Query -> bool, s: System, t: nat, back: nat, id: string) {
    && Inv(valid, s) && id in s.created && !CheckedSession(s, id) && Returns(s, back, id)
    && t in s.tasks && s.tasks[t].Verifying? && s.tasks[t].id == id
  }

  lemma {:induction false} VerifyThenMark(
    valid: Dcql.Query -> bool, accepts: Verifier, s: System, t: nat, back: nat, id: string)
    requires Polling(valid, s, t, back, id)
    requires var lookup := FindByState(s.store, s.created[id].state);
             Elsewhere(lookup, s.created[id]) && accepts(s.tasks[t].seen.vpToken, lookup, s.clock)
    ensures CanGoUnchecked(valid, accepts, s, id)
  {
    assert TaskOk(s, s.tasks[t]);
    var n := Apply(valid, accepts, s, PollVerify(t));
    StepKeepsInv(valid, accepts, s, PollVerify(t));
    assert !CheckedSession(n, id);
    MarkAfterRestore(valid, accepts, n, t, back, id);
    Prepend(valid, accepts, s, PollVerify(t), id);
  }

  lemma {:induction false} FreshTask(keys: set<nat>) returns (t: nat)
    ensures forall k | k in keys :: k < t
  {
    if keys == {} {
      t := 0;
    } else {
      var k :| k in keys;
      var rest := FreshTask(keys - {k});
      t := if rest > k then rest else k + 1;
      assert forall j | j in keys :: j == k || j in keys - {k};
    }
  }

  lemma {:induction false} LongerThanAll(keys: set<string>) returns (unused: string)
    ensures forall k | k in keys :: |k| < |unused|
  {
    if keys == {} {
      unused := "";
    } else {
      var k :| k in keys;
      var rest := LongerThanAll(keys - {k});
      unused := rest + k + "-";
      assert forall j | j in keys :: j == k || j in keys - {k};
    }
  }

  /** A new transaction with the state of one transaction and the session of another. */
  function Twin(unused: string, tx: Transaction, session: Transaction, now: int): Transaction {
    Transaction(unused, tx.state, session.nonce, now, now, Pending, tx.query, session.clientId, session.responseUri,
                session.encrypted, None, None)
  }

  /** With no row under the transaction's state, any lookup elsewhere can be arranged. */
  lemma {:induction false} ArrangeLookup(
    valid: Dcql.Query -> bool, accepts: Verifier, s: System, t: nat, back: nat, id: string, lookup: Option<Transaction>)
    requires Polling(valid, s, t, back, id) && DependsOnSession(accepts)
    requires !HasState(s.store, s.created[id].state)
    requires Elsewhere(lookup, s.created[id]) && accepts(s.tasks[t].seen.vpToken, lookup, s.clock)
    ensures CanGoUnchecked(valid, accepts, s, id)
  {
    if lookup.None? {
      VerifyThenMark(valid, accepts, s, t, back, id);
    } else {
      var unused := LongerThanAll(s.created.Keys);
      var twin := Twin(unused, s.created[id], lookup.value, s.clock);
      var n := Apply(valid, accepts, s, Init(twin));
      TwinStored(valid, accepts, s, id, twin);
      assert SameSession(twin, lookup.value);
      VerifyThenMark(valid, accepts, n, t, back, id);
      Prepend(valid, accepts, s, Init(twin), id);
    }
  }

  lemma {:induction false} TwinStored(
    valid: Dcql.Query -> bool, accepts: Verifier, s: System, id: string, twin: Transaction)
    requires Inv(valid, s) && id in s.created && !HasState(s.store, s.created[id].state)
    requires twin.state == s.created[id].state && Creatable(valid, s, twin) && !CheckedSession(s, id)
    ensures var n := Apply(valid, accepts, s, Init(twin));
            && Inv(valid, n) && n == s.(store := s.store[twin.id := twin], created := s.created[twin.id := twin])
            && FindByState(n.store, s.created[id].state) == Some(twin) && !CheckedSession(n, id)
  {
    StepKeepsInv(valid, accepts, s, Init(twin));
    FoundIsUnique(Apply(valid, accepts, s, Init(twin)).store, twin.id);
  }

  lemma {:induction false} WaitThenArrange(
    valid: Dcql.Query -> bool, accepts: Verifier, s: System, t: nat, back: nat, id: string,
    lookup: Option<Transaction>, at: int)
    requires Polling(valid, s, t, back, id) && DependsOnSession(accepts) && at >= s.clock
    requires !HasState(s.store, s.created[id].state)
    requires Elsewhere(lookup, s.created[id]) && accepts(s.tasks[t].seen.vpToken, lookup, at)
    ensures CanGoUnchecked(valid, accepts, s, id)
  {
    StepKeepsInv(valid, accepts, s, Tick(at - s.clock));
    ArrangeLookup(valid, accepts, Apply(valid, accepts, s, Tick(at - s.clock)), t, back, id, lookup);
    Prepend(valid, accepts, s, Tick(at - s.clock), id);
  }

  lemma {:induction false} ClearThenWait(
    valid: Dcql.Query -> bool, accepts: Verifier, s: System, t: nat, back: nat, id: string,
    lookup: Option<Transaction>, at: int)
    requires Polling(valid, s, t, back, id) && DependsOnSession(accepts) && at >= s.clock
    requires Elsewhere(lookup, s.created[id]) && accepts(s.tasks[t].seen.vpToken, lookup, at)
    ensures CanGoUnchecked(valid, accepts, s, id)
  {
    if HasState(s.store, s.created[id].state) {
      var other :| other in s.store && s.store[other].state == s.created[id].state;
      DeletionClears(valid, accepts, s, other, id);
      WaitThenArrange(valid, accepts, Apply(valid, accepts, s, Delete(other)), t, back, id, lookup, at);
      Prepend(valid, accepts, s, Delete(other), id);
    } else {
      WaitThenArrange(valid, accepts, s, t, back, id, lookup, at);
    }
  }

  /** A poll that has read a token acceptable elsewhere, of a transaction that is stored or about to be. */
  lemma {:induction false} SeenCanGo(valid: Dcql.Query -> bool, accepts: Verifier, s: System, t: nat, id: string)
    requires Inv(valid, s) && id in s.created && !CheckedSession(s, id) && DependsOnSession(accepts)
    requires t in s.tasks && s.tasks[t].Verifying? && s.tasks[t].id == id
    requires AcceptedElsewhere(accepts, s.tasks[t].seen.vpToken, s.created[id], s.clock)
    requires id in s.store || PendingWriteBack(s, id)
    ensures CanGoUnchecked(valid, accepts, s, id)
  {
    var lookup, at :| at >= s.clock && Elsewhere(lookup, s.created[id]) && accepts(s.tasks[t].seen.vpToken, lookup, at);
    if PendingWriteBack(s, id) {
      var back :| Returns(s, back, id);
      ClearThenWait(valid, accepts, s, t, back, id, lookup, at);
    } else {
      var back := FreshTask(s.tasks.Keys);
      var step := BeginPost(back, s.tasks[t].seen);
      SlowPost(valid, accepts, s, back, id, s.tasks[t].seen);
      ClearThenWait(valid, accepts, Apply(valid, accepts, s, step), t, back, id, lookup, at);
      Prepend(valid, accepts, s, step, id);
    }
  }

  /** A post that has read the stored row and is slow to write it back. */
  lemma {:induction false} SlowPost(
    valid: Dcql.Query -> bool, accepts: Verifier, s: System, back: nat, id: string, r: Response)
    requires Inv(valid, s) && id in s.store && id in s.created && back !in s.tasks && !CheckedSession(s, id)
    requires r.state == s.created[id].state
    ensures var n := Apply(valid, accepts, s, BeginPost(back, r));
            && Inv(valid, n) && Returns(n, back, id) && !CheckedSession(n, id)
            && n.created == s.created && n.clock == s.clock
            && forall t :: t in s.tasks ==> t in n.tasks && n.tasks[t] == s.tasks[t]
  {
    assert RowOk(s, s.store[id]);
    FoundIsUnique(s.store, id);
    StepKeepsInv(valid, accepts, s, BeginPost(back, r));
  }

  /** A stored transaction in time, and some token that can be accepted elsewhere. */
  lemma {:induction false} PostCanGo(valid: Dcql.Query -> bool, accepts: Verifier, s: System, id: string, token: string)
    requires Inv(valid, s) && id in s.created && !CheckedSession(s, id) && DependsOnSession(accepts)
    requires id in s.store && s.created[id].expiresAt >= s.clock
    requires AcceptedElsewhere(accepts, token, s.created[id], s.clock)
    ensures CanGoUnchecked(valid, accepts, s, id)
  {
    var r := Response(token, s.created[id].state);
    var t := FreshTask(s.tasks.Keys);
    PostThenRead(valid, accepts, s, id, r, t);
    var posted := Apply(valid, accepts, s, Post(r));
    var read := Apply(valid, accepts, posted, PollRead(t, id));
    SeenCanGo(valid, accepts, read, t, id);
    Prepend(valid, accepts, posted, PollRead(t, id), id);
    Prepend(valid, accepts, s, Post(r), id);
  }

  lemma {:induction false} PostThenRead(
    valid: Dcql.Query -> bool, accepts: Verifier, s: System, id: string, r: Response, t: nat)
    requires Inv(valid, s) && id in s.created && !CheckedSession(s, id) && r.state == s.created[id].state
    requires id in s.store && s.created[id].expiresAt >= s.clock && t !in s.tasks
    ensures var n := Apply(valid, accepts, Apply(valid, accepts, s, Post(r)), PollRead(t, id));
            && Inv(valid, n) && id in n.store && !CheckedSession(n, id) && n.created == s.created && n.clock == s.clock
            && t in n.tasks && n.tasks[t] == Verifying(id, r)
  {
    var posted := Apply(valid, accepts, s, Post(r));
    assert RowOk(s, s.store[id]);
    FoundIsUnique(s.store, id);
    StepKeepsInv(valid, accepts, s, Post(r));
    StepKeepsInv(valid, accepts, posted, PollRead(t, id));
    assert posted.store[id] == Receive(s.store[id], r);
  }

  /** Writing the copy back, after clearing the way, gives a state like this one with the row in it. */
  lemma {:induction false} RestoreFirst(valid: Dcql.Query -> bool, accepts: Verifier, s: System, back: nat, id: string)
    returns (n: System)
    requires Inv(valid, s) && id in s.created && !CheckedSession(s, id) && Returns(s, back, id)
    ensures Inv(valid, n) && !CheckedSession(n, id) && id in n.store && n.store[id] == s.tasks[back].copy
    ensures n.created == s.created && n.clock == s.clock
    ensures CanGoUnchecked(valid, accepts, n, id) ==> CanGoUnchecked(valid, accepts, s, id)
  {
    if Clear(s, id) {
      FinishPutsBack(valid, accepts, s, back, id);
      n := Apply(valid, accepts, s, FinishUpdate(back));
      if CanGoUnchecked(valid, accepts, n, id) { Prepend(valid, accepts, s, FinishUpdate(back), id); }
    } else {
      var other :| other in s.store && s.store[other].state == s.created[id].state && other != id;
      DeletionClears(valid, accepts, s, other, id);
      var cleared := Apply(valid, accepts, s, Delete(other));
      FinishPutsBack(valid, accepts, cleared, back, id);
      n := Apply(valid, accepts, cleared, FinishUpdate(back));
      if CanGoUnchecked(valid, accepts, n, id) {
        Prepend(valid, accepts, cleared, FinishUpdate(back), id);
        Prepend(valid, accepts, s, Delete(other), id);
      }
    }
  }

  lemma {:induction false} CarriedCanGo(valid: Dcql.Query -> bool, accepts: Verifier, s: System, t: nat, id: string)
    requires Inv(valid, s) && DependsOnSession(accepts) && AtRisk(accepts, s, id)
    requires t in s.tasks && Carries(accepts, s, s.tasks[t], id)
    ensures CanGoUnchecked(valid, accepts, s, id)
  {
    match s.tasks[t]
    case WriteBack(copy) =>
      var n := RestoreFirst(valid, accepts, s, t, id);
      Already(valid, accepts, n, id);
    case Marking(_, _) =>
      if id in s.store {
        MarkThere(valid, accepts, s, t, id);
      } else {
        var back :| Returns(s, back, id);
        MarkAfterRestore(valid, accepts, s, t, back, id);
      }
    case Verifying(_, _) => SeenCanGo(valid, accepts, s, t, id);
  }

  lemma {:induction false} AtRiskCanGo(valid: Dcql.Query -> bool, accepts: Verifier, s: System, id: string)
    requires Inv(valid, s) && DependsOnSession(accepts) && AtRisk(accepts, s, id)
    ensures CanGoUnchecked(valid, accepts, s, id)
  {
    if id in s.store && s.store[id].status == Verified {
      Already(valid, accepts, s, id);
    } else if t :| t in s.tasks && Carries(accepts, s, s.tasks[t], id) {
      CarriedCanGo(valid, accepts, s, t, id);
    } else {
      var token :| AcceptedElsewhere(accepts, token, s.created[id], s.clock);
      if id in s.store {
        PostCanGo(valid, accepts, s, id, token);
      } else {
        var back :| Returns(s, back, id);
        var n := RestoreFirst(valid, accepts, s, back, id);
        PostCanGo(valid, accepts, n, id, token);
      }
    }
  }

  // ---------------------------------------------------------------- the theorem

  /** From any state that keeps the invariant, a created transaction can come to stand as Verified without any
      accepted verification for its session if and only if it is at risk now. */
  lemma {:induction false} UncheckedIffAtRisk(valid: Dcql.Query -> bool, accepts: Verifier, s: System, id: string)
    requires Inv(valid, s) && id in s.created && DependsOnSession(accepts)
    ensures CanGoUnchecked(valid, accepts, s, id) <==> AtRisk(accepts, s, id)
  {
    if AtRisk(accepts, s, id) {
      AtRiskCanGo(valid, accepts, s, id);
    } else {
      forall steps ensures !Unchecked(Run(valid, accepts, s, steps), id) {
        RunKeepsSafe(valid, accepts, s, steps, id);
      }
    }
  }
}
