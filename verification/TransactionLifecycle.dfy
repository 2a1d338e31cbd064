/** One transaction from its creation on: what each operation makes of its row, as polls see it. */
module TransactionLifecycle {
  import opened Prelude
  import opened TransactionStore
  import opened TransactionRuns
  import Dcql

  /** What a poll at `now` reports, `later` being its second reading of the clock. */
  function Poll(s: Store, id: string, now: int, later: int): StatusResult {
    if IsExpired(s, id, now) then EXPIRED else StatusOf(s[id], later)
  }

  /** The row is in time for a poll. */
  predicate Live(s: Store, id: string, now: int) {
    id in s && now <= s[id].expiresAt
  }

  /** A row as `init_transaction` makes it is one that a run may create, and creating it is that step. */
  lemma {:induction false} FreshIsCreatable(
    valid: Dcql.Query -> bool, s: System, after: Store, id: string, state: string, nonce: string, ttlSecs: int,
    query: Dcql.Query, clientId: string, responseUri: string, encrypted: bool)
    requires id !in s.created && valid(query)
    requires forall i :: i in s.store && s.store[i].id != id ==> s.store[i].state != state
    requires id in after && after == s.store[id := after[id]]
    requires IsNewRow(after[id], id, state, nonce, s.clock, ttlSecs, query, clientId, responseUri, encrypted)
    ensures Creatable(valid, s, after[id]) && AfterInit(valid, s, after[id]).store == after
  {
  }

  /** Until its time to live has passed a new transaction is reported Pending with the whole seconds it has left;
      from then on it is Expired. */
  lemma {:induction false} FreshIsPending(
    s: Store, id: string, state: string, nonce: string, createdAt: int, ttlSecs: int, query: Dcql.Query,
    clientId: string, responseUri: string, encrypted: bool, now: int, later: int)
    requires id in s && IsNewRow(s[id], id, state, nonce, createdAt, ttlSecs, query, clientId, responseUri, encrypted)
    ensures var r := Poll(s, id, now, later);
            if now <= createdAt + 1000 * ttlSecs then
              && r.status == Pending && r.response == None && r.nonce == None && r.error == None && r.expiresIn.Some?
              && (later <= createdAt + 1000 * ttlSecs ==>
                    1000 * r.expiresIn.value <= createdAt + 1000 * ttlSecs - later < 1000 * (r.expiresIn.value + 1))
            else r == StatusResult(Expired, None, None, None, None) && AfterIsExpired(s, id, now) == s - {id}
  {
  }

  /** A response posted for the row's state is what polls in time report, with the nonce to check it against. */
  lemma {:induction false} PostedIsReceived(s: Store, id: string, r: Response, now: int, later: int)
    requires Keyed(s) && Live(s, id, now) && r.state == s[id].state
    ensures var after := AfterUpdateByState(s, r.state, tx => Receive(tx, r));
            && after == s[id := s[id].(status := Received, response := Some(r))]
            && Poll(after, id, now, later) == StatusResult(Received, None, Some(r), Some(s[id].nonce), None)
  {
    FoundIsUnique(s, id);
  }

  /** An error posted for the row's state is what polls in time report; one that names no state is for the row
      whose state is empty. */
  lemma {:induction false} FailedIsError(s: Store, id: string, e: WalletError, now: int, later: int)
    requires Keyed(s) && Live(s, id, now)
    requires s[id].state == match e.state case Some(state) => state case None => ""
    ensures var after := AfterUpdateByState(s, StateOfError(e), tx => Fail(tx, e));
            && after == s[id := s[id].(status := Error, error := Some(e))]
            && Poll(after, id, now, later) == StatusResult(Error, None, None, None, Some(e))
  {
    FoundIsUnique(s, id);
  }

  /** A message for a state no row has changes nothing. */
  lemma {:induction false} UnknownStateChangesNothing(s: Store, r: Response, e: WalletError)
    ensures (forall id :: id in s ==> s[id].state != r.state) ==>
              AfterUpdateByState(s, r.state, tx => Receive(tx, r)) == s
    ensures (forall id :: id in s ==> s[id].state != StateOfError(e)) ==>
              AfterUpdateByState(s, StateOfError(e), tx => Fail(tx, e)) == s
  {
  }

  /** A verified row is reported Verified while it is in time, whatever it held before. */
  lemma {:induction false} MarkedIsVerified(s: Store, id: string, now: int, later: int)
    requires Live(s, id, now)
    ensures var after := AfterUpdate(s, id, tx => MarkVerified(tx));
            && after == s[id := s[id].(status := Verified)]
            && Poll(after, id, now, later).status == Verified && Poll(after, id, now, later).response == None
  {
  }

  /** A consumed transaction is Expired for every later poll. */
  lemma {:induction false} ConsumedIsGone(s: Store, id: string, now: int, later: int)
    requires Keyed(s) && id in s
    ensures var found := FindByState(s, s[id].state);
            && found == Some(s[id])
            && Poll(s - {found.value.id}, id, now, later) == StatusResult(Expired, None, None, None, None)
  {
    FoundIsUnique(s, id);
  }

  // ---------------------------------------------------------------- the steps of a run

  /** In a run, a wallet's response or error changes the row of its state and no other, whatever that row's status. */
  lemma {:induction false} MessageSteps(
    valid: Dcql.Query -> bool, accepts: Verifier, s: System, id: string, r: Response, e: WalletError)
    requires Keyed(s.store) && id in s.store && s.store[id].state == r.state
    requires s.store[id].state == match e.state case Some(state) => state case None => ""
    ensures Apply(valid, accepts, s, Post(r)) ==
            s.(store := s.store[id := s.store[id].(status := Received, response := Some(r))], posted := s.posted + {r})
    ensures Apply(valid, accepts, s, PostError(e)) ==
            s.(store := s.store[id := s.store[id].(status := Error, error := Some(e))], reported := s.reported + {e})
  {
    FoundIsUnique(s.store, id);
  }

  /** Left alone, the two steps of an update in the SQLite store do what the one step does. */
  lemma {:induction false} TwoStepPostIsOne(s: System, t: nat, r: Response)
    requires Keyed(s.store) && t !in s.tasks
    ensures Finished(BegunPost(s, t, r), t) == AfterPost(s, r)
  {
    if HasState(s.store, r.state) {
      SetIsUpdate(s.store, r.state, tx => Receive(tx, r));
      assert BegunPost(s, t, r).tasks - {t} == s.tasks;
    }
  }

  lemma {:induction false} TwoStepPostErrorIsOne(s: System, t: nat, e: WalletError)
    requires Keyed(s.store) && t !in s.tasks
    ensures Finished(BegunPostError(s, t, e), t) == AfterPostError(s, e)
  {
    if HasState(s.store, StateOfError(e)) {
      SetIsUpdate(s.store, StateOfError(e), tx => Fail(tx, e));
      assert BegunPostError(s, t, e).tasks - {t} == s.tasks;
    }
  }

  /** Writing back the changed copy of the row found is updating that row. */
  lemma {:induction false} SetIsUpdate(s: Store, state: string, f: Transaction -> Transaction)
    requires Keyed(s) && HasState(s, state)
    requires forall tx :: f(tx).id == tx.id && f(tx).state == tx.state
    ensures AfterSet(s, f(FindByState(s, state).value)) == AfterUpdateByState(s, state, f)
  {
  }

  /** The same for the mark that ends a poll. */
  lemma {:induction false} TwoStepMarkIsOne(s: System, t: nat)
    requires Keyed(s.store) && t in s.tasks && s.tasks[t].Marking?
    ensures Finished(BegunMark(s, t), t) == AfterMark(s, t)
  {
    var id := s.tasks[t].id;
    if id in s.store {
      var copy := MarkVerified(s.store[id]);
      assert BegunMark(s, t).tasks - {t} == s.tasks - {t};
      assert !StateTaken(s.store, copy);
    }
  }
}
