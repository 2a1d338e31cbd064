/** What the journal commits to: every successful call has its own entry, at a place of its own, that hashes
    what the caller handed over, and there is no other entry. */
module JournalAttestations {
  import opened Prelude
  import opened JournalChain
  import opened JournalStore
  import opened JournalRuns

  /** A call about to append holds an entry for its attestation; a successful one has it at its place. */
  predicate Committed(sha: Bytes -> Bytes, c: Call, chain: seq<Entry>) {
    match c.phase
    case Appending(_, e, _) => Attests(sha, c.user, c.jwt, e)
    case Finished(Ok(_), n) => 0 < n <= |chain| && Attests(sha, c.user, c.jwt, chain[n - 1])
    case _ => true
  }

  /** The call wrote the `n`th entry of the user. */
  predicate Wrote(c: Call, u: Bytes, n: nat) {
    IsSuccess(c, u) && c.phase.endedAt == n
  }

  predicate Written(calls: map<nat, Call>, u: Bytes, n: nat) {
    exists w :: w in calls && Wrote(calls[w], u, n)
  }

  ghost predicate WrittenOnce(calls: map<nat, Call>, u: Bytes, length: nat) {
    && (forall n :: 0 < n <= length ==> Written(calls, u, n))
    && forall w, v, n :: w in calls && v in calls && Wrote(calls[w], u, n) && Wrote(calls[v], u, n) ==> w == v
  }

  ghost predicate CommitInv(sha: Bytes -> Bytes, s: System) {
    && (forall w :: w in s.calls ==> Committed(sha, s.calls[w], ChainOf(s.db.entries, s.calls[w].user)))
    && forall u :: WrittenOnce(s.calls, u, LengthOf(s.db, u))
  }

  lemma {:induction false} GrowthKeepsCommitted(sha: Bytes -> Bytes, c: Call, chain: seq<Entry>, more: seq<Entry>)
    requires Committed(sha, c, chain)
    ensures Committed(sha, c, chain + more)
  {
  }

  /** A call that has not succeeded, before and after its step, wrote nothing. */
  lemma {:induction false} StillWrittenOnce(calls: map<nat, Call>, w: nat, c: Call, u: Bytes, length: nat)
    requires WrittenOnce(calls, u, length)
    requires w in calls ==> !IsSuccess(calls[w], u)
    requires !IsSuccess(c, u)
    ensures WrittenOnce(calls[w := c], u, length)
  {
    var after := calls[w := c];
    forall n | 0 < n <= length ensures Written(after, u, n) {
      assert Written(calls, u, n);
      var v :| v in calls && Wrote(calls[v], u, n);
      assert Wrote(after[v], u, n);
    }
  }

  /** Every success of the user lies within the chain. */
  lemma {:induction false} WrittenWithin(sha: Bytes -> Bytes, s: System, v: nat, u: Bytes, n: nat)
    requires CommitInv(sha, s) && v in s.calls && Wrote(s.calls[v], u, n)
    ensures n <= LengthOf(s.db, u)
  {
    assert Committed(sha, s.calls[v], ChainOf(s.db.entries, s.calls[v].user));
  }

  lemma {:induction false} CasWritesOnce(sha: Bytes -> Bytes, s: System, w: nat, u: Bytes)
    requires CommitInv(sha, s) && w in s.calls && s.calls[w].phase.Appending?
    ensures WrittenOnce(Apply(sha, s, Cas(w)).calls, u, LengthOf(Apply(sha, s, Cas(w)).db, u))
  {
    var c, after := s.calls[w], CallAfterCas(s.db, s.calls[w]);
    assert Committed(sha, c, ChainOf(s.db.entries, c.user));
    CasGrows(s.db, c, u);
    SuccessIffGrowth(s.db, c, u);
    if IsSuccess(after, u) {
      var length := LengthOf(s.db, u);
      var calls := s.calls[w := after];
      assert Wrote(calls[w], u, length + 1);
      forall n | 0 < n <= length ensures Written(calls, u, n) {
        assert Written(s.calls, u, n);
        var v :| v in s.calls && Wrote(s.calls[v], u, n);
        assert Wrote(calls[v], u, n);
      }
      forall v | v in s.calls && v != w ensures !Wrote(s.calls[v], u, length + 1) {
        if Wrote(s.calls[v], u, length + 1) { WrittenWithin(sha, s, v, u, length + 1); }
      }
    } else {
      StillWrittenOnce(s.calls, w, after, u, LengthOf(s.db, u));
    }
  }

  lemma {:induction false} CasCommits(sha: Bytes -> Bytes, s: System, w: nat, v: nat)
    requires CommitInv(sha, s) && w in s.calls && s.calls[w].phase.Appending? && v in s.calls
    ensures var n := Apply(sha, s, Cas(w));
            Committed(sha, n.calls[v], ChainOf(n.db.entries, n.calls[v].user))
  {
    var c := s.calls[v];
    assert Committed(sha, c, ChainOf(s.db.entries, c.user));
    CasGrows(s.db, s.calls[w], c.user);
    GrowthKeepsCommitted(sha, c, ChainOf(s.db.entries, c.user), GrowthBy(s.db, s.calls[w], c.user));
  }

  lemma {:induction false} StepKeepsCommits(sha: Bytes -> Bytes, s: System, step: Step)
    requires CommitInv(sha, s)
    ensures CommitInv(sha, Apply(sha, s, step))
  {
    var n := Apply(sha, s, step);
    if step.Cas? && step.caller in s.calls && s.calls[step.caller].phase.Appending? {
      forall v | v in n.calls ensures Committed(sha, n.calls[v], ChainOf(n.db.entries, n.calls[v].user)) {
        CasCommits(sha, s, step.caller, v);
      }
      forall u ensures WrittenOnce(n.calls, u, LengthOf(n.db, u)) { CasWritesOnce(sha, s, step.caller, u); }
    } else if n.calls != s.calls {
      var w := step.caller;
      forall u ensures WrittenOnce(n.calls, u, LengthOf(n.db, u)) {
        assert WrittenOnce(s.calls, u, LengthOf(s.db, u));
        StillWrittenOnce(s.calls, w, n.calls[w], u, LengthOf(s.db, u));
      }
    } else {
      forall u ensures WrittenOnce(n.calls, u, LengthOf(n.db, u)) {
        assert WrittenOnce(s.calls, u, LengthOf(s.db, u));
      }
    }
  }

  lemma {:induction false} RunKeepsCommits(sha: Bytes -> Bytes, clock: int, steps: seq<Step>)
    ensures CommitInv(sha, Run(sha, Initial(clock), steps))
  {
    if steps != [] {
      RunKeepsCommits(sha, clock, steps[..|steps| - 1]);
      StepKeepsCommits(sha, Run(sha, Initial(clock), steps[..|steps| - 1]), steps[|steps| - 1]);
    }
  }

  /** In no run does an entry id occur twice, so an entry without an attestation of its own hashes a text that
      no other does. */
  lemma {:induction false} RunKeepsIds(sha: Bytes -> Bytes, clock: int, steps: seq<Step>)
    ensures DistinctEntryIds(Run(sha, Initial(clock), steps).db.entries)
  {
    if steps != [] {
      var before := Run(sha, Initial(clock), steps[..|steps| - 1]);
      RunKeepsIds(sha, clock, steps[..|steps| - 1]);
      var step := steps[|steps| - 1];
      if step.Cas? && step.caller in before.calls && before.calls[step.caller].phase.Appending? {
        var e := before.calls[step.caller].phase.entry;
        AppendKeepsIds(before.db, e, e.previousHash);
      }
    }
  }

  // ---------------------------------------------------------------- what every run commits to

  /** The entries of a user are exactly those of his successful calls: each call that returned Ok has a place in
      the chain that no other has, the entry there hashes its attestation, and every place is taken. */
  lemma {:induction false} EntriesAreSuccesses(sha: Bytes -> Bytes, clock: int, steps: seq<Step>, u: Bytes)
    ensures var s := Run(sha, Initial(clock), steps);
            var chain := ChainOf(s.db.entries, u);
            && (forall w :: w in s.calls && IsSuccess(s.calls[w], u) ==>
                  0 < s.calls[w].phase.endedAt <= |chain| &&
                  Attests(sha, u, s.calls[w].jwt, chain[s.calls[w].phase.endedAt - 1]))
            && (forall w, v, n ::
                  w in s.calls && v in s.calls && Wrote(s.calls[w], u, n) && Wrote(s.calls[v], u, n) ==> w == v)
            && forall n :: 0 < n <= |chain| ==> Written(s.calls, u, n)
  {
    RunKeepsCommits(sha, clock, steps);
    var s := Run(sha, Initial(clock), steps);
    assert WrittenOnce(s.calls, u, LengthOf(s.db, u));
    forall w | w in s.calls && IsSuccess(s.calls[w], u)
      ensures Committed(sha, s.calls[w], ChainOf(s.db.entries, u))
    {
      assert Committed(sha, s.calls[w], ChainOf(s.db.entries, s.calls[w].user));
    }
  }

  /** In any run: two calls that returned Ok with attestations of their own left two entries, and these carry the same
      attestation hash exactly when the attestations are the same. */
  lemma {:induction false} SuccessesKeepAttestationsApart(
    sha: Bytes -> Bytes, clock: int, steps: seq<Step>, w: nat, v: nat)
    requires var calls := Run(sha, Initial(clock), steps).calls;
             && w in calls && v in calls && w != v
             && IsSuccess(calls[w], calls[w].user) && IsSuccess(calls[v], calls[v].user)
             && calls[w].jwt != [] && calls[v].jwt != [] && CollisionFree(sha, {calls[w].jwt, calls[v].jwt})
    ensures var s := Run(sha, Initial(clock), steps);
            var (c, d) := (s.calls[w], s.calls[v]);
            var (mine, theirs) := (ChainOf(s.db.entries, c.user), ChainOf(s.db.entries, d.user));
            && 0 < c.phase.endedAt <= |mine| && 0 < d.phase.endedAt <= |theirs|
            && (c.user == d.user ==> c.phase.endedAt != d.phase.endedAt)
            && (mine[c.phase.endedAt - 1].attestationHash == theirs[d.phase.endedAt - 1].attestationHash <==>
                  c.jwt == d.jwt)
  {
    var s := Run(sha, Initial(clock), steps);
    EntriesAreSuccesses(sha, clock, steps, s.calls[w].user);
    EntriesAreSuccesses(sha, clock, steps, s.calls[v].user);
    assert Wrote(s.calls[w], s.calls[w].user, s.calls[w].phase.endedAt);
  }
}
