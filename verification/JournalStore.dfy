/** The journal store: an append-only entry table with two unique keys, one head per user, and the
    compare-and-swap append.  The class is updated in place; `Database` is its abstract value. */
module JournalStore {
  import opened Prelude
  import opened JournalChain

  datatype JournalError = Storage | StaleHead | CasExhausted

  datatype Database = Database(entries: seq<Entry>, heads: map<Bytes, Bytes>)

  const EMPTY := Database([], map[])

  function GetHead(db: Database, username: Bytes): Option<Bytes> {
    if username in db.heads then Some(db.heads[username]) else None
  }

  /** Primary key on `id`, unique index on `entry_hash`. */
  predicate KeyFree(db: Database, e: Entry) {
    forall i :: 0 <= i < |db.entries| ==> db.entries[i].id != e.id && db.entries[i].entryHash != e.entryHash
  }

  /** The compare-and-swap append on values: outcome and new contents. */
  function AppendOutcome(db: Database, e: Entry, expected: Option<Bytes>): Result<Database, JournalError> {
    if GetHead(db, e.username) != expected then Err(StaleHead)
    else if !KeyFree(db, e) then Err(Storage)
    else Ok(Database(db.entries + [e], db.heads[e.username := e.entryHash]))
  }

  function AfterAppend(db: Database, e: Entry, expected: Option<Bytes>): Database {
    match AppendOutcome(db, e, expected)
    case Ok(next) => next
    case Err(_) => db
  }

  /** The rows of one user in insertion order. */
  function ChainOf(entries: seq<Entry>, username: Bytes): seq<Entry> {
    if entries == [] then []
    else
      var n := |entries| - 1;
      ChainOf(entries[..n], username) + (if entries[n].username == username then [entries[n]] else [])
  }

  lemma {:induction false} ChainOfAppend(entries: seq<Entry>, e: Entry, u: Bytes)
    ensures ChainOf(entries + [e], u) == ChainOf(entries, u) + (if e.username == u then [e] else [])
  {
    assert (entries + [e])[..|entries|] == entries;
  }

  lemma {:induction false} ChainOfMembers(entries: seq<Entry>, u: Bytes, e: Entry)
    ensures e in ChainOf(entries, u) <==> e in entries && e.username == u
  {
    if entries != [] {
      var n := |entries| - 1;
      ChainOfMembers(entries[..n], u, e);
      assert entries == entries[..n] + [entries[n]];
    }
  }

  /** Uniqueness of the table carries over to every user's rows. */
  lemma {:induction false} ChainOfDistinct(entries: seq<Entry>, u: Bytes)
    requires DistinctHashes(entries)
    ensures DistinctHashes(ChainOf(entries, u))
  {
    if entries != [] {
      var n := |entries| - 1;
      var shorter := ChainOf(entries[..n], u);
      ChainOfDistinct(entries[..n], u);
      forall i | 0 <= i < |shorter| ensures shorter[i].entryHash != entries[n].entryHash {
        ChainOfMembers(entries[..n], u, shorter[i]);
      }
    }
  }

  /** What the store keeps: every user's rows form one recomputing chain whose last hash is the
      head, and no entry hash occurs twice. */
  ghost predicate Consistent(sha: Bytes -> Bytes, db: Database) {
    && DistinctHashes(db.entries)
    && forall u :: UserConsistent(sha, db, u)
  }

  predicate UserConsistent(sha: Bytes -> Bytes, db: Database, u: Bytes) {
    Linked(sha, u, ChainOf(db.entries, u)) && GetHead(db, u) == HeadOf(ChainOf(db.entries, u))
  }

  /** An entry as `append_verification` builds it on top of the head it read. */
  predicate BuiltOn(sha: Bytes -> Bytes, e: Entry, expected: Option<Bytes>) {
    && e.previousHash == expected
    && e.entryHash == EntryHash(sha, e.username, e.previousHash, e.attestationHash)
  }

  /** What an append adds to the rows of user `u`. */
  function Growth(db: Database, e: Entry, expected: Option<Bytes>, u: Bytes): seq<Entry> {
    if u == e.username && AppendOutcome(db, e, expected).Ok? then [e] else []
  }

  lemma {:induction false} AppendGrows(db: Database, e: Entry, expected: Option<Bytes>, u: Bytes)
    ensures ChainOf(AfterAppend(db, e, expected).entries, u) == ChainOf(db.entries, u) + Growth(db, e, expected, u)
  {
    if AppendOutcome(db, e, expected).Ok? { ChainOfAppend(db.entries, e, u); }
  }

  lemma {:induction false} AppendKeepsUser(
    sha: Bytes -> Bytes, db: Database, e: Entry, expected: Option<Bytes>, u: Bytes)
    requires UserConsistent(sha, db, u) && BuiltOn(sha, e, expected)
    ensures UserConsistent(sha, AfterAppend(db, e, expected), u)
  {
    AppendGrows(db, e, expected, u);
    var chain := ChainOf(db.entries, u);
    assert chain + [] == chain;
    if Growth(db, e, expected, u) != [] { LinkedExtends(sha, u, chain, e); }
  }

  lemma {:induction false} AppendKeepsConsistent(sha: Bytes -> Bytes, db: Database, e: Entry, expected: Option<Bytes>)
    requires Consistent(sha, db) && BuiltOn(sha, e, expected)
    ensures Consistent(sha, AfterAppend(db, e, expected))
  {
    forall u ensures UserConsistent(sha, AfterAppend(db, e, expected), u) {
      AppendKeepsUser(sha, db, e, expected, u);
    }
  }

  predicate DistinctEntryIds(entries: seq<Entry>) {
    forall i, j :: 0 <= i < j < |entries| ==> entries[i].id != entries[j].id
  }

  /** The primary key: no id occurs twice. */
  lemma AppendKeepsIds(db: Database, e: Entry, expected: Option<Bytes>)
    requires DistinctEntryIds(db.entries)
    ensures DistinctEntryIds(AfterAppend(db, e, expected).entries)
  {
  }

  lemma {:induction false} EmptyConsistent(sha: Bytes -> Bytes)
    ensures Consistent(sha, EMPTY)
  {
  }

  /** With a fresh head, a fresh id, short usernames and no colliding preimages, the unique index on
      entry hashes never refuses an append: the only errors left are stale heads. */
  lemma {:induction false} FreshAppendSucceeds(sha: Bytes -> Bytes, db: Database, e: Entry)
    requires Consistent(sha, db) && HexValued(sha)
    requires BuiltOn(sha, e, GetHead(db, e.username))
    requires forall i :: 0 <= i < |db.entries| ==>
      db.entries[i].id != e.id && |db.entries[i].username| < HEX_LENGTH && IsHexHash(db.entries[i].attestationHash)
    requires |e.username| < HEX_LENGTH && IsHexHash(e.attestationHash)
    requires CollisionFree(sha, Preimages(db.entries + [e]))
    ensures AppendOutcome(db, e, GetHead(db, e.username)).Ok?
  {
    var all := db.entries + [e];
    var mine := ChainOf(db.entries, e.username);
    assert UserConsistent(sha, db, e.username);
    HeadsAreHex(sha, e.username, mine);
    forall i | 0 <= i < |db.entries| ensures db.entries[i].entryHash != e.entryHash {
      var x := db.entries[i];
      ChainOfMembers(db.entries, x.username, x);
      var theirs := ChainOf(db.entries, x.username);
      var k :| 0 <= k < |theirs| && theirs[k] == x;
      assert UserConsistent(sha, db, x.username) && LinkedAt(sha, x.username, theirs, k);
      assert all[i] == x && all[|db.entries|] == e;
      assert PreimageOf(x) in Preimages(all) && PreimageOf(e) in Preimages(all);
      HeadsAreHex(sha, x.username, theirs[..k]) by { LinkedPrefix(sha, x.username, theirs, k); }
      PreimageCollisions(x.username, x.previousHash, x.attestationHash,
                         e.username, e.previousHash, e.attestationHash);
      if x.entryHash == e.entryHash {
        assert theirs == mine;
        ChainOfDistinct(db.entries, e.username);
      }
    }
  }

  lemma {:induction false} HeadsAreHex(sha: Bytes -> Bytes, u: Bytes, chain: seq<Entry>)
    requires Linked(sha, u, chain) && HexValued(sha)
    ensures IsPreviousHash(HeadOf(chain))
  {
    if chain != [] {
      assert LinkedAt(sha, u, chain, |chain| - 1);
    }
  }

  class SqliteJournalStore {
    var entries: seq<Entry>
    var heads: map<Bytes, Bytes>

    function Contents(): Database
      reads this
    {
      Database(entries, heads)
    }

    constructor ()
      ensures Contents() == EMPTY
    {
      entries, heads := [], map[];
    }

    method ReadHead(username: Bytes) returns (head: Option<Bytes>)
      ensures head == GetHead(Contents(), username)
    {
      head := if username in heads then Some(heads[username]) else None;
    }

    /** `append_entry`: one exclusive transaction, so the check and both writes are a single step. */
    method AppendEntry(e: Entry, expected: Option<Bytes>) returns (r: Result<(), JournalError>)
      modifies this
      ensures Contents() == AfterAppend(old(Contents()), e, expected)
      ensures r == (match AppendOutcome(old(Contents()), e, expected)
                    case Ok(_) => Ok(())
                    case Err(x) => Err(x))
    {
      var actual := ReadHead(e.username);
      if actual != expected {
        return Err(StaleHead);
      }
      var i := 0;
      while i < |entries|
        invariant 0 <= i <= |entries|
        invariant Contents() == old(Contents())
        invariant forall k :: 0 <= k < i ==> entries[k].id != e.id && entries[k].entryHash != e.entryHash
      {
        if entries[i].id == e.id || entries[i].entryHash == e.entryHash {
          return Err(Storage);
        }
        i := i + 1;
      }
      entries := entries + [e];
      heads := heads[e.username := e.entryHash];
      return Ok(());
    }
  }
}
