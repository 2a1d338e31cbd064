/** The hash chain of the verification journal: what an entry hash covers, what a
    recomputing chain fixes, and the loop that re-verifies a chain. */
module JournalChain {
  import opened Prelude

  const HEX_LENGTH := 64

  predicate IsHexDigit(b: byte) { 48 <= b <= 57 || 97 <= b <= 102 }

  /** Lowercase hex rendering of a SHA-256 value. */
  predicate IsHexHash(h: Bytes) {
    |h| == HEX_LENGTH && forall i :: 0 <= i < |h| ==> IsHexDigit(h[i])
  }

  /** `sha` stands for `hex::encode(Sha256::digest(..))`. */
  ghost predicate HexValued(sha: Bytes -> Bytes) {
    forall x :: IsHexHash(sha(x))
  }

  datatype Entry = Entry(
    id: Bytes,
    username: Bytes,
    previousHash: Option<Bytes>,
    entryHash: Bytes,
    attestationHash: Bytes,
    createdAt: int)

  // ---------------------------------------------------------------- hashed bytes

  function PreviousBytes(previous: Option<Bytes>): Bytes {
    match previous
    case None => []
    case Some(h) => h
  }

  function EntryPreimage(username: Bytes, previous: Option<Bytes>, attestationHash: Bytes): Bytes {
    username + PreviousBytes(previous) + attestationHash
  }

  function EntryHash(sha: Bytes -> Bytes, username: Bytes, previous: Option<Bytes>, attestationHash: Bytes): Bytes {
    sha(EntryPreimage(username, previous, attestationHash))
  }

  /** The hasher is fed in three updates; the digest is taken over their concatenation. */
  method ComputeEntryHash(sha: Bytes -> Bytes, username: Bytes, previous: Option<Bytes>, attestationHash: Bytes)
    returns (hash: Bytes)
    ensures hash == EntryHash(sha, username, previous, attestationHash)
  {
    var hasher := [];
    hasher := hasher + username;
    hasher := hasher + (if previous.None? then [] else previous.value);
    hasher := hasher + attestationHash;
    assert hasher == EntryPreimage(username, previous, attestationHash);
    hash := sha(hasher);
  }

  predicate IsPreviousHash(previous: Option<Bytes>) {
    previous.Some? ==> IsHexHash(previous.value)
  }

  /** A username that reads as `shorter` followed by a whole hex hash. */
  predicate Absorbs(longer: Bytes, shorter: Bytes, hash: Option<Bytes>) {
    hash.Some? && longer == shorter + hash.value
  }

  /** The three fields are concatenated without separators.  Two field triples give the same bytes
      exactly when they are equal, or when one username swallows the other's previous hash. */
  lemma {:induction false} PreimageCollisions(
    u1: Bytes, p1: Option<Bytes>, a1: Bytes, u2: Bytes, p2: Option<Bytes>, a2: Bytes)
    requires IsPreviousHash(p1) && IsPreviousHash(p2) && |a1| == |a2| == HEX_LENGTH
    ensures EntryPreimage(u1, p1, a1) == EntryPreimage(u2, p2, a2) <==>
            a1 == a2 && ((u1 == u2 && p1 == p2) ||
                         (p1.None? && Absorbs(u1, u2, p2)) ||
                         (p2.None? && Absorbs(u2, u1, p1)))
  {
    if EntryPreimage(u1, p1, a1) == EntryPreimage(u2, p2, a2) {
      CancelSuffix(u1 + PreviousBytes(p1), a1, u2 + PreviousBytes(p2), a2);
      if p1.Some? == p2.Some? {
        CancelSuffix(u1, PreviousBytes(p1), u2, PreviousBytes(p2));
      } else {
        assert u1 + [] == u1 && u2 + [] == u2;
      }
    } else if p1.None? != p2.None? {
      assert u1 + [] == u1 && u2 + [] == u2;
    }
  }

  // ---------------------------------------------------------------- chains

  function HeadOf(chain: seq<Entry>): Option<Bytes> {
    if chain == [] then None else Some(chain[|chain| - 1].entryHash)
  }

  /** Entry `i` belongs to the user, points at its predecessor and recomputes. */
  predicate LinkedAt(sha: Bytes -> Bytes, username: Bytes, chain: seq<Entry>, i: nat)
    requires i < |chain|
  {
    && chain[i].username == username
    && chain[i].previousHash == HeadOf(chain[..i])
    && chain[i].entryHash == EntryHash(sha, username, chain[i].previousHash, chain[i].attestationHash)
  }

  /** One linear chain from a genesis entry to the head. */
  predicate Linked(sha: Bytes -> Bytes, username: Bytes, chain: seq<Entry>) {
    forall i :: 0 <= i < |chain| ==> LinkedAt(sha, username, chain, i)
  }

  predicate HexFields(chain: seq<Entry>) {
    forall i :: 0 <= i < |chain| ==>
      IsHexHash(chain[i].attestationHash) && IsHexHash(chain[i].entryHash) && IsPreviousHash(chain[i].previousHash)
  }

  function PreimageOf(e: Entry): Bytes {
    EntryPreimage(e.username, e.previousHash, e.attestationHash)
  }

  function Preimages(chain: seq<Entry>): set<Bytes> {
    set i | 0 <= i < |chain| :: PreimageOf(chain[i])
  }

  predicate DistinctHashes(chain: seq<Entry>) {
    forall i, j :: 0 <= i < j < |chain| ==> chain[i].entryHash != chain[j].entryHash
  }

  lemma {:induction false} NoRepeatAt(sha: Bytes -> Bytes, u: Bytes, chain: seq<Entry>, i: nat, j: nat)
    requires Linked(sha, u, chain) && HexFields(chain)
    requires CollisionFree(sha, Preimages(chain))
    requires i < j < |chain|
    ensures chain[i].entryHash != chain[j].entryHash
  {
    assert LinkedAt(sha, u, chain, i) && LinkedAt(sha, u, chain, j);
    if chain[i].entryHash == chain[j].entryHash {
      assert PreimageOf(chain[i]) in Preimages(chain) && PreimageOf(chain[j]) in Preimages(chain);
      PreimageCollisions(u, chain[i].previousHash, chain[i].attestationHash,
                         u, chain[j].previousHash, chain[j].attestationHash);
      if i > 0 {
        NoRepeatAt(sha, u, chain, i - 1, j - 1);
      }
    }
  }

  /** A recomputing chain never repeats an entry hash. */
  lemma {:induction false} ChainNeverRepeats(sha: Bytes -> Bytes, u: Bytes, chain: seq<Entry>)
    requires Linked(sha, u, chain) && HexFields(chain)
    requires CollisionFree(sha, Preimages(chain))
    ensures DistinctHashes(chain)
  {
    forall i, j | 0 <= i < j < |chain| ensures chain[i].entryHash != chain[j].entryHash {
      NoRepeatAt(sha, u, chain, i, j);
    }
  }

  predicate SameLinks(c1: seq<Entry>, c2: seq<Entry>) {
    |c1| == |c2| &&
    forall i :: 0 <= i < |c1| ==>
      c1[i].previousHash == c2[i].previousHash &&
      c1[i].attestationHash == c2[i].attestationHash &&
      c1[i].entryHash == c2[i].entryHash
  }

  lemma {:induction false} LinkedPrefix(sha: Bytes -> Bytes, u: Bytes, chain: seq<Entry>, n: nat)
    requires Linked(sha, u, chain) && n <= |chain|
    ensures Linked(sha, u, chain[..n])
  {
    forall i | 0 <= i < n ensures LinkedAt(sha, u, chain[..n], i) {
      assert LinkedAt(sha, u, chain, i);
      assert chain[..n][..i] == chain[..i];
    }
  }

  /** Linking one more entry to the head keeps the chain. */
  lemma {:induction false} LinkedExtends(sha: Bytes -> Bytes, u: Bytes, chain: seq<Entry>, e: Entry)
    requires Linked(sha, u, chain)
    requires e.username == u && e.previousHash == HeadOf(chain)
    requires e.entryHash == EntryHash(sha, u, e.previousHash, e.attestationHash)
    ensures Linked(sha, u, chain + [e]) && HeadOf(chain + [e]) == Some(e.entryHash)
  {
    var longer := chain + [e];
    forall i | 0 <= i < |longer| ensures LinkedAt(sha, u, longer, i) {
      if i < |chain| {
        assert LinkedAt(sha, u, chain, i);
        assert longer[..i] == chain[..i];
      } else {
        assert longer[..i] == chain;
      }
    }
  }

  /** Equal hashes of two recomputing entries of one user mean equal links. */
  lemma {:induction false} SameHashSameLinks(
    sha: Bytes -> Bytes, u: Bytes, c1: seq<Entry>, i: nat, c2: seq<Entry>, j: nat)
    requires i < |c1| && j < |c2| && LinkedAt(sha, u, c1, i)
    requires LinkedAt(sha, u, c2, j) && HexFields(c1) && HexFields(c2)
    requires CollisionFree(sha, Preimages(c1) + Preimages(c2))
    ensures c1[i].entryHash == c2[j].entryHash ==>
              c1[i].previousHash == c2[j].previousHash && c1[i].attestationHash == c2[j].attestationHash
  {
    assert PreimageOf(c1[i]) in Preimages(c1) && PreimageOf(c2[j]) in Preimages(c2);
    PreimageCollisions(u, c1[i].previousHash, c1[i].attestationHash, u, c2[j].previousHash, c2[j].attestationHash);
  }

  lemma {:induction false} PrefixPreimages(chain: seq<Entry>, n: nat)
    requires n <= |chain|
    ensures Preimages(chain[..n]) <= Preimages(chain)
  {
  }

  lemma {:induction false} SameLinksExtend(c1: seq<Entry>, c2: seq<Entry>)
    requires c1 != [] && c2 != [] && SameLinks(c1[..|c1| - 1], c2[..|c2| - 1])
    requires var x, y := c1[|c1| - 1], c2[|c2| - 1];
             x.previousHash == y.previousHash && x.attestationHash == y.attestationHash && x.entryHash == y.entryHash
    ensures SameLinks(c1, c2)
  {
    var b1, b2 := c1[..|c1| - 1], c2[..|c2| - 1];
    assert forall i :: 0 <= i < |b1| ==> c1[i] == b1[i] && c2[i] == b2[i];
  }

  /** The head hash commits to the whole history: two recomputing chains of one user that end in
      the same head have the same length and the same links at every position. */
  lemma {:induction false} HeadDeterminesChain(sha: Bytes -> Bytes, u: Bytes, c1: seq<Entry>, c2: seq<Entry>)
    requires Linked(sha, u, c1) && Linked(sha, u, c2) && HexFields(c1) && HexFields(c2)
    requires CollisionFree(sha, Preimages(c1) + Preimages(c2))
    requires HeadOf(c1) == HeadOf(c2)
    ensures SameLinks(c1, c2)
  {
    if c1 != [] && c2 != [] {
      var n1, n2 := |c1| - 1, |c2| - 1;
      assert LinkedAt(sha, u, c1, n1) && LinkedAt(sha, u, c2, n2);
      SameHashSameLinks(sha, u, c1, n1, c2, n2);
      LinkedPrefix(sha, u, c1, n1);
      LinkedPrefix(sha, u, c2, n2);
      PrefixPreimages(c1, n1);
      PrefixPreimages(c2, n2);
      HeadDeterminesChain(sha, u, c1[..n1], c2[..n2]);
      SameLinksExtend(c1, c2);
    }
  }

  /** Entries of different users never share an entry hash, unless one username is another
      username followed by a hex hash; short usernames cannot be. */
  lemma {:induction false} CrossUserHashesDiffer(
    sha: Bytes -> Bytes, u1: Bytes, c1: seq<Entry>, i: nat, u2: Bytes, c2: seq<Entry>, j: nat)
    requires Linked(sha, u1, c1) && Linked(sha, u2, c2) && HexFields(c1) && HexFields(c2)
    requires CollisionFree(sha, Preimages(c1) + Preimages(c2))
    requires u1 != u2 && i < |c1| && j < |c2|
    ensures c1[i].entryHash == c2[j].entryHash <==>
            c1[i].attestationHash == c2[j].attestationHash &&
            ((i == 0 && Absorbs(u1, u2, c2[j].previousHash)) || (j == 0 && Absorbs(u2, u1, c1[i].previousHash)))
    ensures |u1| < HEX_LENGTH && |u2| < HEX_LENGTH ==> c1[i].entryHash != c2[j].entryHash
  {
    assert LinkedAt(sha, u1, c1, i) && LinkedAt(sha, u2, c2, j);
    assert PreimageOf(c1[i]) in Preimages(c1) && PreimageOf(c2[j]) in Preimages(c2);
    PreimageCollisions(u1, c1[i].previousHash, c1[i].attestationHash,
                       u2, c2[j].previousHash, c2[j].attestationHash);
  }

  // ---------------------------------------------------------------- verify_chain

  /** What `verify_chain` answers: without rows the stored head is never looked at. */
  predicate ChainAccepted(sha: Bytes -> Bytes, username: Bytes, rows: seq<Entry>, storedHead: Option<Bytes>) {
    Linked(sha, username, rows) && (rows == [] || storedHead == HeadOf(rows))
  }

  /** `verify_chain`: walk the rows from genesis, recomputing every hash, then compare the stored head. */
  method VerifyChain(sha: Bytes -> Bytes, username: Bytes, rows: seq<Entry>, storedHead: Option<Bytes>)
    returns (valid: bool, entriesVerified: nat)
    requires forall i :: 0 <= i < |rows| ==> rows[i].username == username
    ensures valid <==> ChainAccepted(sha, username, rows, storedHead)
    ensures entriesVerified <= |rows| && Linked(sha, username, rows[..entriesVerified])
    ensures entriesVerified < |rows| ==> !LinkedAt(sha, username, rows, entriesVerified)
  {
    if rows == [] {
      return true, 0;
    }
    var expectedPrevious: Option<Bytes> := None;
    var i := 0;
    while i < |rows|
      invariant 0 <= i <= |rows|
      invariant expectedPrevious == HeadOf(rows[..i])
      invariant Linked(sha, username, rows[..i])
    {
      if rows[i].previousHash != expectedPrevious {
        assert !LinkedAt(sha, username, rows, i);
        return false, i;
      }
      var recomputed := ComputeEntryHash(sha, username, expectedPrevious, rows[i].attestationHash);
      if recomputed != rows[i].entryHash {
        assert !LinkedAt(sha, username, rows, i);
        return false, i;
      }
      assert LinkedAt(sha, username, rows, i);
      assert rows[..i + 1] == rows[..i] + [rows[i]];
      LinkedExtends(sha, username, rows[..i], rows[i]);
      expectedPrevious := Some(rows[i].entryHash);
      i := i + 1;
    }
    assert rows[..i] == rows;
    return storedHead == expectedPrevious, |rows|;
  }

  /** An accepted answer agrees with the stored head unless there are no rows and there is a head. */
  lemma AcceptedMeansHeadUnlessEmpty(sha: Bytes -> Bytes, username: Bytes, rows: seq<Entry>, storedHead: Option<Bytes>)
    requires ChainAccepted(sha, username, rows, storedHead)
    ensures storedHead == HeadOf(rows) <==> !(rows == [] && storedHead.Some?)
  {
  }

  /** The stored head commits an accepted answer to one history, except that the empty answer is always
      accepted beside it. */
  lemma {:induction false} AcceptedHistoriesAgree(
    sha: Bytes -> Bytes, username: Bytes, rows: seq<Entry>, others: seq<Entry>, storedHead: Option<Bytes>)
    requires ChainAccepted(sha, username, rows, storedHead) && ChainAccepted(sha, username, others, storedHead)
    requires HexFields(rows) && HexFields(others) && CollisionFree(sha, Preimages(rows) + Preimages(others))
    ensures SameLinks(rows, others) <==> (rows == [] <==> others == [])
  {
    if rows != [] && others != [] {
      HeadDeterminesChain(sha, username, rows, others);
    }
  }

  /** Any chain can be deleted whole without the check noticing; deleting only its end is noticed. */
  lemma {:induction false} OnlyWholeDeletionUnnoticed(sha: Bytes -> Bytes, username: Bytes, chain: seq<Entry>, n: nat)
    requires Linked(sha, username, chain) && HexFields(chain) && CollisionFree(sha, Preimages(chain)) && n <= |chain|
    ensures ChainAccepted(sha, username, chain[..n], HeadOf(chain)) <==> n == 0 || n == |chain|
  {
    LinkedPrefix(sha, username, chain, n);
    ChainNeverRepeats(sha, username, chain);
    assert n == |chain| ==> chain[..n] == chain;
  }
}
