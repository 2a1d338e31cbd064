/** OpenID4VP transactions: a store keyed by id with a unique secondary key `state`, and the service
    operations on it.  The functions give the new contents; the classes update them in place. */
module TransactionStore {
  import opened Prelude
  import Dcql

  datatype Status = Pending | Received | Verified | Error | Expired

  datatype Response = Response(vpToken: string, state: string)

  datatype WalletError = WalletError(code: string, state: Option<string>)

  /** `encrypted`: the response mode asks the wallet for an encrypted response. */
  datatype Transaction = Transaction(
    id: string, state: string, nonce: string, createdAt: int, expiresAt: int, status: Status,
    query: Dcql.Query, clientId: string, responseUri: string, encrypted: bool,
    response: Option<Response>, error: Option<WalletError>)

  type Store = map<string, Transaction>

  /** Every row is stored under its own id, and no two rows share a state. */
  ghost predicate Keyed(s: Store) {
    && (forall id :: id in s ==> s[id].id == id)
    && forall i, j :: i in s && j in s && s[i].state == s[j].state ==> i == j
  }

  // ---------------------------------------------------------------- store contract

  predicate StateTaken(s: Store, tx: Transaction) {
    exists id :: id in s && s[id].id != tx.id && s[id].state == tx.state
  }

  function AfterSet(s: Store, tx: Transaction): Store {
    if StateTaken(s, tx) then s else s[tx.id := tx]
  }

  predicate HasState(s: Store, state: string) {
    exists id :: id in s && s[id].state == state
  }

  /** The row with this state; on a keyed store there is at most one. */
  ghost function FindByState(s: Store, state: string): (r: Option<Transaction>)
    ensures r.Some? <==> HasState(s, state)
    ensures r.Some? ==> exists id :: id in s && s[id] == r.value && s[id].state == state
  {
    if HasState(s, state) then
      var id :| id in s && s[id].state == state;
      Some(s[id])
    else None
  }

  function AfterUpdate(s: Store, id: string, f: Transaction -> Transaction): Store {
    if id in s then s[id := f(s[id])] else s
  }

  ghost function AfterUpdateByState(s: Store, state: string, f: Transaction -> Transaction): Store {
    match FindByState(s, state)
    case Some(tx) => s[tx.id := f(tx)]
    case None => s
  }

  /** `is_expired`: absent rows count as expired; a row past its time is removed. */
  predicate IsExpired(s: Store, id: string, now: int) {
    id !in s || s[id].expiresAt < now
  }

  function AfterIsExpired(s: Store, id: string, now: int): Store {
    if id in s && s[id].expiresAt < now then s - {id} else s
  }

  lemma {:induction false} FoundIsUnique(s: Store, id: string)
    requires Keyed(s) && id in s
    ensures FindByState(s, s[id].state) == Some(s[id])
  {
  }

  lemma {:induction false} SetKeepsKeyed(s: Store, tx: Transaction)
    requires Keyed(s)
    ensures Keyed(AfterSet(s, tx))
  {
  }

  // ---------------------------------------------------------------- in-memory store

  class InMemoryTransactionStore {
    var inner: Store

    constructor ()
      ensures inner == map[]
    {
      inner := map[];
    }

    method Set(tx: Transaction) returns (r: Result<(), string>)
      modifies this
      ensures r.Ok? <==>
              forall id :: id in old(inner) && old(inner)[id].id != tx.id ==> old(inner)[id].state != tx.state
      ensures inner == AfterSet(old(inner), tx)
    {
      if StateTaken(inner, tx) {
        return Err("duplicate state");
      }
      inner := inner[tx.id := tx];
      return Ok(());
    }

    method Get(id: string) returns (r: Option<Transaction>)
      ensures r == if id in inner then Some(inner[id]) else None
    {
      r := if id in inner then Some(inner[id]) else None;
    }

    /** A scan over the values, in whatever order the map yields them. */
    method Find(state: string) returns (r: Option<Transaction>)
      requires Keyed(inner)
      ensures r == FindByState(inner, state)
    {
      var left := inner.Keys;
      while left != {}
        invariant left <= inner.Keys
        invariant forall id :: id in inner && inner[id].state == state ==> id in left
        decreases |left|
      {
        var id :| id in left;
        if inner[id].state == state {
          FoundIsUnique(inner, id);
          return Some(inner[id]);
        }
        left := left - {id};
      }
      return None;
    }

    method Delete(id: string) returns (removed: bool)
      modifies this
      ensures removed <==> id in old(inner)
      ensures inner == old(inner) - {id}
    {
      removed := id in inner;
      inner := inner - {id};
    }

    method Update(id: string, f: Transaction -> Transaction) returns (found: bool)
      modifies this
      ensures found <==> id in old(inner)
      ensures inner == AfterUpdate(old(inner), id, f)
    {
      found := id in inner;
      if found { inner := inner[id := f(inner[id])]; }
    }

    method UpdateStatus(id: string, status: Status)
      modifies this
      ensures inner == AfterUpdate(old(inner), id, (tx: Transaction) => tx.(status := status))
    {
      var _ := Update(id, (tx: Transaction) => tx.(status := status));
    }

    method UpdateByState(state: string, f: Transaction -> Transaction) returns (found: bool)
      requires Keyed(inner)
      modifies this
      ensures found <==> HasState(old(inner), state)
      ensures inner == AfterUpdateByState(old(inner), state, f)
    {
      var tx := Find(state);
      found := tx.Some?;
      if found { inner := inner[tx.value.id := f(tx.value)]; }
    }

    method CheckExpired(id: string, now: int) returns (expired: bool)
      modifies this
      ensures expired <==> IsExpired(old(inner), id, now)
      ensures inner == AfterIsExpired(old(inner), id, now)
    {
      if id !in inner { return true; }
      if inner[id].expiresAt < now {
        inner := inner - {id};
        return true;
      }
      return false;
    }
  }

  // ---------------------------------------------------------------- service operations

  /** What `handle_wallet_response` writes. */
  function Receive(tx: Transaction, r: Response): Transaction {
    tx.(response := Some(r), status := Received)
  }

  function StateOfError(e: WalletError): string {
    if e.state.Some? then e.state.value else ""
  }

  /** What `handle_wallet_error` writes. */
  function Fail(tx: Transaction, e: WalletError): Transaction {
    tx.(error := Some(e), status := Error)
  }

  function MarkVerified(tx: Transaction): Transaction {
    tx.(status := Verified)
  }

  const MILLIS := 1000

  /** Rust's `/` truncates toward zero. */
  function TruncDiv(a: int, b: nat): int
    requires b > 0
  {
    if a >= 0 then a / b else -((-a) / b)
  }

  /** `created_at` and `expires_at` of `init_transaction` are milliseconds. */
  function NewTransaction(
    id: string, state: string, nonce: string, now: int, ttlSecs: int, query: Dcql.Query, clientId: string,
    responseUri: string, encrypted: bool): Transaction
  {
    Transaction(
      id, state, nonce, now, now + ttlSecs * MILLIS, Pending, query, clientId, responseUri, encrypted, None, None)
  }

  /** What a new transaction must be, field by field. */
  predicate IsNewRow(
    tx: Transaction, id: string, state: string, nonce: string, now: int, ttlSecs: int, query: Dcql.Query,
    clientId: string, responseUri: string, encrypted: bool)
  {
    && tx.id == id && tx.state == state && tx.nonce == nonce
    && tx.clientId == clientId && tx.responseUri == responseUri && tx.encrypted == encrypted && tx.query == query
    && tx.createdAt == now && tx.expiresAt == now + 1000 * ttlSecs
    && tx.status == Pending && tx.response == None && tx.error == None
  }

  datatype StatusResult = StatusResult(
    status: Status, expiresIn: Option<int>, response: Option<Response>, nonce: Option<string>,
    error: Option<WalletError>)

  /** `get_transaction_status` of a live row, read at `now`. */
  function StatusOf(tx: Transaction, now: int): StatusResult {
    if tx.status == Received && tx.response.Some? then StatusResult(Received, None, tx.response, Some(tx.nonce), None)
    else if tx.status == Error then StatusResult(Error, None, None, None, tx.error)
    else StatusResult(tx.status, Some(TruncDiv(tx.expiresAt - now, MILLIS)), None, None, None)
  }

  const EXPIRED := StatusResult(Expired, None, None, None, None)

  class OpenId4VpService {
    const transactions: InMemoryTransactionStore
    const ttlSecs: int

    constructor (ttl: int)
      ensures fresh(transactions) && transactions.inner == map[] && ttlSecs == ttl
    {
      transactions := new InMemoryTransactionStore();
      ttlSecs := ttl;
    }

    /** `init_transaction`: an invalid query is refused before anything is stored. */
    method InitTransaction(
      alnum: char -> bool, id: string, state: string, nonce: string, now: int, query: Dcql.Query, clientId: string,
      responseUri: string, encrypted: bool)
      returns (r: Result<string, string>)
      modifies transactions
      ensures var before, after := old(transactions.inner), transactions.inner;
              && (r.Ok? <==> Dcql.Rules(alnum, query) &&
                             forall i :: i in before && before[i].id != id ==> before[i].state != state)
              && (r.Ok? ==>
                    && r.value == id && id in after && after == before[id := after[id]]
                    && IsNewRow(after[id], id, state, nonce, now, ttlSecs, query, clientId, responseUri, encrypted))
              && (r.Err? ==> after == before)
    {
      var valid := Dcql.IsValid(alnum, query);
      if valid.Err? { return Err("Invalid dcql_query"); }
      var stored := transactions.Set(
        NewTransaction(id, state, nonce, now, ttlSecs, query, clientId, responseUri, encrypted));
      if stored.Err? { return Err(stored.error); }
      return Ok(id);
    }

    method HandleWalletResponse(r: Response) returns (ok: bool)
      requires Keyed(transactions.inner)
      modifies transactions
      ensures ok <==> HasState(old(transactions.inner), r.state)
      ensures transactions.inner == AfterUpdateByState(old(transactions.inner), r.state, tx => Receive(tx, r))
    {
      ok := transactions.UpdateByState(r.state, tx => Receive(tx, r));
    }

    method HandleWalletError(e: WalletError) returns (ok: bool)
      requires Keyed(transactions.inner)
      modifies transactions
      ensures ok <==> HasState(old(transactions.inner), StateOfError(e))
      ensures transactions.inner == AfterUpdateByState(old(transactions.inner), StateOfError(e), tx => Fail(tx, e))
    {
      ok := transactions.UpdateByState(StateOfError(e), tx => Fail(tx, e));
    }

    /** The clock is read twice: once by the expiry check, once for `expires_in`. */
    method GetTransactionStatus(id: string, now: int, later: int) returns (r: StatusResult)
      modifies transactions
      ensures transactions.inner == AfterIsExpired(old(transactions.inner), id, now)
      ensures r ==
              if IsExpired(old(transactions.inner), id, now) then EXPIRED
              else StatusOf(old(transactions.inner)[id], later)
    {
      var expired := transactions.CheckExpired(id, now);
      if expired { return EXPIRED; }
      var tx := transactions.Get(id);
      return StatusOf(tx.value, later);
    }

    method MarkTransactionVerified(id: string)
      modifies transactions
      ensures transactions.inner == AfterUpdate(old(transactions.inner), id, tx => MarkVerified(tx))
    {
      transactions.UpdateStatus(id, Verified);
      var f, g := (tx: Transaction) => tx.(status := Verified), (tx: Transaction) => MarkVerified(tx);
      assert id in old(transactions.inner) ==> f(old(transactions.inner)[id]) == g(old(transactions.inner)[id]);
    }

    method ConsumeTransactionByState(state: string) returns (removed: bool)
      requires Keyed(transactions.inner)
      modifies transactions
      ensures removed <==> HasState(old(transactions.inner), state)
      ensures transactions.inner == old(transactions.inner) -
              (if removed then {FindByState(old(transactions.inner), state).value.id} else {})
    {
      var tx := transactions.Find(state);
      if tx.None? { return false; }
      removed := transactions.Delete(tx.value.id);
    }
  }

  // ---------------------------------------------------------------- what a poll reports

  /** With one clock reading, a reported `expires_in` lies between 0 and the time to live; with a second,
      later reading it is still non-negative exactly until one second after expiry. */
  lemma {:induction false} ExpiresInBounded(tx: Transaction, ttlSecs: nat, now: int, later: int)
    requires tx.expiresAt == tx.createdAt + ttlSecs * MILLIS
    requires tx.createdAt <= now <= later && now <= tx.expiresAt
    requires StatusOf(tx, later).expiresIn.Some?
    ensures StatusOf(tx, later).expiresIn.value <= ttlSecs
    ensures StatusOf(tx, later).expiresIn.value >= 0 <==> later < tx.expiresAt + MILLIS
    ensures later == now ==> 0 <= StatusOf(tx, later).expiresIn.value
  {
  }

  /** Reported remaining times never grow. */
  lemma {:induction false} ExpiresInDecreases(tx: Transaction, later: Transaction, t1: int, t2: int)
    requires tx.expiresAt == later.expiresAt && t1 <= t2
    requires StatusOf(tx, t1).expiresIn.Some? && StatusOf(later, t2).expiresIn.Some?
    ensures StatusOf(later, t2).expiresIn.value <= StatusOf(tx, t1).expiresIn.value
  {
  }
}
