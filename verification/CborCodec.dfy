/** A concrete CBOR encoder and decoder (RFC 8949, section 3) for the values the credentials use:
    the shortest head on the way out, any head width on the way in, definite lengths. */
module CborCodec {
  import opened Prelude
  import opened BigEndian
  import opened Cbor

  // ---------------------------------------------------------------- heads

  /** Number of argument bytes following the initial byte. */
  function Width(n: nat): nat
    requires n < U64
  {
    if n < 24 then 0 else if n < 0x100 then 1 else if n < 0x1_0000 then 2 else if n < 0x1_0000_0000 then 4 else 8
  }

  /** The low five bits of the initial byte. */
  function Info(n: nat): (info: nat)
    requires n < U64
    ensures info < 28
  {
    var w := Width(n);
    if w == 0 then n else if w == 1 then 24 else if w == 2 then 25 else if w == 4 then 26 else 27
  }

  function Head(major: nat, n: nat): (b: Bytes)
    requires major < 8 && n < U64
    ensures b != []
  {
    [major * 32 + Info(n)] + ToBytes(n, Width(n))
  }

  /** The argument of the head at the front of `b`, and what follows the head. */
  function ReadHead(b: Bytes): (r: Option<(nat, nat, Bytes)>)
    ensures r.Some? ==> r.value.0 < 8 && r.value.1 < U64 && |r.value.2| < |b|
  {
    if b == [] then None
    else
      var major, info, rest := b[0] / 32, b[0] % 32, b[1..];
      if info < 24 then Some((major, info, rest))
      else if info > 27 then None
      else
        var w := if info == 24 then 1 else if info == 25 then 2 else if info == 26 then 4 else 8;
        if |rest| < w then None
        else
          FromBound(rest[..w]);
          PowersOf256();
          Some((major, FromBytes(rest[..w]), rest[w..]))
  }

  lemma PowersOf256()
    ensures Pow256(1) == 0x100 && Pow256(2) == 0x1_0000 && Pow256(4) == 0x1_0000_0000 && Pow256(8) == U64
  {
  }

  lemma {:induction false} WideHead(major: nat, n: nat, rest: Bytes)
    requires major < 8 && 24 <= n < U64
    ensures ReadHead([major * 32 + Info(n)] + (ToBytes(n, Width(n)) + rest)) == Some((major, n, rest))
  {
    var w := Width(n);
    var tail := ToBytes(n, w) + rest;
    PowersOf256();
    FromTo(n, w);
    assert ([major * 32 + Info(n)] + tail)[1..] == tail;
    assert tail[..w] == ToBytes(n, w) && tail[w..] == rest;
  }

  lemma {:induction false} ReadHeadOf(major: nat, n: nat, rest: Bytes)
    requires major < 8 && n < U64
    ensures ReadHead(Head(major, n) + rest) == Some((major, n, rest))
  {
    if n < 24 {
      assert (Head(major, n) + rest)[1..] == rest;
    } else {
      WideHead(major, n, rest);
      assert Head(major, n) + rest == [major * 32 + Info(n)] + (ToBytes(n, Width(n)) + rest);
    }
  }

  // ---------------------------------------------------------------- encoder

  function Encode(v: Value): (b: Bytes)
    requires Encodable(v)
    ensures b != []
    decreases v, 0
  {
    match v
    case Integer(i) => if i >= 0 then Head(0, i) else Head(1, -1 - i)
    case Bytes(b) => Head(2, |b|) + b
    case Text(t) => Head(3, |t|) + CodeUnits(t).value
    case Array(items) => Head(4, |items|) + EncodeItems(items)
    case Map(entries) => Head(5, |entries|) + EncodeEntries(entries)
    case Tag(tag, inner) => Head(6, tag) + Encode(inner)
    case Bool(x) => if x then [0xF5] else [0xF4]
    case Null => [0xF6]
  }

  function EncodeItems(items: seq<Value>): Bytes
    requires forall x | x in items :: Encodable(x)
    decreases items, 1
  {
    if items == [] then [] else Encode(items[0]) + EncodeItems(items[1..])
  }

  function EncodeEntries(entries: Entries): Bytes
    requires forall e | e in entries :: Encodable(e.0) && Encodable(e.1)
    decreases entries, 1
  {
    if entries == [] then [] else EncodeEntry(entries[0]) + EncodeEntries(entries[1..])
  }

  function EncodeEntry(e: (Value, Value)): Bytes
    requires Encodable(e.0) && Encodable(e.1)
    decreases e, 1
  {
    Encode(e.0) + Encode(e.1)
  }

  // ---------------------------------------------------------------- decoder

  function TextOf(b: Bytes): (t: string)
    ensures |t| == |b| && CodeUnits(t) == Some(b)
  {
    var t := seq(|b|, i requires 0 <= i < |b| => b[i] as char);
    assert CodeUnits(t).value == b;
    t
  }

  /** One value from the front of `b`, and the unread rest. */
  function Decode(b: Bytes): (r: Option<(Value, Bytes)>)
    ensures r.Some? ==> |r.value.1| < |b| && Encodable(r.value.0)
    decreases |b|, 0
  {
    match ReadHead(b)
    case None => None
    case Some((major, n, rest)) => DecodeBody(major, n, b[0], rest)
  }

  /** The value whose head has been read. */
  function DecodeBody(major: nat, n: nat, initial: byte, rest: Bytes): (r: Option<(Value, Bytes)>)
    requires n < U64
    ensures r.Some? ==> |r.value.1| <= |rest| && Encodable(r.value.0)
    decreases |rest|, 2
  {
    match major
    case 0 => Some((Integer(n), rest))
    case 1 => Some((Integer(-1 - n), rest))
    case 2 => if n <= |rest| then Some((Bytes(rest[..n]), rest[n..])) else None
    case 3 =>
      if n <= |rest| && ValidUtf8(rest[..n]) then Some((Text(TextOf(rest[..n])), rest[n..])) else None
    case 4 =>
      (match DecodeItems(n, rest)
       case None => None
       case Some((items, left)) => Some((Array(items), left)))
    case 5 =>
      (match DecodeEntries(n, rest)
       case None => None
       case Some((entries, left)) => Some((Map(entries), left)))
    case 6 =>
      (match Decode(rest)
       case None => None
       case Some((inner, left)) => if n == 2 || n == 3 then None else Some((Tag(n, inner), left)))
    case _ =>
      if initial == 0xF4 then Some((Bool(false), rest))
      else if initial == 0xF5 then Some((Bool(true), rest))
      else if initial == 0xF6 then Some((Null, rest))
      else None
  }

  function DecodeItems(n: nat, b: Bytes): (r: Option<(seq<Value>, Bytes)>)
    ensures r.Some? ==> |r.value.1| <= |b| && |r.value.0| == n && forall x | x in r.value.0 :: Encodable(x)
    decreases |b|, 1
  {
    if n == 0 then Some(([], b))
    else
      match Decode(b)
      case None => None
      case Some((first, left)) =>
        match DecodeItems(n - 1, left)
        case None => None
        case Some((others, end)) => Some(([first] + others, end))
  }

  function DecodeEntries(n: nat, b: Bytes): (r: Option<(Entries, Bytes)>)
    ensures r.Some? ==>
      |r.value.1| <= |b| && |r.value.0| == n && forall e | e in r.value.0 :: Encodable(e.0) && Encodable(e.1)
    decreases |b|, 1
  {
    if n == 0 then Some(([], b))
    else
      match Decode(b)
      case None => None
      case Some((key, afterKey)) =>
        match Decode(afterKey)
        case None => None
        case Some((value, left)) =>
          match DecodeEntries(n - 1, left)
          case None => None
          case Some((others, end)) => Some(([(key, value)] + others, end))
  }

  /** `from_reader`: the first value; whatever follows it is ignored. */
  function FromReader(b: Bytes): Option<Value> {
    match Decode(b)
    case None => None
    case Some((v, _)) => Some(v)
  }

  // ---------------------------------------------------------------- round trip

  /** Decoding a head followed by a body is decoding the body. */
  lemma {:induction false} DecodeAfterHead(major: nat, n: nat, body: Bytes, rest: Bytes)
    requires major < 7 && n < U64
    ensures Decode(Head(major, n) + body + rest) == DecodeBody(major, n, Head(major, n)[0], body + rest)
  {
    ReadHeadOf(major, n, body + rest);
    assert Head(major, n) + body + rest == Head(major, n) + (body + rest);
    assert (Head(major, n) + (body + rest))[0] == Head(major, n)[0];
  }

  lemma {:induction false} DecodeStrings(v: Value, rest: Bytes)
    requires Encodable(v) && (v.Bytes? || v.Text?)
    ensures Decode(Encode(v) + rest) == Some((v, rest))
  {
    var body := if v.Bytes? then v.b else CodeUnits(v.t).value;
    DecodeAfterHead(if v.Bytes? then 2 else 3, |body|, body, rest);
    assert (body + rest)[..|body|] == body && (body + rest)[|body|..] == rest;
    assert v.Text? ==> TextOf(body) == v.t;
  }

  lemma {:induction false} DecodeAtoms(v: Value, rest: Bytes)
    requires Encodable(v) && (v.Integer? || v.Bool? || v.Null?)
    ensures Decode(Encode(v) + rest) == Some((v, rest))
  {
    if v.Integer? {
      var major, n := if v.i >= 0 then 0 else 1, if v.i >= 0 then v.i else -1 - v.i;
      DecodeAfterHead(major, n, [], rest);
      assert Head(major, n) + [] == Head(major, n) && [] + rest == rest;
    } else {
      assert (Encode(v) + rest)[1..] == rest;
    }
  }

  lemma {:induction false} DecodeEncode(v: Value, rest: Bytes)
    requires Encodable(v)
    ensures Decode(Encode(v) + rest) == Some((v, rest))
    decreases v, 0
  {
    match v
    case Array(items) =>
      DecodeAfterHead(4, |items|, EncodeItems(items), rest);
      DecodeEncodeItems(items, rest);
    case Map(entries) =>
      DecodeAfterHead(5, |entries|, EncodeEntries(entries), rest);
      DecodeEncodeEntries(entries, rest);
    case Tag(tag, inner) =>
      DecodeAfterHead(6, tag, Encode(inner), rest);
      DecodeEncode(inner, rest);
    case Bytes(_) => DecodeStrings(v, rest);
    case Text(_) => DecodeStrings(v, rest);
    case _ => DecodeAtoms(v, rest);
  }

  lemma {:induction false} DecodeOneMoreItem(b: Bytes, v: Value, left: Bytes, others: seq<Value>, end: Bytes)
    requires Decode(b) == Some((v, left)) && DecodeItems(|others|, left) == Some((others, end))
    ensures DecodeItems(|others| + 1, b) == Some(([v] + others, end))
  {
  }

  lemma {:induction false} DecodeFirstItem(first: Value, others: seq<Value>, rest: Bytes)
    requires Encodable(first) && forall x | x in others :: Encodable(x)
    requires Decode(Encode(first) + (EncodeItems(others) + rest)) == Some((first, EncodeItems(others) + rest))
    requires DecodeItems(|others|, EncodeItems(others) + rest) == Some((others, rest))
    ensures DecodeItems(|others| + 1, EncodeItems([first] + others) + rest) == Some(([first] + others, rest))
  {
    DecodeOneMoreItem(Encode(first) + (EncodeItems(others) + rest), first, EncodeItems(others) + rest, others, rest);
    FirstItemFirst(first, others, rest);
  }

  lemma {:induction false} FirstItemFirst(first: Value, others: seq<Value>, rest: Bytes)
    requires Encodable(first) && forall x | x in others :: Encodable(x)
    ensures EncodeItems([first] + others) + rest == Encode(first) + (EncodeItems(others) + rest)
  {
    assert ([first] + others)[1..] == others;
    Associates(Encode(first), EncodeItems(others), rest);
  }

  lemma Associates(a: Bytes, b: Bytes, c: Bytes)
    ensures a + b + c == a + (b + c)
  {
  }

  lemma {:induction false} DecodeEncodeItems(items: seq<Value>, rest: Bytes)
    requires forall x | x in items :: Encodable(x)
    ensures DecodeItems(|items|, EncodeItems(items) + rest) == Some((items, rest))
    decreases items, 1
  {
    if items == [] {
      assert EncodeItems(items) + rest == rest;
    } else {
      DecodeEncode(items[0], EncodeItems(items[1..]) + rest);
      DecodeEncodeItems(items[1..], rest);
      DecodeFirstItem(items[0], items[1..], rest);
      assert [items[0]] + items[1..] == items;
    }
  }

  lemma {:induction false} DecodeEncodeEntry(e: (Value, Value), rest: Bytes)
    requires Encodable(e.0) && Encodable(e.1)
    ensures Decode(EncodeEntry(e) + rest) == Some((e.0, Encode(e.1) + rest))
    ensures Decode(Encode(e.1) + rest) == Some((e.1, rest))
    decreases e, 1
  {
    assert EncodeEntry(e) + rest == Encode(e.0) + (Encode(e.1) + rest);
    DecodeEncode(e.0, Encode(e.1) + rest);
    DecodeEncode(e.1, rest);
  }

  lemma {:induction false} DecodeEncodeEntries(entries: Entries, rest: Bytes)
    requires forall e | e in entries :: Encodable(e.0) && Encodable(e.1)
    ensures DecodeEntries(|entries|, EncodeEntries(entries) + rest) == Some((entries, rest))
    decreases entries, 1
  {
    if entries == [] {
      assert EncodeEntries(entries) + rest == rest;
    } else {
      var e, tail := entries[0], EncodeEntries(entries[1..]) + rest;
      assert e in entries;
      assert EncodeEntries(entries) + rest == EncodeEntry(e) + tail;
      DecodeEncodeEntry(e, tail);
      DecodeEncodeEntries(entries[1..], rest);
      assert [(e.0, e.1)] + entries[1..] == entries;
    }
  }

  /** Reading undoes writing, whatever bytes follow. */
  lemma {:induction false} RoundTrip(v: Value, trailing: Bytes)
    requires Encodable(v)
    ensures FromReader(Encode(v) + trailing) == Some(v)
  {
    DecodeEncode(v, trailing);
  }

  /** The encoding is prefix-free: different values differ before either ends. */
  lemma {:induction false} EncodeInjective(v: Value, w: Value, x: Bytes, y: Bytes)
    requires Encodable(v) && Encodable(w)
    requires Encode(v) + x == Encode(w) + y
    ensures v == w && x == y
  {
    DecodeEncode(v, x);
    DecodeEncode(w, y);
  }

  /** Encodings listed in Appendix A of RFC 8949: integers. */
  lemma Rfc8949Integers()
    ensures Encode(Integer(0)) == [0x00] && Encode(Integer(23)) == [0x17] && Encode(Integer(24)) == [0x18, 0x18]
    ensures Encode(Integer(1000)) == [0x19, 0x03, 0xe8]
    ensures Encode(Integer(-1)) == [0x20] && Encode(Integer(-100)) == [0x38, 0x63]
  {
  }

  lemma SplitLast(n: nat, k: nat, front: Bytes, last: byte)
    requires k > 0 && ToBytes(n / 256, k - 1) == front && n % 256 == last
    ensures ToBytes(n, k) == front + [last]
  {
  }

  lemma FourBytesOf(n: nat)
    requires n == 1000000
    ensures ToBytes(n, 4) == [0x00, 0x0f, 0x42, 0x40]
  {
    SplitLast(0, 1, [], 0);
    SplitLast(15, 2, [0], 0x0f);
    SplitLast(3906, 3, [0, 0x0f], 0x42);
    SplitLast(n, 4, [0, 0x0f, 0x42], 0x40);
  }

  lemma EightBytesOf(n: nat)
    requires n == 1000000000000
    ensures ToBytes(n, 8) == [0x00, 0x00, 0x00, 0xe8, 0xd4, 0xa5, 0x10, 0x00]
  {
    SplitLast(0, 1, [], 0);
    SplitLast(0, 2, [0], 0);
    SplitLast(0, 3, [0, 0], 0);
    SplitLast(232, 4, [0, 0, 0], 0xe8);
    SplitLast(59604, 5, [0, 0, 0, 0xe8], 0xd4);
    SplitLast(15258789, 6, [0, 0, 0, 0xe8, 0xd4], 0xa5);
    SplitLast(3906250000, 7, [0, 0, 0, 0xe8, 0xd4, 0xa5], 0x10);
    SplitLast(n, 8, [0, 0, 0, 0xe8, 0xd4, 0xa5, 0x10], 0x00);
  }

  /** Encodings listed in Appendix A of RFC 8949: integers of four and eight bytes. */
  lemma Rfc8949WideIntegers(million: nat, million2: nat)
    requires million == 1000000 && million2 == 1000000000000
    ensures Encode(Integer(million)) == [0x1a, 0x00, 0x0f, 0x42, 0x40]
    ensures Encode(Integer(million2)) == [0x1b, 0x00, 0x00, 0x00, 0xe8, 0xd4, 0xa5, 0x10, 0x00]
  {
    FourBytesOf(million);
    EightBytesOf(million2);
  }

  /** Encodings listed in Appendix A of RFC 8949: simple values, strings and tags. */
  lemma Rfc8949Atoms()
    ensures Encode(Bool(false)) == [0xf4] && Encode(Bool(true)) == [0xf5] && Encode(Null) == [0xf6]
    ensures Encode(Bytes([1, 2, 3, 4])) == [0x44, 1, 2, 3, 4]
    ensures Encode(Tag(24, Bytes([0x64]))) == [0xd8, 0x18, 0x41, 0x64]
  {
  }

  /** Encodings listed in Appendix A of RFC 8949: containers. */
  lemma Rfc8949Containers()
    ensures Encode(Array([])) == [0x80] && Encode(Map([])) == [0xa0]
    ensures Encode(Map([(Integer(1), Integer(-7))])) == [0xa1, 0x01, 0x26]
  {
  }
}
