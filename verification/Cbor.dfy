/** CBOR values (RFC 8949) and the navigation helpers the credential code uses on them. */
module Cbor {
  import opened Prelude

  /** Text holds UTF-8 code units, one per `char`, so an ASCII literal is its own encoding. */
  datatype Value =
    | Integer(i: int)
    | Bytes(b: Bytes)
    | Text(t: string)
    | Bool(v: bool)
    | Null
    | Float(bits: nat)
    | Array(items: seq<Value>)
    | Map(entries: seq<(Value, Value)>)
    | Tag(tag: nat, inner: Value)

  type Entries = seq<(Value, Value)>

  /** `unwrap_cbor_tags`: the value below any number of tags. */
  function Untag(v: Value): (r: Value)
    ensures !r.Tag?
    ensures !v.Tag? ==> r == v
  {
    match v
    case Tag(_, inner) => Untag(inner)
    case _ => v
  }

  function AsMap(v: Value): Option<Entries> {
    if v.Map? then Some(v.entries) else None
  }

  function AsArray(v: Value): Option<seq<Value>> {
    if v.Array? then Some(v.items) else None
  }

  /** `cbor_map_get`: the first entry with this text key. */
  function Get(entries: Entries, key: string): Option<Value> {
    if entries == [] then None
    else if entries[0].0 == Text(key) then Some(entries[0].1)
    else Get(entries[1..], key)
  }

  /** The first entry with this integer label, as COSE headers and keys are looked up. */
  function GetLabel(entries: Entries, number: int): Option<Value> {
    if entries == [] then None
    else if entries[0].0 == Integer(number) then Some(entries[0].1)
    else GetLabel(entries[1..], number)
  }

  function AsText(v: Value): Option<string> {
    var u := Untag(v);
    if u.Text? then Some(u.t) else None
  }

  function GetText(entries: Entries, key: string): Option<string> {
    match Get(entries, key)
    case None => None
    case Some(v) => AsText(v)
  }

  const U64: nat := 0x1_0000_0000_0000_0000

  /** `cbor_integer_to_u64`: an integer, possibly tagged, that fits 64 unsigned bits. */
  function AsU64(v: Value): Option<nat> {
    var u := Untag(v);
    if u.Integer? && 0 <= u.i < U64 then Some(u.i) else None
  }

  /** A key found nowhere before position `i` is looked up there. */
  lemma {:induction false} GetAt(entries: Entries, key: string, i: nat)
    requires i < |entries| && entries[i].0 == Text(key)
    requires forall j :: 0 <= j < i ==> entries[j].0 != Text(key)
    ensures Get(entries, key) == Some(entries[i].1)
  {
    if i > 0 { GetAt(entries[1..], key, i - 1); }
  }

  lemma {:induction false} GetLabelAt(entries: Entries, number: int, i: nat)
    requires i < |entries| && entries[i].0 == Integer(number)
    requires forall j :: 0 <= j < i ==> entries[j].0 != Integer(number)
    ensures GetLabel(entries, number) == Some(entries[i].1)
  {
    if i > 0 { GetLabelAt(entries[1..], number, i - 1); }
  }

  lemma {:induction false} GetIsMember(entries: Entries, key: string)
    requires Get(entries, key).Some?
    ensures (Text(key), Get(entries, key).value) in entries
  {
    if entries[0].0 != Text(key) { GetIsMember(entries[1..], key); }
    else { assert entries[0] == (Text(key), Get(entries, key).value); }
  }

  // ---------------------------------------------------------------- encodable values

  /** Byte `b` continues a multi-byte UTF-8 character. */
  predicate Continues(b: byte) { 0x80 <= b < 0xC0 }

  /** Length of the UTF-8 character at the front of `s`, 0 if there is none (RFC 3629, section 4). */
  function Utf8Front(s: Bytes): (n: nat)
    ensures n <= |s|
  {
    if s == [] then 0
    else if s[0] < 0x80 then 1
    else if |s| >= 2 && 0xC2 <= s[0] <= 0xDF && Continues(s[1]) then 2
    else if |s| >= 3 && 0xE0 <= s[0] <= 0xEF && Continues(s[1]) && Continues(s[2]) &&
            (s[0] == 0xE0 ==> s[1] >= 0xA0) && (s[0] == 0xED ==> s[1] < 0xA0) then 3
    else if |s| >= 4 && 0xF0 <= s[0] <= 0xF4 && Continues(s[1]) && Continues(s[2]) && Continues(s[3]) &&
            (s[0] == 0xF0 ==> s[1] >= 0x90) && (s[0] == 0xF4 ==> s[1] < 0x90) then 4
    else 0
  }

  predicate ValidUtf8(s: Bytes) {
    s == [] || (Utf8Front(s) > 0 && ValidUtf8(s[Utf8Front(s)..]))
  }

  function CodeUnits(t: string): (b: Option<Bytes>)
    ensures b.Some? ==> |b.value| == |t| && forall i :: 0 <= i < |t| ==> b.value[i] == t[i] as int
  {
    if forall i :: 0 <= i < |t| ==> t[i] as int < 256 then
      Some(seq(|t|, i requires 0 <= i < |t| && t[i] as int < 256 => t[i] as int))
    else None
  }

  predicate IsText(t: string) {
    |t| < U64 && CodeUnits(t).Some? && ValidUtf8(CodeUnits(t).value)
  }

  /** Values with a definite-length encoding: 64-bit integers and lengths, UTF-8 text, no floats and
      no bignum tags. */
  predicate Encodable(v: Value) {
    match v
    case Integer(i) => 0 - U64 <= i < U64
    case Bytes(b) => |b| < U64
    case Text(t) => IsText(t)
    case Bool(_) => true
    case Null => true
    case Float(_) => false
    case Array(items) => |items| < U64 && forall x | x in items :: Encodable(x)
    case Map(entries) => |entries| < U64 && forall e | e in entries :: Encodable(e.0) && Encodable(e.1)
    case Tag(tag, inner) => tag < U64 && tag != 2 && tag != 3 && Encodable(inner)
  }
}
