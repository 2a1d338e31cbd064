/** The libraries the mDoc code calls, as parameters, and the data it reads out of CBOR with them.

    Nothing is assumed about a `Library` here: what holds of every library holds whatever the CBOR
    reader, the certificates or the signature scheme do. */
module MdocLibrary {
  import opened Prelude
  import opened Cbor
  import opened Json

  type PublicKey = Bytes

  datatype HashAlgorithm = Sha256 | Sha384 | Sha512

  datatype Library = Library(
    write: Value -> Bytes,
    read: Bytes -> Option<Value>,
    readWhole: Bytes -> Option<Value>,
    hash: (HashAlgorithm, Bytes) -> Bytes,
    toBase64Url: Bytes -> string,
    fromUrlNoPad: string -> Option<Bytes>,
    fromUrlPadded: string -> Option<Bytes>,
    fromStandard: string -> Option<Bytes>,
    headerParses: Entries -> bool,
    keyParses: Entries -> bool,
    chain: seq<Bytes> -> Option<(PublicKey, bool)>,
    point: (int, Bytes, Bytes) -> Option<PublicKey>,
    ecdsa: (PublicKey, int, Bytes, Bytes) -> bool,
    rsa: (PublicKey, int, Bytes, Bytes) -> bool,
    rfc3339: string -> Option<int>,
    floatToJson: nat -> Json,
    debug: Value -> string)

  /** base64url without padding, then with padding, then standard base64. */
  function FromBase64(lib: Library, s: string): Option<Bytes> {
    if lib.fromUrlNoPad(s).Some? then lib.fromUrlNoPad(s)
    else if lib.fromUrlPadded(s).Some? then lib.fromUrlPadded(s)
    else lib.fromStandard(s)
  }

  // ---------------------------------------------------------------- claims as JSON

  function Digits(n: nat): string {
    (if n >= 10 then Digits(n / 10) else "") + [('0' as int + n % 10) as char]
  }

  function Decimal(n: int): string {
    if n < 0 then "-" + Digits(-n) else Digits(n)
  }

  /** `cbor_to_json`: tags vanish, bytes become base64url, integers outside 64 bits become text. */
  function ToJson(lib: Library, v: Value): Json
    decreases v, 0
  {
    match v
    case Bool(b) => JBool(b)
    case Integer(i) => if -0x8000_0000_0000_0000 <= i < U64 then JNumber(i) else JString(Decimal(i))
    case Float(bits) => lib.floatToJson(bits)
    case Text(t) => JString(t)
    case Bytes(b) => JString(lib.toBase64Url(b))
    case Array(items) => JArray(seq(|items|, i requires 0 <= i < |items| => ToJson(lib, items[i])))
    case Map(entries) => JObject(ToFields(lib, entries))
    case Tag(_, inner) => ToJson(lib, inner)
    case Null => JNull
  }

  /** Object fields in entry order: a later entry replaces an earlier one with the same key. */
  function ToFields(lib: Library, entries: Entries): map<string, Json>
    decreases entries, 1
  {
    if entries == [] then map[]
    else
      var n := |entries| - 1;
      ToFields(lib, entries[..n])[FieldName(lib, entries[n].0) := EntryToJson(lib, entries[n])]
  }

  function EntryToJson(lib: Library, e: (Value, Value)): Json
    decreases e, 1
  {
    ToJson(lib, e.1)
  }

  function FieldName(lib: Library, key: Value): string {
    match key
    case Text(t) => t
    case Integer(i) => Decimal(i)
    case _ => lib.debug(key)
  }

  /** Tags leave no trace in the JSON a relying party receives. */
  lemma {:induction false} JsonIgnoresTags(lib: Library, v: Value)
    ensures ToJson(lib, Untag(v)) == ToJson(lib, v)
  {
    if v.Tag? { JsonIgnoresTags(lib, v.inner); }
  }

  /** The number a decimal string stands for. */
  function NumberOf(s: string): int {
    if s == "" then 0
    else if s[0] == '-' then -DigitsValue(s[1..])
    else DigitsValue(s)
  }

  function DigitsValue(s: string): int {
    if s == "" then 0 else 10 * DigitsValue(s[..|s| - 1]) + (s[|s| - 1] as int - '0' as int)
  }

  lemma {:induction false} DigitAppended(s: string, digit: nat)
    requires digit < 10
    ensures DigitsValue(s + [('0' as int + digit) as char]) == 10 * DigitsValue(s) + digit
  {
    var longer := s + [('0' as int + digit) as char];
    assert longer[..|longer| - 1] == s;
  }

  lemma {:induction false} DigitsAreDigits(n: nat)
    ensures Digits(n) != "" && forall i :: 0 <= i < |Digits(n)| ==> '0' <= Digits(n)[i] <= '9'
    ensures Digits(n)[0] == '0' <==> n == 0
    ensures n < 10 ==> |Digits(n)| == 1
  {
    if n >= 10 { DigitsAreDigits(n / 10); }
  }

  lemma {:induction false} DigitsRead(n: nat)
    ensures DigitsValue(Digits(n)) == n
  {
    if n >= 10 { DigitsRead(n / 10); }
    DigitAppended(if n >= 10 then Digits(n / 10) else "", n % 10);
  }

  /** Integers that do not fit 64 bits are handed over as their decimal text: a sign exactly for negative
      numbers, no leading zero, and the value of the digits is the number. */
  lemma {:induction false} DecimalReads(n: int)
    ensures NumberOf(Decimal(n)) == n
    ensures var digits := if n < 0 then Decimal(n)[1..] else Decimal(n);
            && (n < 0 <==> Decimal(n) != "" && Decimal(n)[0] == '-')
            && digits != "" && (forall i :: 0 <= i < |digits| ==> '0' <= digits[i] <= '9')
            && (digits[0] == '0' ==> digits == "0" && n == 0)
  {
    DigitsRead(if n < 0 then -n else n);
    DigitsAreDigits(if n < 0 then -n else n);
    if n < 0 { assert Decimal(n)[1..] == Digits(-n); }
  }

  /** The last entry with a field's name decides that field. */
  lemma {:induction false} LastFieldWins(lib: Library, entries: Entries, k: nat)
    requires k < |entries|
    requires forall j :: k < j < |entries| ==> FieldName(lib, entries[j].0) != FieldName(lib, entries[k].0)
    ensures FieldName(lib, entries[k].0) in ToFields(lib, entries)
    ensures ToFields(lib, entries)[FieldName(lib, entries[k].0)] == ToJson(lib, entries[k].1)
  {
    var n := |entries| - 1;
    if k < n {
      LastFieldWins(lib, entries[..n], k);
    }
  }
}
