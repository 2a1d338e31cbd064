/** JSON values, and the byte order in which ordered maps keep their keys. */
module Json {
  import opened Prelude

  datatype Json =
    | JNull
    | JBool(v: bool)
    | JNumber(n: int)
    | JString(s: string)
    | JArray(items: seq<Json>)
    | JObject(fields: map<string, Json>)

  /** `value.get(key)`; only objects have fields. */
  function Field(v: Json, key: string): Option<Json> {
    if v.JObject? && key in v.fields then Some(v.fields[key]) else None
  }

  /** `value.get(key).and_then(as_str)`. */
  function StringField(v: Json, key: string): Option<string> {
    match Field(v, key)
    case Some(JString(s)) => Some(s)
    case _ => None
  }

  /** Lexicographic order on code units. */
  predicate Leq(a: string, b: string) {
    a == [] || (b != [] && (a[0] < b[0] || (a[0] == b[0] && Leq(a[1..], b[1..]))))
  }

  lemma {:induction false} LeqTotal(a: string, b: string)
    ensures Leq(a, b) || Leq(b, a)
    ensures Leq(a, b) && Leq(b, a) ==> a == b
  {
    if a != [] && b != [] && a[0] == b[0] {
      LeqTotal(a[1..], b[1..]);
      assert a == [a[0]] + a[1..] && b == [b[0]] + b[1..];
    }
  }

  lemma {:induction false} LeqTransitive(a: string, b: string, c: string)
    requires Leq(a, b) && Leq(b, c)
    ensures Leq(a, c)
  {
    if a != [] && a[0] == b[0] && b[0] == c[0] { LeqTransitive(a[1..], b[1..], c[1..]); }
  }

  lemma {:induction false} BelowAll(a: string, b: string, keys: set<string>)
    requires Leq(a, b) && forall k | k in keys :: Leq(b, k)
    ensures Leq(a, a) && forall k | k in keys :: Leq(a, k)
  {
    LeqTotal(a, a);
    forall k | k in keys ensures Leq(a, k) { LeqTransitive(a, b, k); }
  }

  /** The first key of an ordered map. */
  ghost function Least(keys: set<string>): (r: string)
    requires keys != {}
    ensures r in keys && forall k | k in keys :: Leq(r, k)
  {
    var k :| k in keys;
    LeqTotal(k, k);
    if keys == {k} then k
    else
      var m := Least(keys - {k});
      LeqTotal(k, m);
      if Leq(k, m) then BelowAll(k, m, keys - {k}); k else m
  }
}
