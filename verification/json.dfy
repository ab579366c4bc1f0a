/** The loosely typed JSON values the tileset and manifest code probes with
    `isinstance` and `dict.get`. */
module Json {
  import opened Wrappers

  datatype Json =
    | JNull
    | JBool(b: bool)
    | JNum(n: real)
    | JStr(s: string)
    | JArr(items: seq<Json>)
    | JObj(members: seq<Member>)

  datatype Member = Member(key: string, value: Json)

  /** The value stored under `key` among `ms`: the LAST member with that key
      wins, as when a decoder keeps the final duplicate; a missing key reads as
      null, which is also what `dict.get` returns for it. */
  function Lookup(ms: seq<Member>, key: string): (r: Json)
    ensures r != JNull ==> Member(key, r) in ms
    ensures (forall i :: 0 <= i < |ms| ==> ms[i].key != key) ==> r == JNull
    ensures |ms| > 0 && ms[|ms| - 1].key == key ==> r == ms[|ms| - 1].value
    decreases |ms|
  {
    if |ms| == 0 then JNull
    else if ms[|ms| - 1].key == key then ms[|ms| - 1].value
    else Lookup(ms[..|ms| - 1], key)
  }

  /** `obj.get(key)` on a JSON object. */
  function Get(j: Json, key: string): Json
    requires j.JObj?
  {
    Lookup(j.members, key)
  }

  /** Python truthiness of a decoded JSON value. */
  predicate Truthy(j: Json) {
    match j
    case JNull => false
    case JBool(b) => b
    case JNum(n) => n != 0.0
    case JStr(s) => s != ""
    case JArr(items) => items != []
    case JObj(ms) => ms != []
  }

  /** Python's `a or b`. */
  function Or(a: Json, b: Json): Json {
    if Truthy(a) then a else b
  }

  /** `float(v)` on a decoded JSON value: numbers, and booleans as 1.0 / 0.0. */
  function ToReal(j: Json): Option<real> {
    match j
    case JNum(n) => Some(n)
    case JBool(b) => Some(if b then 1.0 else 0.0)
    case _ => None
  }

  /** `[float(v) for v in items]`, failing on the first element that does not convert. */
  function ToReals(items: seq<Json>): (r: Option<seq<real>>)
    ensures r.Some? <==> forall i :: 0 <= i < |items| ==> ToReal(items[i]).Some?
    ensures r.Some? ==> |r.value| == |items|
    ensures r.Some? ==> forall i :: 0 <= i < |items| ==> Some(r.value[i]) == ToReal(items[i])
    decreases |items|
  {
    if |items| == 0 then Some([])
    else
      match ToReal(items[0])
      case None => None
      case Some(x) =>
        match ToReals(items[1..])
        case None => None
        case Some(xs) => Some([x] + xs)
  }

  /** A list of exactly `n` numbers, as the code's `isinstance(v, list) and len(v) == n` followed by `float()`. */
  predicate IsListOfLength(j: Json, n: nat) {
    j.JArr? && |j.items| == n
  }

  /** Number of nodes of a JSON value: the measure that makes tree walks terminate. */
  function Size(j: Json): nat
    decreases j, 1
  {
    match j
    case JArr(items) => 1 + SizeSeq(items)
    case JObj(ms) => 1 + SizeMembers(ms)
    case _ => 1
  }

  function SizeSeq(items: seq<Json>): nat
    decreases items, 0
  {
    if |items| == 0 then 0 else Size(items[0]) + SizeSeq(items[1..])
  }

  function SizeMembers(ms: seq<Member>): nat
    decreases ms, 0
  {
    if |ms| == 0 then 0 else Size(ms[0].value) + SizeMembers(ms[1..])
  }

  lemma {:induction false} SizeMembersSplit(ms: seq<Member>)
    requires |ms| > 0
    ensures SizeMembers(ms) == SizeMembers(ms[..|ms| - 1]) + Size(ms[|ms| - 1].value)
    decreases |ms|
  {
    if |ms| > 1 {
      SizeMembersSplit(ms[1..]);
      assert ms[1..][..|ms[1..]| - 1] == ms[..|ms| - 1][1..];
    }
  }

  /** A looked-up value is never larger than the members it came from. */
  lemma {:induction false} LookupSmaller(ms: seq<Member>, key: string)
    ensures Size(Lookup(ms, key)) <= SizeMembers(ms) || Lookup(ms, key) == JNull
    decreases |ms|
  {
    if |ms| > 0 {
      SizeMembersSplit(ms);
      if ms[|ms| - 1].key != key {
        LookupSmaller(ms[..|ms| - 1], key);
      }
    }
  }

  /** Any member value of an object is strictly smaller than the object. */
  lemma GetSmaller(j: Json, key: string)
    requires j.JObj?
    ensures Size(Get(j, key)) < Size(j) || Get(j, key) == JNull
  {
    LookupSmaller(j.members, key);
  }

  /** A list written as plain numbers converts to exactly those numbers. */
  lemma ToRealsOfNumbers(items: seq<Json>, v: seq<real>)
    requires |items| == |v| && forall i :: 0 <= i < |items| ==> items[i] == JNum(v[i])
    ensures ToReals(items) == Some(v)
  {
    var r := ToReals(items);
    assert forall i :: 0 <= i < |items| ==> ToReal(items[i]) == Some(v[i]);
    assert r.value == v;
  }
}
