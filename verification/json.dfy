/** Parsed JSON values and the few JavaScript operations the validator applies
    to them: truthiness (`!x`), property lookup, `.length`, and the keys a
    `for (prop in x)` loop visits. */
module Json {
  import opened Wrappers
  import opened Decimal

  /** A value as `JSON.parse` produces it. Numbers are kept exact as reals. */
  datatype Value =
    | JNull
    | JBool(b: bool)
    | JNum(x: real)
    | JStr(s: string)
    | JArr(items: seq<Value>)
    | JObj(fields: map<string, Value>)

  /** A plain object, such as one server entry after merging. */
  type Object = map<string, Value>

  /** JavaScript truthiness of a possibly-undefined JSON value: `undefined`,
      `null`, `false`, `0` and `""` are falsy; every array and every object,
      even an empty one, is truthy. */
  predicate Truthy(v: Option<Value>) {
    match v
    case None => false
    case Some(JNull) => false
    case Some(JBool(b)) => b
    case Some(JNum(x)) => x != 0.0
    case Some(JStr(s)) => s != ""
    case Some(JArr(_)) => true
    case Some(JObj(_)) => true
  }

  /** `obj.key`: the property's value, or undefined when it is absent. */
  function Get(obj: Object, key: string): Option<Value> {
    if key in obj then Some(obj[key]) else None
  }

  /** `v.length` for a possibly-undefined value. Reading a property of
      `undefined` or `null` throws in JavaScript; callers only ask after
      the value was found truthy. */
  function JsLength(v: Option<Value>): (r: Option<Value>)
    requires Truthy(v)
  {
    match v.value
    case JStr(s) => Some(JNum(|s| as real))
    case JArr(items) => Some(JNum(|items| as real))
    case JObj(fields) => Get(fields, "length")
    case _ => None
  }

  /** Converting `v` to a primitive for `+` throws a TypeError. Parsed JSON
      holds no functions, so an object with an own `toString` key has no
      callable way to become a primitive: that key hides the inherited
      method, and the inherited `valueOf` returns the object itself. An array
      becomes the `join` of its elements, which converts each one in turn.
      Every other value, and every other object, converts. */
  predicate ConversionThrows(v: Value) {
    match v
    case JObj(fields) => "toString" in fields
    case JArr(items) => exists i :: 0 <= i < |items| && ConversionThrows(items[i])
    case _ => false
  }

  /** The (key, value) pairs a `for (prop in v)` loop visits, reading
      `v[prop]` for each key: an object's own properties, an array's or a
      string's indices written in decimal, and nothing for `undefined`,
      `null`, booleans and numbers. */
  function Enumerable(v: Option<Value>): Object {
    match v
    case None => map[]
    case Some(JObj(fields)) => fields
    case Some(JArr(items)) => IndexMap(items)
    case Some(JStr(s)) => IndexMap(seq(|s|, i requires 0 <= i < |s| => JStr([s[i]])))
    case Some(_) => map[]
  }

  /** What `for (prop in v)` visits, case by case: an array or a string
      yields one distinct key per index, so the loop runs `length` times. */
  lemma ForInVisits(v: Option<Value>)
    ensures v.Some? && v.value.JObj? ==> Enumerable(v) == v.value.fields
    ensures v.Some? && v.value.JArr? ==>
      (forall i :: 0 <= i < |v.value.items| ==>
        DecimalString(i) in Enumerable(v) && Enumerable(v)[DecimalString(i)] == v.value.items[i]) &&
      (forall k :: k in Enumerable(v) ==> exists i :: 0 <= i < |v.value.items| && k == DecimalString(i)) &&
      |Enumerable(v)| == |v.value.items|
    ensures v.Some? && v.value.JStr? ==>
      (forall i :: 0 <= i < |v.value.s| ==>
        DecimalString(i) in Enumerable(v) && Enumerable(v)[DecimalString(i)] == JStr([v.value.s[i]])) &&
      (forall k :: k in Enumerable(v) ==> exists i :: 0 <= i < |v.value.s| && k == DecimalString(i)) &&
      |Enumerable(v)| == |v.value.s|
    ensures v.None? || v.value.JNull? || v.value.JBool? || v.value.JNum? ==> Enumerable(v) == map[]
  {
    match v
    case Some(JArr(items)) => IndexMapSize(items);
    case Some(JStr(s)) => IndexMapSize(seq(|s|, i requires 0 <= i < |s| => JStr([s[i]])));
    case _ =>
  }

  /** An index map has one entry per element: no two indices share a key. */
  lemma IndexMapSize(items: seq<Value>)
    ensures |IndexMap(items)| == |items|
  {
    var m := IndexMap(items);
    forall k | k in m
      ensures IndexKey(k, |items|)
    {
      var i :| 0 <= i < |items| && k == DecimalString(i);
    }
    CountIndexKeys(m, |items|);
  }

  /** `k` renders one of the indices `0 .. n-1`. */
  ghost predicate IndexKey(k: string, n: nat) {
    exists i: nat :: i < n && k == DecimalString(i)
  }

  /** A map whose keys are exactly the renderings of `0 .. n-1` has `n` entries. */
  lemma {:induction false} CountIndexKeys(m: Object, n: nat)
    requires forall i :: 0 <= i < n ==> DecimalString(i) in m
    requires forall k :: k in m ==> IndexKey(k, n)
    ensures |m| == n
  {
    if n == 0 {
      assert m.Keys == {};
    } else {
      var key := DecimalString(n - 1);
      var p := m - {key};
      forall k | k in p
        ensures IndexKey(k, n - 1)
      {
        assert IndexKey(k, n);
        var i: nat :| i < n && k == DecimalString(i);
        assert i != n - 1;
      }
      forall i | 0 <= i < n - 1
        ensures DecimalString(i) in p
      {
        DecimalInjective(i, n - 1);
      }
      CountIndexKeys(p, n - 1);
      assert m.Keys == p.Keys + {key};
    }
  }

  /** An array's elements keyed by their decimal indices. */
  function IndexMap(items: seq<Value>): (r: Object)
    ensures forall i :: 0 <= i < |items| ==> DecimalString(i) in r && r[DecimalString(i)] == items[i]
    ensures forall k :: k in r ==> exists i :: 0 <= i < |items| && k == DecimalString(i)
  {
    forall i, j | 0 <= i < |items| && 0 <= j < |items| && DecimalString(i) == DecimalString(j)
      ensures i == j
    {
      DecimalInjective(i, j);
    }
    map i | 0 <= i < |items| :: DecimalString(i) := items[i]
  }
}
