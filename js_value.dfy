/** The JavaScript values that reach the core: parsed JSON documents and the
    result of reading a property of one (which may be `undefined`).
    Shared by the discovery, transfer and UI modules. */
module JsValue {

  /** A JSON value as `JSON.parse` produces it. Numbers are integers here. */
  datatype Json =
    | JNull
    | JBool(b: bool)
    | JNum(n: int)
    | JStr(s: string)
    | JArr(items: seq<Json>)
    | JObj(fields: map<string, Json>)

  /** The result of reading a property: `undefined` or a value. */
  datatype Prop = Undefined | Val(v: Json)

  datatype Option<T> = None | Some(value: T)

  /** A JS object built by spreads and literals, as the UI keeps records. */
  type Record = map<string, Json>

  /** `v.key` for a non-null value: only objects have the JSON keys read here. */
  function Get(v: Json, key: string): (r: Prop)
    ensures r != Undefined <==> v.JObj? && key in v.fields
    ensures v.JObj? && key in v.fields ==> r == Val(v.fields[key])
  {
    match v
    case JObj(fields) => if key in fields then Val(fields[key]) else Undefined
    case _ => Undefined
  }

  /** `rec.key` on a UI record. */
  function Field(rec: Record, key: string): (r: Prop)
    ensures r == Undefined <==> key !in rec
    ensures key in rec ==> r == Val(rec[key])
  {
    if key in rec then Val(rec[key]) else Undefined
  }

  /** `null`, booleans, numbers and strings are primitives; arrays and objects are not. */
  predicate IsPrimitive(v: Json) {
    !v.JArr? && !v.JObj?
  }

  /** JavaScript truthiness of a JSON value. */
  predicate TruthyJson(v: Json) {
    match v
    case JNull => false
    case JBool(b) => b
    case JNum(n) => n != 0
    case JStr(s) => s != ""
    case JArr(_) => true
    case JObj(_) => true
  }

  /** JavaScript truthiness of a property read; `undefined` is falsy. */
  predicate Truthy(p: Prop) {
    p.Val? && TruthyJson(p.v)
  }

  /** `a === b` on values read from two different records. Arrays and
      objects compare by identity; every record reaches the core as its own
      fresh copy (a datagram, an IPC message), so objects read from two
      records are never identical. Reading the same property of one stored
      object twice is the exception: the device list handles that case
      itself. */
  predicate StrictEq(a: Prop, b: Prop) {
    match (a, b)
    case (Undefined, Undefined) => true
    case (Val(x), Val(y)) => IsPrimitive(x) && x == y
    case _ => false
  }

  /** The template literal `${v}` throws a `TypeError` on `v`: an object
      whose own `toString` key JSON could only set to a non-function (and
      whose inherited `valueOf` returns the object itself), or an array with
      such an element somewhere inside, since `join` converts every
      element. Primitives, and objects without their own `toString`, print. */
  predicate ToStringThrows(v: Json) {
    match v
    case JObj(fields) => "toString" in fields
    case JArr(items) => exists i | 0 <= i < |items| :: ToStringThrows(items[i])
    case _ => false
  }

  /** `${p}` for a property read; `undefined` prints as "undefined". */
  predicate PropToStringThrows(p: Prop) {
    p.Val? && ToStringThrows(p.v)
  }

  /** Which values a log line cannot print: `{"toString":0}` and an array
      holding it cannot; a plain object, an array of primitives and a
      string can. */
  lemma ToStringThrowsExamples()
    ensures ToStringThrows(JObj(map["toString" := JNum(0)]))
    ensures ToStringThrows(JArr([JNull, JArr([JObj(map["toString" := JNum(0)])])]))
    ensures !ToStringThrows(JObj(map["valueOf" := JNum(0)]))
    ensures !ToStringThrows(JArr([JNum(1), JStr("toString")]))
    ensures !PropToStringThrows(Undefined)
  {
    var inner := JArr([JObj(map["toString" := JNum(0)])]);
    assert ToStringThrows(inner.items[0]);
    var outer := JArr([JNull, inner]);
    assert ToStringThrows(outer.items[1]);
    var plain := JArr([JNum(1), JStr("toString")]);
    assert forall i | 0 <= i < |plain.items| :: !ToStringThrows(plain.items[i]);
  }

  /** `===` against a string literal is plain equality with that string. */
  lemma StrictEqString(a: Prop, s: string)
    ensures StrictEq(a, Val(JStr(s))) <==> a == Val(JStr(s))
  {
  }

  /** No element occurs twice. */
  predicate Distinct<T(==)>(s: seq<T>) {
    forall i, j | 0 <= i < j < |s| :: s[i] != s[j]
  }

  /** Appending a new element keeps a sequence free of repeats. */
  lemma DistinctAppend<T>(s: seq<T>, x: T)
    requires Distinct(s) && x !in s
    ensures Distinct(s + [x])
  {
    var t := s + [x];
    forall i, j | 0 <= i < j < |t| ensures t[i] != t[j] {
      if j == |s| {
        assert t[i] == s[i];
      }
    }
  }

  /** The keys of an object literal, written in order; a key written twice
      keeps the value written last. */
  function LiteralFields(pairs: seq<(string, Json)>): (m: map<string, Json>)
    ensures m.Keys == set i | 0 <= i < |pairs| :: pairs[i].0
  {
    if pairs == [] then map[]
    else
      var init := pairs[..|pairs| - 1];
      var last := pairs[|pairs| - 1];
      assert forall i | 0 <= i < |init| :: init[i] == pairs[i];
      LiteralFields(init)[last.0 := last.1]
  }

  /** The value a literal gives a key is the one in the last pair naming it. */
  lemma {:induction false} LiteralLastWins(pairs: seq<(string, Json)>, i: nat)
    requires i < |pairs|
    requires forall j | i < j < |pairs| :: pairs[j].0 != pairs[i].0
    ensures pairs[i].0 in LiteralFields(pairs)
    ensures LiteralFields(pairs)[pairs[i].0] == pairs[i].1
  {
    if i < |pairs| - 1 {
      var init := pairs[..|pairs| - 1];
      assert forall j | i < j < |init| :: init[j] == pairs[j];
      LiteralLastWins(init, i);
    }
  }

  /** `Array.prototype.filter`. */
  function Filter<T(!new)>(s: seq<T>, keep: T -> bool): (r: seq<T>)
    ensures |r| <= |s|
  {
    if s == [] then []
    else (if keep(s[0]) then [s[0]] else []) + Filter(s[1..], keep)
  }

  /** Filtering keeps exactly the elements that pass the test. */
  lemma {:induction false} FilterMembers<T(!new)>(s: seq<T>, keep: T -> bool)
    ensures forall x :: x in Filter(s, keep) <==> x in s && keep(x)
  {
    if s != [] {
      FilterMembers(s[1..], keep);
      assert forall x :: x in s <==> x == s[0] || x in s[1..];
    }
  }

  /** Filtering is done element by element, so it distributes over
      concatenation and keeps the relative order. */
  lemma {:induction false} FilterConcat<T(!new)>(a: seq<T>, b: seq<T>, keep: T -> bool)
    ensures Filter(a + b, keep) == Filter(a, keep) + Filter(b, keep)
  {
    if a == [] {
      assert a + b == b;
    } else {
      var tail := a[1..];
      var head := if keep(a[0]) then [a[0]] else [];
      assert a + b != [] && (a + b)[0] == a[0] && (a + b)[1..] == tail + b;
      FilterConcat(tail, b, keep);
      assert Filter(a + b, keep) == head + Filter(tail + b, keep);
      assert Filter(a, keep) == head + Filter(tail, keep);
      assert head + (Filter(tail, keep) + Filter(b, keep)) == (head + Filter(tail, keep)) + Filter(b, keep);
    }
  }

  /** Nothing is dropped when every element is kept. */
  lemma {:induction false} FilterKeepsAll<T(!new)>(s: seq<T>, keep: T -> bool)
    requires forall i | 0 <= i < |s| :: keep(s[i])
    ensures Filter(s, keep) == s
  {
    if s != [] {
      FilterKeepsAll(s[1..], keep);
    }
  }

  /** Two complementary filters split a list: every element lands in
      exactly one of them, as many times as it occurs. */
  lemma FilterPartition<T(!new)>(s: seq<T>, keep: T -> bool, other: T -> bool)
    requires forall x :: other(x) == !keep(x)
    ensures multiset(Filter(s, keep)) + multiset(Filter(s, other)) == multiset(s)
    ensures |Filter(s, keep)| + |Filter(s, other)| == |s|
  {
    FilterSplitsMultiset(s, keep, other);
    assert |multiset(Filter(s, keep)) + multiset(Filter(s, other))| == |multiset(s)|;
  }

  lemma {:induction false} FilterSplitsMultiset<T(!new)>(s: seq<T>, keep: T -> bool, other: T -> bool)
    requires forall x :: other(x) == !keep(x)
    ensures multiset(Filter(s, keep)) + multiset(Filter(s, other)) == multiset(s)
  {
    if s != [] {
      var tail := s[1..];
      var x := s[0];
      FilterSplitsMultiset(tail, keep, other);
      var rest := multiset(Filter(tail, keep)) + multiset(Filter(tail, other));
      assert rest == multiset(tail);
      assert s == [x] + tail;
      assert multiset(s) == multiset([x]) + multiset(tail);
      assert other(x) == !keep(x);
      if keep(x) {
        assert Filter(s, keep) == [x] + Filter(tail, keep);
        assert Filter(s, other) == Filter(tail, other);
        assert multiset(Filter(s, keep)) == multiset([x]) + multiset(Filter(tail, keep));
      } else {
        assert Filter(s, keep) == Filter(tail, keep);
        assert Filter(s, other) == [x] + Filter(tail, other);
        assert multiset(Filter(s, other)) == multiset([x]) + multiset(Filter(tail, other));
      }
    }
  }
}
