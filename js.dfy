/** The JavaScript values the exception filter and the response interceptor
    inspect: truthiness, `typeof … === 'object'`, property lookup, the `in`
    operator, object spread with an overriding key, `Object.values` and
    `Array.prototype.join`. Numbers are integers. */
module Js {
  import opened Common

  /** A JSON-like JavaScript value; an object is its own properties in insertion order. */
  datatype Value =
    | Undefined
    | Null
    | Bool(b: bool)
    | Num(n: int)
    | Str(s: string)
    | Arr(items: seq<Value>)
    | Obj(fields: seq<(string, Value)>)

  /** `!!v`. */
  predicate Truthy(v: Value)
  {
    match v
    case Undefined => false
    case Null => false
    case Bool(b) => b
    case Num(n) => n != 0
    case Str(s) => s != ""
    case Arr(_) => true
    case Obj(_) => true
  }

  /** `typeof v === 'object'` (true of `null` as well). */
  predicate IsObject(v: Value)
  {
    v.Null? || v.Arr? || v.Obj?
  }

  /** `a || b`. */
  function Or(a: Value, b: Value): (r: Value)
    ensures Truthy(a) ==> r == a
    ensures !Truthy(a) ==> r == b
    ensures Truthy(r) <==> Truthy(a) || Truthy(b)
  {
    if Truthy(a) then a else b
  }

  /** The value of the first property named `key`, or `undefined`. */
  function Lookup(fields: seq<(string, Value)>, key: string): Value
  {
    if fields == [] then Undefined
    else if fields[0].0 == key then fields[0].1
    else Lookup(fields[1..], key)
  }

  predicate HasField(fields: seq<(string, Value)>, key: string)
  {
    exists i :: 0 <= i < |fields| && fields[i].0 == key
  }

  /** `v.key` on a value that is neither `null` nor `undefined`; arrays and
      primitives have none of the properties the model asks about. */
  function Get(v: Value, key: string): Value
  {
    if v.Obj? then Lookup(v.fields, key) else Undefined
  }

  /** Lookup and the `in` test on a property list with a known first entry. */
  lemma LookupCons(first: (string, Value), rest: seq<(string, Value)>, key: string)
    ensures Lookup([first] + rest, key) == if first.0 == key then first.1 else Lookup(rest, key)
    ensures HasField([first] + rest, key) <==> first.0 == key || HasField(rest, key)
  {
    var all := [first] + rest;
    assert all[1..] == rest;
    if HasField(all, key) && first.0 != key {
      var i :| 0 <= i < |all| && all[i].0 == key;
      assert rest[i - 1].0 == key;
    }
    if HasField(rest, key) {
      var i :| 0 <= i < |rest| && rest[i].0 == key;
      assert all[i + 1].0 == key;
    }
  }

  /** `key in v` for an object or array. */
  predicate Has(v: Value, key: string)
  {
    v.Obj? && HasField(v.fields, key)
  }

  /** `v.key`, or `None` where JavaScript throws a TypeError (reading a property of `null`/`undefined`). */
  function GetProp(v: Value, key: string): (r: Option<Value>)
    ensures r.None? <==> v.Null? || v.Undefined?
    ensures r.Some? ==> r.value == Get(v, key)
    ensures r.Some? && !Has(v, key) ==> r.value == Undefined
    ensures r.Some? && Has(v, key) ==>
      exists i :: 0 <= i < |v.fields| && v.fields[i].0 == key && r.value == v.fields[i].1
        && forall j :: 0 <= j < i ==> v.fields[j].0 != key
  {
    if v.Null? || v.Undefined? then None
    else if v.Obj? && HasField(v.fields, key) then
      LookupFirst(v.fields, key);
      Some(Get(v, key))
    else if v.Obj? then
      LookupAbsent(v.fields, key);
      Some(Get(v, key))
    else Some(Get(v, key))
  }

  /** A present property reads as the value of its first occurrence. */
  lemma {:induction false} LookupFirst(fields: seq<(string, Value)>, key: string)
    requires HasField(fields, key)
    ensures exists i ::
      0 <= i < |fields| && fields[i].0 == key && Lookup(fields, key) == fields[i].1
      && forall j :: 0 <= j < i ==> fields[j].0 != key
  {
    if fields[0].0 == key {
      assert fields[0].0 == key && Lookup(fields, key) == fields[0].1;
    } else {
      var rest := fields[1..];
      LookupCons(fields[0], rest, key);
      assert [fields[0]] + rest == fields;
      LookupFirst(rest, key);
      var i :| 0 <= i < |rest| && rest[i].0 == key && Lookup(rest, key) == rest[i].1
        && forall j :: 0 <= j < i ==> rest[j].0 != key;
      assert fields[i + 1] == rest[i];
      forall j | 0 <= j < i + 1 ensures fields[j].0 != key {
        if j > 0 {
          assert fields[j] == rest[j - 1];
        }
      }
    }
  }

  /** `{ ...fields, [key]: value }`: an existing property keeps its place and takes the new value; otherwise it is appended. */
  function Set(fields: seq<(string, Value)>, key: string, value: Value): (r: seq<(string, Value)>)
  {
    if fields == [] then [(key, value)]
    else if fields[0].0 == key then [(key, value)] + fields[1..]
    else [fields[0]] + Set(fields[1..], key, value)
  }

  /** After setting a property, reading it gives the new value and every other property is as before. */
  lemma {:induction false} SetThenLookup(fields: seq<(string, Value)>, key: string, value: Value, other: string)
    ensures Lookup(Set(fields, key, value), key) == value
    ensures other != key ==> Lookup(Set(fields, key, value), other) == Lookup(fields, other)
    ensures HasField(Set(fields, key, value), other) <==> other == key || HasField(fields, other)
  {
    var r := Set(fields, key, value);
    if fields != [] && fields[0].0 != key {
      SetThenLookup(fields[1..], key, value, other);
      var rest := Set(fields[1..], key, value);
      assert r == [fields[0]] + rest;
      assert r[1..] == rest;
      if HasField(r, other) {
        var i :| 0 <= i < |r| && r[i].0 == other;
        if i > 0 {
          assert rest[i - 1].0 == other;
        }
      }
      if HasField(fields, other) {
        var i :| 0 <= i < |fields| && fields[i].0 == other;
        if i > 0 {
          assert fields[1..][i - 1].0 == other;
        }
      }
    } else if fields != [] {
      if HasField(fields, other) && other != key {
        var i :| 0 <= i < |fields| && fields[i].0 == other;
        assert r[i].0 == other;
      }
      if HasField(r, other) && other != key {
        var i :| 0 <= i < |r| && r[i].0 == other;
        assert fields[i].0 == other;
      }
      assert r[0].0 == key;
    } else {
      assert r[0].0 == key;
    }
  }

  /** The first property with a given name is the one lookup finds. */
  lemma {:induction false} LookupAt(fields: seq<(string, Value)>, i: int)
    requires 0 <= i < |fields|
    requires forall j :: 0 <= j < i ==> fields[j].0 != fields[i].0
    ensures Lookup(fields, fields[i].0) == fields[i].1
    ensures HasField(fields, fields[i].0)
  {
    if i > 0 {
      LookupAt(fields[1..], i - 1);
    }
  }

  /** A name no property carries reads as `undefined` and fails the `in` test. */
  lemma {:induction false} LookupAbsent(fields: seq<(string, Value)>, key: string)
    requires forall j :: 0 <= j < |fields| ==> fields[j].0 != key
    ensures Lookup(fields, key) == Undefined
    ensures !HasField(fields, key)
  {
    if fields != [] {
      LookupAbsent(fields[1..], key);
    }
  }

  /** Setting a property twice is setting it once to the later value. */
  lemma {:induction false} SetTwice(fields: seq<(string, Value)>, key: string, a: Value, b: Value)
    ensures Set(Set(fields, key, a), key, b) == Set(fields, key, b)
  {
    if fields == [] {
      assert Set(fields, key, a) == [(key, a)] + [];
    } else if fields[0].0 == key {
      var once := Set(fields, key, a);
      assert once[0].0 == key && once[1..] == fields[1..];
    } else {
      SetTwice(fields[1..], key, a, b);
      var once := Set(fields, key, a);
      assert once[0] == fields[0] && once[1..] == Set(fields[1..], key, a);
    }
  }

  /** Setting the property that is last, and nowhere earlier, replaces it where it stands. */
  lemma {:induction false} SetLast(fields: seq<(string, Value)>, key: string, a: Value, b: Value)
    requires forall j :: 0 <= j < |fields| ==> fields[j].0 != key
    ensures Set(fields + [(key, a)], key, b) == fields + [(key, b)]
  {
    var all := fields + [(key, a)];
    if fields == [] {
      assert all == [(key, a)];
      assert all[1..] == [];
    } else {
      SetLast(fields[1..], key, a, b);
      assert all[0] == fields[0] && all[1..] == fields[1..] + [(key, a)];
      assert [fields[0]] + (fields[1..] + [(key, b)]) == fields + [(key, b)];
    }
  }

  /** `Object.values(v)` for a truthy value: an object's property values, an
      array's items, a string's characters; no values for a number or boolean. */
  function Values(v: Value): seq<Value>
  {
    match v
    case Obj(fields) => seq(|fields|, i requires 0 <= i < |fields| => fields[i].1)
    case Arr(items) => items
    case Str(s) => seq(|s|, i requires 0 <= i < |s| => Str([s[i]]))
    case _ => []
  }

  /** The text `join` writes for one element: `String(v)`, except that `null`
      and `undefined` become "". */
  function ElementText(v: Value): string
  {
    match v
    case Undefined => ""
    case Null => ""
    case Bool(b) => if b then "true" else "false"
    case Num(n) => Decimal(n)
    case Str(s) => s
    case Arr(items) => Join(seq(|items|, i requires 0 <= i < |items| => ElementText(items[i])), ",")
    case Obj(_) => "[object Object]"
  }

  /** `Object.values(v).join(', ')`. */
  function JoinedValues(v: Value): string
  {
    var vals := Values(v);
    Join(seq(|vals|, i requires 0 <= i < |vals| => ElementText(vals[i])), ", ")
  }
}
