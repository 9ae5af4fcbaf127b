/** The global response interceptor: every handler result becomes the
    `ApiResponse` envelope `{ success, data, meta?, message, time }`. The
    clock, its three-hour shift and `toISOString` are outside the model: the
    formatted time is the parameter `now`. */
module ResponseInterceptor {
  import opened Common
  import opened Js

  const DefaultMessage: string := "Success"

  /** The properties of a new envelope before `time`: the paginated shape
      when the result has both `data` and `meta`, else the whole result as `data`. */
  function Fresh(data: Value): (r: seq<(string, Value)>)
    ensures |r| > 0 && r[0] == ("success", Bool(true))
    ensures forall j :: 0 <= j < |r| ==> r[j].0 != "time"
  {
    if Truthy(data) && IsObject(data) && Has(data, "data") && Has(data, "meta") then
      [("success", Bool(true)), ("data", Get(data, "data")), ("meta", Get(data, "meta")),
       ("message", Or(Get(data, "message"), Str(DefaultMessage)))]
    else
      [("success", Bool(true)), ("data", data), ("message", Str(DefaultMessage))]
  }

  /** The `map` callback of `intercept`: a result that already carries `success`
      is spread with `time` overridden; any other result gets a new envelope. */
  function Wrap(data: Value, now: string): (r: Value)
    ensures r.Obj?
  {
    if Truthy(data) && IsObject(data) && Has(data, "success") then Obj(Set(data.fields, "time", Str(now)))
    else Obj(Fresh(data) + [("time", Str(now))])
  }

  /** Whether the result passes through with only `time` replaced. */
  predicate PassesThrough(data: Value)
  {
    data.Obj? && HasField(data.fields, "success")
  }

  /** Every envelope carries `time`, and `success` is true unless the result already carried its own. */
  lemma TimeAlwaysSet(data: Value, now: string)
    ensures Has(Wrap(data, now), "time") && Get(Wrap(data, now), "time") == Str(now)
    ensures Has(Wrap(data, now), "success")
    ensures !PassesThrough(data) ==> Get(Wrap(data, now), "success") == Bool(true)
  {
    if PassesThrough(data) {
      SetThenLookup(data.fields, "time", Str(now), "success");
      SetThenLookup(data.fields, "time", Str(now), "time");
    } else {
      var fields := Fresh(data) + [("time", Str(now))];
      LookupAt(fields, 0);
      LookupAt(fields, |fields| - 1);
    }
  }

  /** A result with `success` keeps every property and its value except `time`, which is set to `now`. */
  lemma PassthroughKeepsFields(fields: seq<(string, Value)>, now: string, key: string)
    requires HasField(fields, "success")
    ensures Wrap(Obj(fields), now) == Obj(Set(fields, "time", Str(now)))
    ensures key != "time" ==> Get(Wrap(Obj(fields), now), key) == Lookup(fields, key)
    ensures Has(Wrap(Obj(fields), now), key) <==> key == "time" || HasField(fields, key)
  {
    SetThenLookup(fields, "time", Str(now), key);
  }

  /** The `success` check comes first: an object with its own `success`, `data`
      and `meta` keeps its `success` value and gets no `message`. */
  lemma SuccessTakesPrecedence(ok: bool, payload: Value, meta: Value, now: string)
    ensures var r := Wrap(Obj([("success", Bool(ok)), ("data", payload), ("meta", meta)]), now);
      Get(r, "success") == Bool(ok) && Get(r, "data") == payload && Get(r, "meta") == meta
      && !Has(r, "message") && Get(r, "time") == Str(now)
  {
    var fields := [("success", Bool(ok)), ("data", payload), ("meta", meta)];
    LookupAt(fields, 0);
    LookupAt(fields, 1);
    LookupAt(fields, 2);
    LookupAbsent(fields, "message");
    LookupAbsent(fields, "time");
    PassthroughKeepsFields(fields, now, "success");
    PassthroughKeepsFields(fields, now, "data");
    PassthroughKeepsFields(fields, now, "meta");
    PassthroughKeepsFields(fields, now, "message");
    SetThenLookup(fields, "time", Str(now), "time");
  }

  /** A paginated result without `success`: its `data` and `meta` are lifted,
      its message kept when truthy, "Success" otherwise. */
  lemma PaginatedEnvelope(fields: seq<(string, Value)>, now: string)
    requires !HasField(fields, "success") && HasField(fields, "data") && HasField(fields, "meta")
    ensures var r := Wrap(Obj(fields), now);
      Get(r, "success") == Bool(true)
      && Get(r, "data") == Lookup(fields, "data")
      && Get(r, "meta") == Lookup(fields, "meta")
      && Get(r, "message") == Or(Lookup(fields, "message"), Str("Success"))
      && Get(r, "time") == Str(now)
  {
    var out := Fresh(Obj(fields)) + [("time", Str(now))];
    LookupAt(out, 0);
    LookupAt(out, 1);
    LookupAt(out, 2);
    LookupAt(out, 3);
    LookupAt(out, 4);
  }

  /** Anything else, including `null`, primitives, arrays and objects lacking
      `meta`, is wrapped whole as `data` with message "Success" and no `meta`. */
  lemma DefaultEnvelope(data: Value, now: string)
    requires !(data.Obj? && (HasField(data.fields, "success")
      || (HasField(data.fields, "data") && HasField(data.fields, "meta"))))
    ensures var r := Wrap(data, now);
      Get(r, "success") == Bool(true) && Get(r, "data") == data
      && Get(r, "message") == Str("Success") && !Has(r, "meta") && Get(r, "time") == Str(now)
  {
    var out := Fresh(data) + [("time", Str(now))];
    assert out == [("success", Bool(true)), ("data", data), ("message", Str(DefaultMessage)), ("time", Str(now))];
    LookupAt(out, 0);
    LookupAt(out, 1);
    LookupAt(out, 2);
    LookupAt(out, 3);
    LookupAbsent(out, "meta");
  }

  /** A `{ data, message }` result without `meta` is nested whole as `data`: its own message is not lifted. */
  lemma DataMessageNested(payload: Value, text: string, now: string)
    ensures var result := Obj([("data", payload), ("message", Str(text))]);
      Get(Wrap(result, now), "data") == result && Get(Wrap(result, now), "message") == Str("Success")
  {
    var fields := [("data", payload), ("message", Str(text))];
    LookupAbsent(fields, "success");
    LookupAbsent(fields, "meta");
    DefaultEnvelope(Obj(fields), now);
  }

  /** Wrapping an envelope again only refreshes its `time`. */
  lemma RewrapRefreshesTime(data: Value, t1: string, t2: string)
    ensures Wrap(Wrap(data, t1), t2) == Wrap(data, t2)
  {
    var once := Wrap(data, t1);
    if PassesThrough(data) {
      SetThenLookup(data.fields, "time", Str(t1), "success");
      SetTwice(data.fields, "time", Str(t1), Str(t2));
    } else {
      var prefix := Fresh(data);
      LookupAt(prefix + [("time", Str(t1))], 0);
      SetLast(prefix, "time", Str(t1), Str(t2));
    }
  }
}
