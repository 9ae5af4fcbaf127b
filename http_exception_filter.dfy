/** The global exception filter: every thrown value becomes the `ApiError`
    envelope `{ success: false, error: { code, message, details? }, time }`.
    Writing the envelope to the HTTP response is I/O and is not modelled; the
    filter's result is the envelope, or `None` where the filter itself throws. */
module HttpExceptionFilter {
  import opened Common
  import opened Js

  /** What reaches the filter: an `HttpException` (its status and `getResponse()`),
      another `Error` (its message), or any other thrown value. */
  datatype Thrown =
    | HttpException(status: int, response: Value)
    | PlainError(message: string)
    | Other(value: Value)

  const InternalServerError: int := 500
  const DefaultMessage: string := "Internal server error"
  const ValidationFailed: string := "Validation failed"

  /** The `errorResponse` object; `details` is present only when it was computed. */
  function Envelope(status: int, message: Value, details: Option<seq<Value>>, now: string): Value
  {
    var error := [("code", Num(status)), ("message", message)]
      + (if details.Some? then [("details", Arr(details.value))] else []);
    Obj([("success", Bool(false)), ("error", Obj(error)), ("time", Str(now))])
  }

  /** The envelope reports failure, the status as `code`, the message, the
      time, and a `details` key exactly when details were computed. */
  predicate Reports(r: Option<Value>, status: int, message: Value, details: Option<seq<Value>>, now: string)
  {
    r.Some?
    && Get(r.value, "success") == Bool(false)
    && Get(r.value, "time") == Str(now)
    && Get(Get(r.value, "error"), "code") == Num(status)
    && Get(Get(r.value, "error"), "message") == message
    && (Has(Get(r.value, "error"), "details") <==> details.Some?)
    && (details.Some? ==> Get(Get(r.value, "error"), "details") == Arr(details.value))
  }

  lemma EnvelopeReports(status: int, message: Value, details: Option<seq<Value>>, now: string)
    ensures Reports(Some(Envelope(status, message, details, now)), status, message, details, now)
  {
    var error := [("code", Num(status)), ("message", message)]
      + (if details.Some? then [("details", Arr(details.value))] else []);
    ErrorFields(status, message, details);
    var top := [("success", Bool(false)), ("error", Obj(error)), ("time", Str(now))];
    LookupAt(top, 0);
    LookupAt(top, 1);
    LookupAt(top, 2);
  }

  /** The `error` object reports the code, the message and, when computed, the details. */
  lemma ErrorFields(status: int, message: Value, details: Option<seq<Value>>)
    ensures var error := [("code", Num(status)), ("message", message)]
      + (if details.Some? then [("details", Arr(details.value))] else []);
      Lookup(error, "code") == Num(status) && Lookup(error, "message") == message
      && (HasField(error, "details") <==> details.Some?)
      && (details.Some? ==> Lookup(error, "details") == Arr(details.value))
  {
    if details.Some? {
      var error := [("code", Num(status)), ("message", message), ("details", Arr(details.value))];
      assert [("code", Num(status)), ("message", message)] + [("details", Arr(details.value))] == error;
      LookupAt(error, 0);
      LookupAt(error, 1);
      LookupAt(error, 2);
    } else {
      var error := [("code", Num(status)), ("message", message)];
      assert error + [] == error;
      LookupAt(error, 0);
      LookupAt(error, 1);
      LookupAbsent(error, "details");
    }
  }

  /** One entry of `details` for one element of a validation message array;
      `None` for `null`/`undefined`, whose `.property` throws. */
  function DetailOf(msg: Value): (r: Option<Value>)
    ensures r.None? <==> msg.Null? || msg.Undefined?
  {
    if msg.Str? then Some(Obj([("field", Str("unknown")), ("message", msg)]))
    else if msg.Null? || msg.Undefined? then None
    else
      var field := Or(Get(msg, "property"), Or(Get(msg, "field"), Str("unknown")));
      var joined := JoinedValues(Or(Get(msg, "constraints"), Obj([])));
      Some(Obj([("field", field), ("message", Or(Str(joined), Or(Get(msg, "message"), msg)))]))
  }

  /** `responseObj.message.map(...)`: one entry per element in order, or `None` when an element makes the callback throw. */
  function Details(items: seq<Value>): (r: Option<seq<Value>>)
    ensures r.None? <==> exists i :: 0 <= i < |items| && DetailOf(items[i]).None?
    ensures r.Some? ==> |r.value| == |items| && forall i :: 0 <= i < |items| ==> DetailOf(items[i]) == Some(r.value[i])
  {
    if items == [] then Some([])
    else
      var head := DetailOf(items[0]);
      var tail := Details(items[1..]);
      if head.None? then None
      else if tail.None? then
        assert exists i :: 0 <= i < |items| && DetailOf(items[i]).None? by {
          var j :| 0 <= j < |items[1..]| && DetailOf(items[1..][j]).None?;
          assert DetailOf(items[j + 1]).None?;
        }
        None
      else
        var all := [head.value] + tail.value;
        assert forall i :: 1 <= i < |items| ==> items[i] == items[1..][i - 1];
        Some(all)
  }

  /** `catch`: the envelope the filter writes, or `None` where it throws. */
  function Catch(exception: Thrown, now: string): (r: Option<Value>)
    ensures r.None? <==>
      exception.HttpException?
      && (exception.response.Null?
          || (Get(exception.response, "message").Arr?
              && exists i :: 0 <= i < |Get(exception.response, "message").items|
                   && Get(exception.response, "message").items[i] in {Null, Undefined}))
  {
    match exception
    case Other(_) => Some(Envelope(InternalServerError, Str(DefaultMessage), None, now))
    case PlainError(message) => Some(Envelope(InternalServerError, Str(message), None, now))
    case HttpException(status, response) =>
      if response.Str? then Some(Envelope(status, response, None, now))
      else if !IsObject(response) then Some(Envelope(status, Str(DefaultMessage), None, now))
      else if response.Null? then None
      else
        var m := Get(response, "message");
        if m.Arr? then
          var details := Details(m.items);
          if details.None? then None else Some(Envelope(status, Str(ValidationFailed), details, now))
        else Some(Envelope(status, Or(m, Or(Get(response, "error"), Str(DefaultMessage))), None, now))
  }

  /** Whatever was thrown, a written envelope has `success` false and the exception's status as `code`. */
  lemma AlwaysFailure(exception: Thrown, now: string)
    ensures Catch(exception, now).Some? ==>
      Get(Catch(exception, now).value, "success") == Bool(false)
      && Get(Get(Catch(exception, now).value, "error"), "code")
         == Num(if exception.HttpException? then exception.status else InternalServerError)
  {
    match exception
    case Other(_) => EnvelopeReports(InternalServerError, Str(DefaultMessage), None, now);
    case PlainError(message) => EnvelopeReports(InternalServerError, Str(message), None, now);
    case HttpException(status, response) =>
      if Catch(exception, now).Some? {
        var m := Get(response, "message");
        if response.Str? {
          EnvelopeReports(status, response, None, now);
        } else if !IsObject(response) {
          EnvelopeReports(status, Str(DefaultMessage), None, now);
        } else if m.Arr? {
          EnvelopeReports(status, Str(ValidationFailed), Details(m.items), now);
        } else {
          EnvelopeReports(status, Or(m, Or(Get(response, "error"), Str(DefaultMessage))), None, now);
        }
      }
  }

  /** A thrown value that is no `Error` gives 500 "Internal server error"; a plain `Error` gives 500 with its own message. */
  lemma NonHttpErrors(value: Value, message: string, now: string)
    ensures Reports(Catch(Other(value), now), 500, Str("Internal server error"), None, now)
    ensures Reports(Catch(PlainError(message), now), 500, Str(message), None, now)
  {
    EnvelopeReports(InternalServerError, Str(DefaultMessage), None, now);
    EnvelopeReports(InternalServerError, Str(message), None, now);
  }

  /** An `HttpException` keeps its status; a string response is the message. */
  lemma StringResponse(status: int, text: string, now: string)
    ensures Reports(Catch(HttpException(status, Str(text)), now), status, Str(text), None, now)
  {
    EnvelopeReports(status, Str(text), None, now);
  }

  /** An object response gives `message || error || "Internal server error"` when its message is no array. */
  lemma ObjectResponse(status: int, fields: seq<(string, Value)>, now: string)
    requires !Lookup(fields, "message").Arr?
    ensures Reports(Catch(HttpException(status, Obj(fields)), now), status,
      Or(Lookup(fields, "message"), Or(Lookup(fields, "error"), Str("Internal server error"))), None, now)
  {
    EnvelopeReports(status, Or(Lookup(fields, "message"), Or(Lookup(fields, "error"), Str(DefaultMessage))), None, now);
  }

  /** The `field` and `message` of one entry of `details`. */
  lemma DetailFields(msg: Value)
    requires !msg.Null? && !msg.Undefined?
    ensures msg.Str? ==>
      Get(DetailOf(msg).value, "field") == Str("unknown") && Get(DetailOf(msg).value, "message") == msg
    ensures !msg.Str? ==>
      Get(DetailOf(msg).value, "field") == Or(Get(msg, "property"), Or(Get(msg, "field"), Str("unknown")))
      && Get(DetailOf(msg).value, "message")
         == Or(Str(JoinedValues(Or(Get(msg, "constraints"), Obj([])))), Or(Get(msg, "message"), msg))
  {
    var entry := DetailOf(msg).value;
    var f, m := entry.fields[0].1, entry.fields[1].1;
    assert entry.fields == [("field", f)] + [("message", m)];
    LookupCons(("field", f), [("message", m)], "field");
    LookupCons(("field", f), [("message", m)], "message");
    LookupCons(("message", m), [], "message");
  }

  /** An array `message` becomes "Validation failed" with one detail per element, in order:
      a string element is reported under field "unknown"; an object element under
      `property || field || "unknown"`. */
  lemma ValidationArray(status: int, fields: seq<(string, Value)>, items: seq<Value>, now: string)
    requires Lookup(fields, "message") == Arr(items)
    requires forall i :: 0 <= i < |items| ==> !items[i].Null? && !items[i].Undefined?
    ensures Details(items).Some?
    ensures Reports(Catch(HttpException(status, Obj(fields)), now), status, Str("Validation failed"), Details(items), now)
    ensures var ds := Details(items).value;
      |ds| == |items|
      && (forall i :: 0 <= i < |items| && items[i].Str? ==>
            Get(ds[i], "field") == Str("unknown") && Get(ds[i], "message") == items[i])
      && (forall i :: 0 <= i < |items| && !items[i].Str? ==>
            Get(ds[i], "field") == Or(Get(items[i], "property"), Or(Get(items[i], "field"), Str("unknown"))))
  {
    assert Details(items).Some?;
    EnvelopeReports(status, Str(ValidationFailed), Details(items), now);
    var ds := Details(items).value;
    forall i | 0 <= i < |items|
      ensures items[i].Str? ==> Get(ds[i], "field") == Str("unknown") && Get(ds[i], "message") == items[i]
      ensures !items[i].Str? ==>
        Get(ds[i], "field") == Or(Get(items[i], "property"), Or(Get(items[i], "field"), Str("unknown")))
    {
      DetailFields(items[i]);
    }
  }

  /** A class-validator error `{ property, constraints: { rule: text } }` is reported under its property with the constraint's text. */
  lemma ConstraintDetail(property: string, rule: string, text: string)
    requires property != "" && text != ""
    ensures var msg := Obj([("property", Str(property)), ("constraints", Obj([(rule, Str(text))]))]);
      DetailOf(msg) == Some(Obj([("field", Str(property)), ("message", Str(text))]))
  {
    var constraints := Obj([(rule, Str(text))]);
    var msg := Obj([("property", Str(property)), ("constraints", constraints)]);
    assert msg.fields == [("property", Str(property))] + [("constraints", constraints)];
    LookupCons(("property", Str(property)), [("constraints", constraints)], "property");
    LookupCons(("property", Str(property)), [("constraints", constraints)], "constraints");
    LookupCons(("constraints", constraints), [], "constraints");
    assert Get(msg, "property") == Str(property);
    assert Get(msg, "constraints") == constraints;
    assert Values(constraints) == [Str(text)];
    var texts := seq(1, i requires 0 <= i < 1 => ElementText(Values(constraints)[i]));
    assert texts == [text];
    assert JoinedValues(constraints) == text;
  }
}
