/** The contact-request service: a table of requests sent through the public
    form, the filtered and paginated listing used by the back office, and
    lookup, update and removal by id. */
module ContactRequests {
  import opened Common
  import opened Pagination

  /** A row of `contact_requests`; `createdAt` is the insertion instant in milliseconds. */
  datatype ContactRequest = ContactRequest(
    id: int,
    name: string,
    nationality: string,
    phoneNumber: string,
    destinationCountry: string,
    createdAt: int)

  /** The body of a new request. */
  datatype ContactFields = ContactFields(
    name: string,
    nationality: string,
    phoneNumber: string,
    destinationCountry: string)

  /** The partial body of an update: absent fields are left alone. */
  datatype ContactPatch = ContactPatch(
    name: Option<string>,
    nationality: Option<string>,
    phoneNumber: Option<string>,
    destinationCountry: Option<string>)

  /** The query string of the listing. Dates are the instants the date strings denote. */
  datatype ContactFilter = ContactFilter(
    page: Option<int>,
    limit: Option<int>,
    sort: Option<string>,
    search: Option<string>,
    destinationCountry: Option<string>,
    nationality: Option<string>,
    startDate: Option<int>,
    endDate: Option<int>)

  /** A string parameter is applied only when it is present and non-empty (JavaScript truthiness). */
  predicate Given(o: Option<string>)
  {
    o.Some? && o.value != ""
  }

  // ---------------------------------------------------------------------------
  // Filters

  /** One `andWhere` clause of the listing query. */
  datatype Condition =
    | AnyFieldLike(search: string)
    | DestinationLike(pattern: string)
    | NationalityLike(pattern: string)
    | CreatedBetween(start: int, end: int)
    | CreatedFrom(start: int)
    | CreatedUntil(end: int)

  predicate Holds(c: Condition, r: ContactRequest)
  {
    match c
    case AnyFieldLike(s) =>
      ILike(r.name, s) || ILike(r.phoneNumber, s) || ILike(r.nationality, s) || ILike(r.destinationCountry, s)
    case DestinationLike(p) => ILike(r.destinationCountry, p)
    case NationalityLike(p) => ILike(r.nationality, p)
    case CreatedBetween(s, e) => s <= r.createdAt <= e
    case CreatedFrom(s) => s <= r.createdAt
    case CreatedUntil(e) => r.createdAt <= e
  }

  /** The clauses are combined with AND. */
  predicate AllHold(conds: seq<Condition>, r: ContactRequest)
  {
    forall k :: 0 <= k < |conds| ==> Holds(conds[k], r)
  }

  /** `search`: a case-insensitive substring of the name, phone number, nationality or destination. */
  predicate SearchHolds(f: ContactFilter, r: ContactRequest)
  {
    Given(f.search) ==>
      ILike(r.name, f.search.value) || ILike(r.phoneNumber, f.search.value)
      || ILike(r.nationality, f.search.value) || ILike(r.destinationCountry, f.search.value)
  }

  /** `destination_country` and `nationality`: case-insensitive substrings of their columns. */
  predicate ColumnsHold(f: ContactFilter, r: ContactRequest)
  {
    (Given(f.destinationCountry) ==> ILike(r.destinationCountry, f.destinationCountry.value))
    && (Given(f.nationality) ==> ILike(r.nationality, f.nationality.value))
  }

  /** `startDate` and `endDate`: inclusive bounds on the creation instant. */
  predicate DatesHold(f: ContactFilter, r: ContactRequest)
  {
    (f.startDate.Some? ==> f.startDate.value <= r.createdAt)
    && (f.endDate.Some? ==> r.createdAt <= f.endDate.value)
  }

  /** Reference definition of the listing's filter: every supplied criterion holds. */
  predicate MatchesFilter(f: ContactFilter, r: ContactRequest)
  {
    SearchHolds(f, r) && ColumnsHold(f, r) && DatesHold(f, r)
  }

  lemma AllHoldAppend(conds: seq<Condition>, c: Condition, r: ContactRequest)
    ensures AllHold(conds + [c], r) <==> AllHold(conds, r) && Holds(c, r)
  {
    if AllHold(conds, r) && Holds(c, r) {
      forall k | 0 <= k < |conds| + 1 ensures Holds((conds + [c])[k], r) {
        if k < |conds| {
          assert (conds + [c])[k] == conds[k];
        }
      }
    }
    if AllHold(conds + [c], r) {
      forall k | 0 <= k < |conds| ensures Holds(conds[k], r) {
        assert (conds + [c])[k] == conds[k];
      }
      assert (conds + [c])[|conds|] == c;
    }
  }

  /** A date clause equivalent to the date bounds completes the filter. */
  lemma DateClauseAppended(f: ContactFilter, textual: seq<Condition>, c: Condition)
    requires forall r :: AllHold(textual, r) <==> SearchHolds(f, r) && ColumnsHold(f, r)
    requires forall r :: Holds(c, r) <==> DatesHold(f, r)
    ensures forall r :: AllHold(textual + [c], r) <==> MatchesFilter(f, r)
  {
    forall r ensures AllHold(textual + [c], r) <==> MatchesFilter(f, r) {
      AllHoldAppend(textual, c, r);
    }
  }

  /** The `andWhere` calls of `findAll`, in order: search, destination, nationality,
      then one of the three date clauses. */
  method BuildConditions(f: ContactFilter) returns (conds: seq<Condition>)
    ensures forall r :: AllHold(conds, r) <==> MatchesFilter(f, r)
    ensures f.startDate.Some? && f.endDate.Some? ==>
      CreatedBetween(f.startDate.value, f.endDate.value) in conds
    ensures f.startDate.Some? && f.endDate.None? ==> CreatedFrom(f.startDate.value) in conds
    ensures f.startDate.None? && f.endDate.Some? ==> CreatedUntil(f.endDate.value) in conds
    ensures f.startDate.None? && f.endDate.None? ==>
      forall k :: 0 <= k < |conds| ==> !conds[k].CreatedBetween? && !conds[k].CreatedFrom? && !conds[k].CreatedUntil?
  {
    conds := [];
    if Given(f.search) {
      conds := conds + [AnyFieldLike(f.search.value)];
    }
    assert forall r :: AllHold(conds, r) <==> SearchHolds(f, r) by {
      forall r ensures AllHold(conds, r) <==> SearchHolds(f, r) {
        if Given(f.search) { AllHoldAppend([], AnyFieldLike(f.search.value), r); }
      }
    }
    ghost var before := conds;
    if Given(f.destinationCountry) {
      conds := conds + [DestinationLike(f.destinationCountry.value)];
    }
    ghost var middle := conds;
    if Given(f.nationality) {
      conds := conds + [NationalityLike(f.nationality.value)];
    }
    assert forall r :: AllHold(conds, r) <==> SearchHolds(f, r) && ColumnsHold(f, r) by {
      forall r ensures AllHold(conds, r) <==> SearchHolds(f, r) && ColumnsHold(f, r) {
        if Given(f.destinationCountry) { AllHoldAppend(before, DestinationLike(f.destinationCountry.value), r); }
        if Given(f.nationality) { AllHoldAppend(middle, NationalityLike(f.nationality.value), r); }
      }
    }
    ghost var textual := conds;
    if f.startDate.Some? && f.endDate.Some? {
      conds := conds + [CreatedBetween(f.startDate.value, f.endDate.value)];
      DateClauseAppended(f, textual, CreatedBetween(f.startDate.value, f.endDate.value));
    } else if f.startDate.Some? {
      conds := conds + [CreatedFrom(f.startDate.value)];
      DateClauseAppended(f, textual, CreatedFrom(f.startDate.value));
    } else if f.endDate.Some? {
      conds := conds + [CreatedUntil(f.endDate.value)];
      DateClauseAppended(f, textual, CreatedUntil(f.endDate.value));
    }
  }

  /** With no criterion supplied, every request is listed. */
  lemma NoCriteriaMatchesAll(f: ContactFilter, r: ContactRequest)
    requires !Given(f.search) && !Given(f.destinationCountry) && !Given(f.nationality)
    requires f.startDate.None? && f.endDate.None?
    ensures MatchesFilter(f, r)
  {
  }

  /** With both bounds, a request is kept only when created within them, bounds included. */
  lemma DateRangeInclusive(f: ContactFilter, r: ContactRequest)
    requires f.startDate.Some? && f.endDate.Some?
    requires MatchesFilter(f, r)
    ensures f.startDate.value <= r.createdAt <= f.endDate.value
  {
  }

  // ---------------------------------------------------------------------------
  // Sort keys: camelCase to snake_case

  /** `key.replace(/([A-Z])/g, '_$1')`: an underscore before each ASCII capital. */
  function InsertUnderscores(key: string): (r: string)
    ensures |r| >= |key|
  {
    if key == [] then []
    else (if IsUpperAscii(key[0]) then ['_', key[0]] else [key[0]]) + InsertUnderscores(key[1..])
  }

  /** The column a sort key names: underscores inserted, then lower-cased. */
  function SnakeKey(key: string): (r: string)
    ensures |r| >= |key|
    ensures forall i :: 0 <= i < |r| ==> !IsUpperAscii(r[i])
  {
    Lower(InsertUnderscores(key))
  }

  lemma {:induction false} InsertUnderscoresConcat(a: string, b: string)
    ensures InsertUnderscores(a + b) == InsertUnderscores(a) + InsertUnderscores(b)
  {
    if a == [] {
      assert a + b == b;
    } else {
      assert (a + b)[1..] == a[1..] + b;
      InsertUnderscoresConcat(a[1..], b);
    }
  }

  lemma LowerConcat(a: string, b: string)
    ensures Lower(a + b) == Lower(a) + Lower(b)
  {
  }

  /** Snake-casing works character by character: it distributes over concatenation. */
  lemma SnakeKeyConcat(a: string, b: string)
    ensures SnakeKey(a + b) == SnakeKey(a) + SnakeKey(b)
  {
    InsertUnderscoresConcat(a, b);
    LowerConcat(InsertUnderscores(a), InsertUnderscores(b));
  }

  /** A capital becomes an underscore and its lower-case letter; any other character is kept. */
  lemma SnakeKeyOfChar(c: char)
    ensures IsUpperAscii(c) ==> SnakeKey([c]) == ['_', LowerChar(c)]
    ensures !IsUpperAscii(c) ==> SnakeKey([c]) == [c]
  {
    assert InsertUnderscores([c]) == (if IsUpperAscii(c) then ['_', c] else [c]) + InsertUnderscores([]);
  }

  /** A key without ASCII capitals is its own column name. */
  lemma {:induction false} SnakeKeyKeepsLowerKeys(key: string)
    requires forall i :: 0 <= i < |key| ==> !IsUpperAscii(key[i])
    ensures SnakeKey(key) == key
  {
    if key != [] {
      SnakeKeyKeepsLowerKeys(key[1..]);
      SnakeKeyOfChar(key[0]);
      assert key == [key[0]] + key[1..];
      SnakeKeyConcat([key[0]], key[1..]);
    }
  }

  /** The default sort key names the `created_at` column. */
  lemma CreatedAtColumn()
    ensures SnakeKey("createdAt") == "created_at"
  {
    assert "createdAt" == "created" + "At";
    SnakeKeyConcat("created", "At");
    CreatedColumn();
    AtColumn();
    assert "created" + "_at" == "created_at";
  }

  lemma CreatedColumn()
    ensures SnakeKey("created") == "created"
  {
    SnakeKeyKeepsLowerKeys("created");
  }

  lemma AtColumn()
    ensures SnakeKey("At") == "_at"
  {
    assert "At" == "A" + "t";
    SnakeKeyConcat("A", "t");
    SnakeKeyOfChar('A');
    SnakeKeyOfChar('t');
  }

  // ---------------------------------------------------------------------------
  // Sort parsing

  /** One `addOrderBy(column, direction)` call. */
  datatype OrderBy = OrderBy(column: string, direction: string)

  const DefaultOrder: seq<OrderBy> := [OrderBy("contact_request.created_at", "DESC")]

  /** What `addOrderBy` throws for a direction other than ASC or DESC. */
  const OrderRejected: Error :=
    QueryBuilderError("SelectQueryBuilder.addOrderBy \"order\" can accept only \"ASC\" and \"DESC\" values.")

  /** The two directions `addOrderBy` accepts. */
  predicate IsDirection(d: string)
  {
    d == "ASC" || d == "DESC"
  }

  /** One comma-separated sort field `key:order`. A field without ':' leaves
      `order` undefined, and `order.toUpperCase()` raises a TypeError; an
      upper-cased direction other than ASC or DESC makes `addOrderBy` throw. */
  function SortField(field: string): (r: Result<OrderBy>)
    ensures ':' !in field ==> r == Err(TypeError)
    ensures r.Err? ==> r.error == TypeError || r.error == OrderRejected
  {
    var parts := Split(field, ':');
    SplitPiecesIffSeparator(field, ':');
    if |parts| < 2 then Err(TypeError)
    else if !IsDirection(Upper(parts[1])) then Err(OrderRejected)
    else Ok(OrderBy("contact_request." + SnakeKey(parts[0]), Upper(parts[1])))
  }

  /** A field with ':' parses exactly when its upper-cased direction is ASC
      or DESC, and the clause then carries that direction. */
  lemma SortFieldDirection(field: string)
    requires ':' in field
    ensures |Split(field, ':')| >= 2
    ensures SortField(field).Ok? <==> IsDirection(Upper(Split(field, ':')[1]))
    ensures SortField(field).Ok? ==> SortField(field).value.direction == Upper(Split(field, ':')[1])
  {
    SplitPiecesIffSeparator(field, ':');
  }

  /** A split yields a second piece exactly when the separator occurs. */
  lemma SplitPiecesIffSeparator(s: string, sep: char)
    ensures |Split(s, sep)| >= 2 <==> sep in s
  {
    if sep in s {
      var k :| 0 <= k < |s| && s[k] == sep;
      SplitSeparatorMakesPieces(s, sep, k);
    } else {
      SplitNoSeparator(s, sep);
    }
  }

  /** The `forEach` over the first `k` fields: stops at the first field that throws. */
  function SortClauses(fields: seq<string>, k: nat): (r: Result<seq<OrderBy>>)
    requires k <= |fields|
  {
    if k == 0 then Ok([])
    else
      match SortClauses(fields, k - 1)
      case Err(e) => Err(e)
      case Ok(orders) =>
        match SortField(fields[k - 1])
        case Err(e) => Err(e)
        case Ok(o) => Ok(orders + [o])
  }

  /** The ORDER BY of the listing: the parsed sort string, or newest first. */
  function SortOrders(sort: Option<string>): (r: Result<seq<OrderBy>>)
    ensures r.Ok? ==> |r.value| >= 1
    ensures r.Ok? ==> forall i :: 0 <= i < |r.value| ==> IsDirection(r.value[i].direction)
  {
    if Given(sort) then
      var fields := Split(sort.value, ',');
      ClausesDirections(fields, |fields|);
      SortClauses(fields, |fields|)
    else Ok(DefaultOrder)
  }

  /** Every clause of a successful sort orders ASC or DESC, one per field. */
  lemma ClausesDirections(fields: seq<string>, k: nat)
    requires k <= |fields|
    ensures SortClauses(fields, k).Ok? ==>
      |SortClauses(fields, k).value| == k
      && forall i :: 0 <= i < k ==> IsDirection(SortClauses(fields, k).value[i].direction)
  {
    if SortClauses(fields, k).Ok? {
      SortClausesValues(fields, k);
      forall i | 0 <= i < k
        ensures IsDirection(SortClauses(fields, k).value[i].direction)
      {
        if ':' in fields[i] {
          SortFieldDirection(fields[i]);
        }
      }
    }
  }

  /** The `forEach` over the sort fields, calling `addOrderBy` for each. */
  method ParseSort(sort: Option<string>) returns (r: Result<seq<OrderBy>>)
    ensures r == SortOrders(sort)
  {
    if !Given(sort) {
      return Ok(DefaultOrder);
    }
    var fields := Split(sort.value, ',');
    var orders: seq<OrderBy> := [];
    for i := 0 to |fields|
      invariant SortClauses(fields, i) == Ok(orders)
    {
      var field := SortField(fields[i]);
      if field.Err? {
        FailureSticks(fields, i + 1, |fields|);
        return Err(field.error);
      }
      orders := orders + [field.value];
    }
    r := Ok(orders);
  }

  lemma {:induction false} FailureSticks(fields: seq<string>, i: nat, n: nat)
    requires i <= n <= |fields|
    requires SortClauses(fields, i).Err?
    ensures SortClauses(fields, n) == SortClauses(fields, i)
    decreases n - i
  {
    if i < n {
      FailureSticks(fields, i, n - 1);
    }
  }

  /** Splitting on a separator that occurs gives at least two pieces. */
  lemma {:induction false} SplitSeparatorMakesPieces(s: string, sep: char, k: int)
    requires 0 <= k < |s| && s[k] == sep
    ensures |Split(s, sep)| >= 2
  {
    if k > 0 {
      SplitSeparatorMakesPieces(s[1..], sep, k - 1);
    }
  }

  /** The clauses succeed exactly when every field parses. */
  lemma {:induction false} SortClausesOk(fields: seq<string>, k: nat)
    requires k <= |fields|
    ensures SortClauses(fields, k).Ok? <==> forall i :: 0 <= i < k ==> SortField(fields[i]).Ok?
  {
    if k > 0 {
      SortClausesOk(fields, k - 1);
      var before, last := SortClauses(fields, k - 1), SortField(fields[k - 1]);
      if before.Ok? && last.Ok? {
        assert SortClauses(fields, k).Ok?;
        forall i | 0 <= i < k ensures SortField(fields[i]).Ok? {
          if i < k - 1 {
            assert 0 <= i < k - 1;
          }
        }
      } else if before.Err? {
        assert SortClauses(fields, k).Err?;
        var i :| 0 <= i < k - 1 && SortField(fields[i]).Err?;
      } else {
        assert SortClauses(fields, k).Err?;
      }
    }
  }

  /** Successful clauses hold one clause per field, in order. */
  lemma {:induction false} SortClausesValues(fields: seq<string>, k: nat)
    requires k <= |fields|
    ensures SortClauses(fields, k).Ok? ==>
      |SortClauses(fields, k).value| == k
      && forall i :: 0 <= i < k ==>
        SortField(fields[i]).Ok? && SortClauses(fields, k).value[i] == SortField(fields[i]).value
  {
    if k > 0 && SortClauses(fields, k).Ok? {
      SortClausesValues(fields, k - 1);
      var before, last := SortClauses(fields, k - 1).value, SortField(fields[k - 1]).value;
      assert SortClauses(fields, k).value == before + [last];
    }
  }

  /** The clauses succeed exactly when every field parses, and then there is
      one clause per field, in order. */
  lemma SortClausesShape(fields: seq<string>, k: nat)
    requires k <= |fields|
    ensures SortClauses(fields, k).Ok? <==> forall i :: 0 <= i < k ==> SortField(fields[i]).Ok?
    ensures SortClauses(fields, k).Ok? ==>
      |SortClauses(fields, k).value| == k
      && forall i :: 0 <= i < k ==> SortClauses(fields, k).value[i] == SortField(fields[i]).value
  {
    SortClausesOk(fields, k);
    SortClausesValues(fields, k);
  }

  /** A failing sort fails with the error of its first field that does not parse. */
  lemma {:induction false} SortClausesFirstFailure(fields: seq<string>, k: nat)
    requires k <= |fields|
    ensures SortClauses(fields, k).Err? ==> FirstFailure(fields, k, SortClauses(fields, k).error)
  {
    if k > 0 && SortClauses(fields, k).Err? {
      if SortClauses(fields, k - 1).Err? {
        SortClausesFirstFailure(fields, k - 1);
        FailureCarried(fields, k);
      } else {
        SortClausesOk(fields, k - 1);
        FailureAtLast(fields, k);
      }
    }
  }

  /** Some field among the first `k` fails with `e`, and every earlier one parses. */
  ghost predicate FirstFailure(fields: seq<string>, k: nat, e: Error)
    requires k <= |fields|
  {
    exists i :: 0 <= i < k && SortField(fields[i]).Err?
      && (forall j :: 0 <= j < i ==> SortField(fields[j]).Ok?)
      && e == SortField(fields[i]).error
  }

  lemma FailureCarried(fields: seq<string>, k: nat)
    requires 0 < k <= |fields|
    requires SortClauses(fields, k - 1).Err?
    requires FirstFailure(fields, k - 1, SortClauses(fields, k - 1).error)
    ensures SortClauses(fields, k) == SortClauses(fields, k - 1)
    ensures FirstFailure(fields, k, SortClauses(fields, k).error)
  {
    var i :| 0 <= i < k - 1 && SortField(fields[i]).Err?
      && (forall j :: 0 <= j < i ==> SortField(fields[j]).Ok?)
      && SortClauses(fields, k - 1).error == SortField(fields[i]).error;
  }

  lemma FailureAtLast(fields: seq<string>, k: nat)
    requires 0 < k <= |fields|
    requires SortClauses(fields, k - 1).Ok?
    requires forall j :: 0 <= j < k - 1 ==> SortField(fields[j]).Ok?
    requires SortField(fields[k - 1]).Err?
    ensures SortClauses(fields, k) == Err(SortField(fields[k - 1]).error)
    ensures FirstFailure(fields, k, SortClauses(fields, k).error)
  {
  }

  /** A field `key:order` (neither part holding ':') orders by the snake-cased
      key with the upper-cased direction when that is ASC or DESC, and is
      rejected by the query builder otherwise. */
  lemma SortFieldParts(key: string, order: string)
    requires ':' !in key && ':' !in order
    ensures IsDirection(Upper(order)) ==>
      SortField(key + ":" + order) == Ok(OrderBy("contact_request." + SnakeKey(key), Upper(order)))
    ensures !IsDirection(Upper(order)) ==> SortField(key + ":" + order) == Err(OrderRejected)
  {
    var field := key + ":" + order;
    assert field == key + [':'] + order;
    SplitAtSeparator(key, order, ':');
    SplitNoSeparator(order, ':');
    assert ':' in field by {
      assert field[|key|] == ':';
    }
  }

  /** Splitting `a + [sep] + b`, with no separator in `a`, gives `a` followed by the pieces of `b`. */
  lemma {:induction false} SplitAtSeparator(a: string, b: string, sep: char)
    requires sep !in a
    ensures Split(a + [sep] + b, sep) == [a] + Split(b, sep)
  {
    var s := a + [sep] + b;
    if a == [] {
      assert s == [sep] + b;
      assert s[1..] == b;
    } else {
      assert s[1..] == a[1..] + [sep] + b;
      SplitAtSeparator(a[1..], b, sep);
      assert [a[0]] + a[1..] == a;
    }
  }

  lemma {:induction false} SplitTwoFields(a: string, b: string)
    requires ',' !in a && ',' !in b
    ensures Split(a + "," + b, ',') == [a, b]
  {
    SplitAtSeparator(a, b, ',');
    SplitNoSeparator(b, ',');
  }

  /** Two comma-separated fields are parsed as the two-field list. */
  lemma TwoFieldsOrder(a: string, b: string)
    requires ',' !in a && ',' !in b
    ensures SortOrders(Some(a + "," + b)) == SortClauses([a, b], 2)
  {
    SplitTwoFields(a, b);
    var sort := a + "," + b;
    assert sort[|a|] == ',';
    assert Given(Some(sort));
  }

  /** Two fields: the first failure wins, otherwise one clause each, in order. */
  lemma TwoClauses(a: string, b: string)
    ensures SortClauses([a, b], 2) ==
      if SortField(a).Err? then Err(SortField(a).error)
      else if SortField(b).Err? then Err(SortField(b).error)
      else Ok([SortField(a).value, SortField(b).value])
  {
    var fields := [a, b];
    assert fields[0] == a && fields[1] == b;
    assert SortClauses(fields, 0) == Ok([]);
    if SortField(a).Ok? {
      SortClausesStep(fields, 1, [], SortField(a).value);
      assert [] + [SortField(a).value] == [SortField(a).value];
      if SortField(b).Ok? {
        SortClausesStep(fields, 2, [SortField(a).value], SortField(b).value);
        assert [SortField(a).value] + [SortField(b).value] == [SortField(a).value, SortField(b).value];
      } else {
        assert SortClauses(fields, 2) == Err(SortField(b).error);
      }
    } else {
      assert SortClauses(fields, 1) == Err(SortField(a).error);
      assert SortClauses(fields, 2) == Err(SortField(a).error);
    }
  }

  /** "k1:o1,k2:o2" orders by the first key, then the second, each with its
      direction upper-cased, when both directions are ASC or DESC; otherwise the
      query builder rejects the sort. */
  lemma TwoFieldSort(k1: string, o1: string, k2: string, o2: string)
    requires ':' !in k1 && ':' !in o1 && ':' !in k2 && ':' !in o2
    requires ',' !in k1 && ',' !in o1 && ',' !in k2 && ',' !in o2
    ensures IsDirection(Upper(o1)) && IsDirection(Upper(o2)) ==>
      SortOrders(Some(k1 + ":" + o1 + "," + k2 + ":" + o2)) ==
        Ok([OrderBy("contact_request." + SnakeKey(k1), Upper(o1)),
            OrderBy("contact_request." + SnakeKey(k2), Upper(o2))])
    ensures !(IsDirection(Upper(o1)) && IsDirection(Upper(o2))) ==>
      SortOrders(Some(k1 + ":" + o1 + "," + k2 + ":" + o2)) == Err(OrderRejected)
  {
    var a, b := k1 + ":" + o1, k2 + ":" + o2;
    assert k1 + ":" + o1 + "," + k2 + ":" + o2 == a + "," + b;
    assert ',' !in a && ',' !in b;
    SortFieldParts(k1, o1);
    SortFieldParts(k2, o2);
    TwoFieldsOrder(a, b);
    TwoClauses(a, b);
  }

  lemma SortClausesStep(fields: seq<string>, k: nat, orders: seq<OrderBy>, o: OrderBy)
    requires 1 <= k <= |fields|
    requires SortClauses(fields, k - 1) == Ok(orders)
    requires SortField(fields[k - 1]) == Ok(o)
    ensures SortClauses(fields, k) == Ok(orders + [o])
  {
  }

  /** A field that does not parse makes the whole listing fail, with that
      field's error when every earlier field parsed. */
  lemma FieldFailureFails(sort: string, i: int)
    requires sort != ""
    requires 0 <= i < |Split(sort, ',')| && SortField(Split(sort, ',')[i]).Err?
    ensures SortOrders(Some(sort)).Err?
    ensures (forall j :: 0 <= j < i ==> SortField(Split(sort, ',')[j]).Ok?) ==>
      SortOrders(Some(sort)) == Err(SortField(Split(sort, ',')[i]).error)
  {
    var fields := Split(sort, ',');
    SortClausesShape(fields, |fields|);
    SortClausesFirstFailure(fields, |fields|);
    if forall j :: 0 <= j < i ==> SortField(fields[j]).Ok? {
      var e :| 0 <= e < |fields| && SortField(fields[e]).Err?
        && (forall j :: 0 <= j < e ==> SortField(fields[j]).Ok?)
        && SortClauses(fields, |fields|).error == SortField(fields[e]).error;
      assert e == i;
    }
  }

  /** A sort field without ':' makes the whole listing fail, with the TypeError
      when every earlier field parsed. */
  lemma MissingDirectionFails(sort: string, i: int)
    requires sort != ""
    requires 0 <= i < |Split(sort, ',')| && ':' !in Split(sort, ',')[i]
    ensures SortOrders(Some(sort)).Err?
    ensures (forall j :: 0 <= j < i ==> SortField(Split(sort, ',')[j]).Ok?) ==>
      SortOrders(Some(sort)) == Err(TypeError)
  {
    FieldFailureFails(sort, i);
  }

  // ---------------------------------------------------------------------------
  // Pagination metadata

  datatype Meta = Meta(
    total: nat,
    page: int,
    limit: int,
    totalPages: nat,
    hasNextPage: bool,
    hasPreviousPage: bool)

  /** The `meta` object of the listing. */
  function ListingMeta(total: nat, page: int, limit: int): (m: Meta)
    requires page >= 1 && limit >= 1
    ensures m.total == total && m.page == page && m.limit == limit
    ensures m.totalPages * limit >= total && (m.totalPages == 0 || (m.totalPages - 1) * limit < total)
    ensures m.hasNextPage <==> page < m.totalPages
    ensures m.hasPreviousPage <==> page > 1
  {
    HasNextIffBelowTotal(total, page, limit);
    Meta(total, page, limit, CeilDiv(total, limit), page * limit < total, page > 1)
  }

  /** The listing page, its metadata and the ORDER BY the query carried. */
  datatype Listing = Listing(data: seq<ContactRequest>, meta: Meta, orderBy: seq<OrderBy>)

  // ---------------------------------------------------------------------------
  // Selecting rows

  /** The rows with the given ids that satisfy the filter, in the order of `ids`. */
  function Select(table: map<int, ContactRequest>, ids: seq<int>, f: ContactFilter, k: nat): seq<ContactRequest>
    requires k <= |ids|
    requires forall i :: 0 <= i < |ids| ==> ids[i] in table
  {
    if k == 0 then []
    else
      var rest := Select(table, ids, f, k - 1);
      var row := table[ids[k - 1]];
      if MatchesFilter(f, row) then rest + [row] else rest
  }

  /** All rows that satisfy the filter, by ascending id. */
  ghost function Matching(table: map<int, ContactRequest>, f: ContactFilter): seq<ContactRequest>
  {
    var ids := Ascending(table.Keys);
    Select(table, ids, f, |ids|)
  }

  /** The selection holds exactly the matching rows of the listed ids. */
  lemma {:induction false} SelectMembers(table: map<int, ContactRequest>, ids: seq<int>, f: ContactFilter, k: nat, r: ContactRequest)
    requires k <= |ids|
    requires forall i :: 0 <= i < |ids| ==> ids[i] in table
    ensures r in Select(table, ids, f, k) <==>
      MatchesFilter(f, r) && exists i :: 0 <= i < k && table[ids[i]] == r
  {
    if k > 0 {
      SelectMembers(table, ids, f, k - 1, r);
      var rest, row := Select(table, ids, f, k - 1), table[ids[k - 1]];
      assert r in Select(table, ids, f, k) <==> r in rest || (MatchesFilter(f, row) && r == row);
      if exists i :: 0 <= i < k && table[ids[i]] == r {
        var i :| 0 <= i < k && table[ids[i]] == r;
        if i < k - 1 {
          assert exists j :: 0 <= j < k - 1 && table[ids[j]] == r;
        }
      }
    }
  }

  /** Every listed row is a matching row of the table, and every matching row is listed. */
  lemma MatchingSoundAndComplete(table: map<int, ContactRequest>, f: ContactFilter, r: ContactRequest)
    ensures r in Matching(table, f) <==> MatchesFilter(f, r) && exists id :: id in table && table[id] == r
  {
    var ids := Ascending(table.Keys);
    SelectMembers(table, ids, f, |ids|, r);
    if exists id :: id in table && table[id] == r {
      var id :| id in table && table[id] == r;
      assert id in ids;
      var i :| 0 <= i < |ids| && ids[i] == id;
      assert table[ids[i]] == r;
    }
  }

  // ---------------------------------------------------------------------------
  // Updates

  /** `Object.assign(row, patch)`: the fields present in the patch replace the row's. */
  function Patched(row: ContactRequest, p: ContactPatch): ContactRequest
  {
    row.(
      name := if p.name.Some? then p.name.value else row.name,
      nationality := if p.nationality.Some? then p.nationality.value else row.nationality,
      phoneNumber := if p.phoneNumber.Some? then p.phoneNumber.value else row.phoneNumber,
      destinationCountry := if p.destinationCountry.Some? then p.destinationCountry.value else row.destinationCountry)
  }

  /** An update keeps the id and the creation instant, and applying it twice changes nothing more. */
  lemma PatchedKeepsIdentity(row: ContactRequest, p: ContactPatch)
    ensures Patched(row, p).id == row.id && Patched(row, p).createdAt == row.createdAt
    ensures Patched(Patched(row, p), p) == Patched(row, p)
  {
  }

  /** An empty patch leaves the row as it is. */
  lemma EmptyPatchKeepsRow(row: ContactRequest)
    ensures Patched(row, ContactPatch(None, None, None, None)) == row
  {
  }

  function NotFoundMessage(id: int): string
  {
    "Contact request with ID " + Decimal(id) + " not found"
  }

  // ---------------------------------------------------------------------------
  // The service over its table

  class ContactRequestsService {
    var table: map<int, ContactRequest>
    var nextId: int

    /** Rows are keyed by their own id, and ids below `nextId` have been handed out. */
    ghost predicate Valid()
      reads this
    {
      nextId >= 1 && forall id :: id in table ==> table[id].id == id && 1 <= id < nextId
    }

    constructor()
      ensures Valid() && table == map[] && nextId == 1
    {
      table := map[];
      nextId := 1;
    }

    /** `create` + `save`: a new row with the next id, stamped `now`. */
    method Create(fields: ContactFields, now: int) returns (row: ContactRequest)
      requires Valid()
      modifies this
      ensures Valid()
      ensures row == ContactRequest(old(nextId), fields.name, fields.nationality,
                                    fields.phoneNumber, fields.destinationCountry, now)
      ensures row.id !in old(table) && table == old(table)[row.id := row]
      ensures nextId == old(nextId) + 1
    {
      row := ContactRequest(nextId, fields.name, fields.nationality, fields.phoneNumber, fields.destinationCountry, now);
      table := table[nextId := row];
      nextId := nextId + 1;
    }

    /** `findAll`: the requested page of matching rows, with its metadata. */
    method FindAll(f: ContactFilter) returns (r: Result<Listing>)
      requires Valid()
      requires OrDefault(f.page, 1) >= 1 && OrDefault(f.limit, 10) >= 1
      ensures SortOrders(f.sort).Err? ==> r == Err(SortOrders(f.sort).error)
      ensures SortOrders(f.sort).Ok? ==> r.Ok?
      ensures r.Ok? ==>
        var page, limit := OrDefault(f.page, 1), OrDefault(f.limit, 10);
        var rows := Matching(table, f);
        r.value == Listing(PageOf(rows, page, limit), ListingMeta(|rows|, page, limit), SortOrders(f.sort).value)
    {
      var page := if f.page.Some? then f.page.value else 1;
      var limit := if f.limit.Some? then f.limit.value else 10;
      var conds := BuildConditions(f);
      var orders := ParseSort(f.sort);
      if orders.Err? {
        return Err(orders.error);
      }
      var skip := (page - 1) * limit;
      MulNonNegative(page - 1, limit);
      var rows := RunQuery(conds, f);
      r := Ok(Listing(Window(rows, skip, limit), ListingMeta(|rows|, page, limit), orders.value));
    }

    /** `getManyAndCount` before the window: every row satisfying the clauses, by ascending id. */
    method RunQuery(conds: seq<Condition>, ghost f: ContactFilter) returns (rows: seq<ContactRequest>)
      requires forall r :: AllHold(conds, r) <==> MatchesFilter(f, r)
      ensures rows == Matching(table, f)
    {
      var ids := AscendingKeys(table);
      rows := [];
      for i := 0 to |ids|
        invariant rows == Select(table, ids, f, i)
      {
        var row := table[ids[i]];
        var keep := SatisfiesAll(conds, row);
        if keep {
          rows := rows + [row];
        }
      }
    }

    /** `findOne`: the row with that id, or NotFound. */
    function FindOne(id: int): (r: Result<ContactRequest>)
      reads this
      ensures r.Ok? <==> id in table
      ensures r.Ok? ==> r.value == table[id]
      ensures r.Err? ==> r.error == NotFound(NotFoundMessage(id))
    {
      if id in table then Ok(table[id]) else Err(NotFound(NotFoundMessage(id)))
    }

    /** `update`: the present fields of the patch overwrite the row; other rows are kept. */
    method Update(id: int, p: ContactPatch) returns (r: Result<ContactRequest>)
      requires Valid()
      modifies this
      ensures Valid() && nextId == old(nextId)
      ensures id !in old(table) ==> r == Err(NotFound(NotFoundMessage(id))) && table == old(table)
      ensures id in old(table) ==>
        r == Ok(Patched(old(table)[id], p)) && table == old(table)[id := r.value]
    {
      var found := FindOne(id);
      if found.Err? {
        return Err(found.error);
      }
      var row := Patched(found.value, p);
      table := table[id := row];
      r := Ok(row);
    }

    /** `remove`: deletes the row, or NotFound with the table unchanged. */
    method Remove(id: int) returns (r: Result<()>)
      requires Valid()
      modifies this
      ensures Valid() && nextId == old(nextId)
      ensures id !in old(table) ==> r == Err(NotFound(NotFoundMessage(id))) && table == old(table)
      ensures id in old(table) ==> r == Ok(()) && table == old(table) - {id}
    {
      var found := FindOne(id);
      if found.Err? {
        return Err(found.error);
      }
      table := table - {id};
      r := Ok(());
    }
  }

  /** Evaluates the AND of the clauses on one row. */
  method SatisfiesAll(conds: seq<Condition>, row: ContactRequest) returns (keep: bool)
    ensures keep <==> AllHold(conds, row)
  {
    keep := true;
    for k := 0 to |conds|
      invariant keep <==> forall j :: 0 <= j < k ==> Holds(conds[j], row)
    {
      if !Holds(conds[k], row) {
        keep := false;
      }
    }
  }

  /** Sorting fails only with the TypeError of a missing direction or the
      query builder's rejection of a direction. */
  lemma SortErrorKinds(sort: Option<string>)
    ensures SortOrders(sort).Err? ==>
      SortOrders(sort).error == TypeError || SortOrders(sort).error == OrderRejected
  {
    if Given(sort) {
      var fields := Split(sort.value, ',');
      SortClausesFirstFailure(fields, |fields|);
    }
  }
}
