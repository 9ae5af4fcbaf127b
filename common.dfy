/** Shared vocabulary of the services: optional values, the HTTP exceptions the
    services throw, ASCII case folding (the only case folding the model
    performs), substring tests, JavaScript-style split/join, and listing a
    table's ids in ascending order. */
module Common {

  datatype Option<+T> = None | Some(value: T)

  /** The NestJS exceptions thrown by the services, the TypeError a
      JavaScript runtime raises on a property access of `undefined`, and an
      error thrown by TypeORM's query builder. */
  datatype Error =
    | NotFound(message: string)
    | Conflict(message: string)
    | BadRequest(message: string)
    | Unauthorized(message: string)
    | TypeError
    | QueryBuilderError(message: string)

  datatype Result<+T> = Ok(value: T) | Err(error: Error)

  /** What a multer file filter passes to its callback: `cb(null, true)` or `cb(error, false)`. */
  datatype Verdict = Accept | Reject(error: Error)

  // ---------------------------------------------------------------------------
  // ASCII case folding (`toLowerCase` / `toUpperCase` restricted to A-Z, a-z)

  predicate IsUpperAscii(c: char) { 'A' <= c <= 'Z' }
  predicate IsLowerAscii(c: char) { 'a' <= c <= 'z' }

  function LowerChar(c: char): (r: char)
    ensures !IsUpperAscii(r)
    ensures !IsUpperAscii(c) ==> r == c
  {
    if IsUpperAscii(c) then (c as int - 'A' as int + 'a' as int) as char else c
  }

  function UpperChar(c: char): (r: char)
    ensures !IsLowerAscii(r)
    ensures !IsLowerAscii(c) ==> r == c
  {
    if IsLowerAscii(c) then (c as int - 'a' as int + 'A' as int) as char else c
  }

  function Lower(s: string): (r: string)
    ensures |r| == |s|
    ensures forall i :: 0 <= i < |s| ==> r[i] == LowerChar(s[i])
  {
    if s == [] then [] else [LowerChar(s[0])] + Lower(s[1..])
  }

  function Upper(s: string): (r: string)
    ensures |r| == |s|
    ensures forall i :: 0 <= i < |s| ==> r[i] == UpperChar(s[i])
  {
    if s == [] then [] else [UpperChar(s[0])] + Upper(s[1..])
  }

  // ---------------------------------------------------------------------------
  // Substring tests

  /** `hay.includes(needle)`: `needle` occurs in `hay` at some offset. */
  predicate Contains(hay: string, needle: string)
  {
    needle <= hay || (|hay| > 0 && Contains(hay[1..], needle))
  }

  /** `needle` occurs in `hay` exactly at offset `i`. */
  predicate OccursAt(hay: string, needle: string, i: int)
  {
    0 <= i && i + |needle| <= |hay| && hay[i..i + |needle|] == needle
  }

  /** The recursive substring test agrees with "there is an offset". */
  lemma {:induction false} ContainsIffOccurs(hay: string, needle: string)
    ensures Contains(hay, needle) <==> exists i :: OccursAt(hay, needle, i)
  {
    if needle <= hay {
      assert OccursAt(hay, needle, 0);
    } else if |hay| > 0 {
      ContainsIffOccurs(hay[1..], needle);
      if Contains(hay[1..], needle) {
        var i :| OccursAt(hay[1..], needle, i);
        assert hay[i + 1..i + 1 + |needle|] == hay[1..][i..i + |needle|];
        assert OccursAt(hay, needle, i + 1);
      }
      if exists i :: OccursAt(hay, needle, i) {
        var i :| OccursAt(hay, needle, i);
        assert i != 0;
        assert hay[1..][i - 1..i - 1 + |needle|] == hay[i..i + |needle|];
        assert OccursAt(hay[1..], needle, i - 1);
      }
    }
  }

  /** The empty string occurs in every string. */
  lemma ContainsEmpty(hay: string)
    ensures Contains(hay, [])
  {
  }

  /** SQL `field ILIKE '%pattern%'`, with ASCII case folding. */
  predicate ILike(field: string, pattern: string)
  {
    Contains(Lower(field), Lower(pattern))
  }

  // ---------------------------------------------------------------------------
  // JavaScript `String.prototype.split` on a one-character separator, and `join`

  /** `s.split(sep)`: never empty; pieces contain no separator. */
  function Split(s: string, sep: char): (r: seq<string>)
    ensures |r| >= 1
    ensures forall k :: 0 <= k < |r| ==> sep !in r[k]
  {
    if s == [] then [""]
    else
      var rest := Split(s[1..], sep);
      if s[0] == sep then [""] + rest
      else [[s[0]] + rest[0]] + rest[1..]
  }

  /** `parts.join(sep)`. */
  function Join(parts: seq<string>, sep: string): string
  {
    if parts == [] then ""
    else if |parts| == 1 then parts[0]
    else parts[0] + sep + Join(parts[1..], sep)
  }

  /** Joining the pieces of a split with the separator gives back the input. */
  lemma {:induction false} JoinSplit(s: string, sep: char)
    ensures Join(Split(s, sep), [sep]) == s
  {
    if s != [] {
      var rest := Split(s[1..], sep);
      JoinSplit(s[1..], sep);
      if s[0] == sep {
        assert Split(s, sep) == [""] + rest;
        assert Join([""] + rest, [sep]) == "" + [sep] + Join(rest, [sep]);
      } else {
        var r := Split(s, sep);
        assert r == [[s[0]] + rest[0]] + rest[1..];
        if |rest| == 1 {
          assert r == [[s[0]] + rest[0]];
        } else {
          assert r[1..] == rest[1..];
          assert Join(rest, [sep]) == rest[0] + [sep] + Join(rest[1..], [sep]);
        }
      }
    }
  }

  /** A string without the separator splits into itself alone. */
  lemma {:induction false} SplitNoSeparator(s: string, sep: char)
    requires sep !in s
    ensures Split(s, sep) == [s]
  {
    if s != [] {
      SplitNoSeparator(s[1..], sep);
      assert [s[0]] + s[1..] == s;
    }
  }

  /** Splitting around one separator splits each side independently. */
  lemma {:induction false} SplitConcat(a: string, b: string, sep: char)
    ensures Split(a + [sep] + b, sep) == Split(a, sep) + Split(b, sep)
  {
    var s := a + [sep] + b;
    if a == [] {
      assert s == [sep] + b && s[1..] == b;
    } else {
      var tail := a[1..] + [sep] + b;
      assert s[0] == a[0] && s[1..] == tail;
      SplitConcat(a[1..], b, sep);
      var x, y := Split(a[1..], sep), Split(b, sep);
      assert Split(tail, sep) == x + y;
      if a[0] == sep {
        assert Split(s, sep) == [""] + (x + y);
        assert Split(a, sep) == [""] + x;
        Associate([""], x, y);
      } else {
        GrowFirstPiece(a[0], x, y);
      }
    }
  }

  /** Concatenation regroups freely. */
  lemma Associate<T>(p: seq<T>, x: seq<T>, y: seq<T>)
    ensures p + (x + y) == (p + x) + y
  {
  }

  /** Prepending a character to the first piece of `x + y` prepends it to the first piece of `x`. */
  lemma GrowFirstPiece(c: char, x: seq<string>, y: seq<string>)
    requires |x| >= 1
    ensures [[c] + (x + y)[0]] + (x + y)[1..] == ([[c] + x[0]] + x[1..]) + y
  {
    assert (x + y)[0] == x[0] && (x + y)[1..] == x[1..] + y;
  }

  /** The first piece of a split is the input up to the first separator. */
  lemma {:induction false} SplitFirstPiece(s: string, sep: char)
    ensures Split(s, sep)[0] <= s
    ensures |Split(s, sep)[0]| < |s| ==> s[|Split(s, sep)[0]|] == sep
  {
    if s != [] {
      SplitFirstPiece(s[1..], sep);
      if s[0] != sep {
        var first := Split(s[1..], sep)[0];
        assert Split(s, sep)[0] == [s[0]] + first;
        assert s == [s[0]] + s[1..];
      }
    }
  }

  // ---------------------------------------------------------------------------
  // Decimal rendering of a number inside a message (`${id}`)

  function DigitChar(d: int): (c: char)
    requires 0 <= d < 10
    ensures '0' <= c <= '9'
  {
    ['0', '1', '2', '3', '4', '5', '6', '7', '8', '9'][d]
  }

  /** The decimal notation of an integer, as a template literal renders it. */
  function Decimal(n: int): (r: string)
    ensures |r| >= 1
    decreases if n < 0 then 1 - n else n
  {
    if n < 0 then "-" + Decimal(-n)
    else if n < 10 then [DigitChar(n)]
    else Decimal(n / 10) + [DigitChar(n % 10)]
  }

  // ---------------------------------------------------------------------------
  // Listing a table (a map keyed by auto-increment ids) in ascending id order

  predicate StrictlyAscending(ids: seq<int>)
  {
    forall i, j :: 0 <= i < j < |ids| ==> ids[i] < ids[j]
  }

  /** The smallest element of a non-empty set of ids. */
  ghost function LeastOf(s: set<int>): (least: int)
    requires s != {}
    ensures least in s
    ensures forall other :: other in s ==> least <= other
    decreases |s|
  {
    assert exists y :: y in s by {
      if forall y :: y !in s {
        assert false;
      }
    }
    var x :| x in s;
    if s == {x} then x
    else
      var rest := LeastOf(s - {x});
      assert forall other :: other in s ==> other == x || other in s - {x};
      if x < rest then x else rest
  }

  /** The ids of a set listed in ascending order, each once. */
  ghost function Ascending(s: set<int>): (r: seq<int>)
    ensures StrictlyAscending(r)
    ensures forall id :: id in r <==> id in s
    decreases |s|
  {
    if s == {} then []
    else
      var least := LeastOf(s);
      var rest := Ascending(s - {least});
      assert forall k :: 0 <= k < |rest| ==> least < rest[k] by {
        forall k | 0 <= k < |rest| ensures least < rest[k] {
          assert rest[k] in s - {least};
        }
      }
      [least] + rest
  }

  /** A strictly ascending listing of a set is unique. */
  lemma {:induction false} AscendingUnique(ids: seq<int>, s: set<int>)
    requires StrictlyAscending(ids)
    requires forall id :: id in ids <==> id in s
    ensures ids == Ascending(s)
    decreases |ids|
  {
    if ids == [] {
      assert forall id :: id !in s;
      assert s == {};
    } else {
      assert ids[0] in ids;
      var least := LeastOf(s);
      HeadIsLeast(ids, s);
      var tail := ids[1..];
      TailListsRest(ids, s);
      AscendingUnique(tail, s - {least});
      assert ids == [least] + tail;
    }
  }

  lemma HeadIsLeast(ids: seq<int>, s: set<int>)
    requires ids != [] && StrictlyAscending(ids)
    requires forall id :: id in ids <==> id in s
    ensures s != {} && ids[0] == LeastOf(s)
  {
    assert ids[0] in ids;
    var least := LeastOf(s);
    assert least in ids;
    var k :| 0 <= k < |ids| && ids[k] == least;
    assert ids[0] <= ids[k];
    assert least <= ids[0];
  }

  lemma TailListsRest(ids: seq<int>, s: set<int>)
    requires ids != [] && StrictlyAscending(ids)
    requires forall id :: id in ids <==> id in s
    requires s != {} && ids[0] == LeastOf(s)
    ensures StrictlyAscending(ids[1..])
    ensures forall id :: id in ids[1..] <==> id in s - {ids[0]}
  {
    forall id | id in ids[1..] ensures id in s - {ids[0]} {
      var k :| 0 <= k < |ids[1..]| && ids[1..][k] == id;
      assert ids[k + 1] == id;
      assert ids[0] < ids[k + 1];
    }
    forall id | id in s - {ids[0]} ensures id in ids[1..] {
      var k :| 0 <= k < |ids| && ids[k] == id;
      assert k != 0;
      assert ids[1..][k - 1] == id;
    }
  }

  /** The ascending listing of a set starts with its least element, so a
      listing built so far extends by that element. */
  lemma AscendingStep(ids: seq<int>, s: set<int>, least: int)
    requires least in s && forall other :: other in s ==> least <= other
    ensures ids + Ascending(s) == (ids + [least]) + Ascending(s - {least})
  {
    assert least == LeastOf(s) by {
      assert least <= LeastOf(s) && LeastOf(s) <= least;
    }
    var later := Ascending(s - {least});
    assert Ascending(s) == [least] + later;
    assert ids + ([least] + later) == (ids + [least]) + later;
  }

  /** Picks the smallest remaining id. */
  method PickLeast(s: set<int>) returns (least: int)
    requires s != {}
    ensures least in s && forall other :: other in s ==> least <= other
  {
    ghost var smallest := LeastOf(s);
    assert smallest in s && forall other :: other in s ==> smallest <= other;
    least :| least in s && forall other :: other in s ==> least <= other;
  }

  /** `ORDER BY id ASC` over the rows of a table: every id once, ascending. */
  method AscendingKeys<T>(m: map<int, T>) returns (ids: seq<int>)
    ensures StrictlyAscending(ids)
    ensures forall id :: id in ids <==> id in m
    ensures ids == Ascending(m.Keys)
  {
    ids := [];
    var rest := m.Keys;
    while rest != {}
      invariant ids + Ascending(rest) == Ascending(m.Keys)
      decreases |rest|
    {
      var least := PickLeast(rest);
      AscendingStep(ids, rest, least);
      ids := ids + [least];
      rest := rest - {least};
    }
    assert Ascending(rest) == [];
    assert ids == Ascending(m.Keys);
  }
}
