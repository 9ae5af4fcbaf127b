/** Offset pagination shared by the user and contact-request listings:
    `skip((page - 1) * limit).take(limit)` on the matching rows, and the
    `totalPages = Math.ceil(total / limit)` figure of the response meta. */
module Pagination {
  import opened Common

  /** `value ?? default` for the destructuring defaults `page = 1`, `limit = 10`. */
  function OrDefault(o: Option<int>, default: int): (r: int)
    ensures o.None? ==> r == default
    ensures o.Some? ==> r == o.value
  {
    if o.Some? then o.value else default
  }

  /** Number of rows the query skips: `(page - 1) * limit`. */
  function Skip(page: int, limit: int): (r: int)
    requires page >= 1 && limit >= 1
    ensures r >= 0
    ensures page == 1 ==> r == 0
  {
    MulNonNegative(page - 1, limit);
    (page - 1) * limit
  }

  lemma MulNonNegative(a: int, b: int)
    requires a >= 0 && b >= 0
    ensures a * b >= 0
  {
  }

  lemma MulMonotone(a: int, b: int, c: int)
    requires a <= b && c >= 0
    ensures a * c <= b * c
  {
    assert b * c - a * c == (b - a) * c;
    MulNonNegative(b - a, c);
  }

  /** `Math.ceil(total / limit)`: the least number of pages of `limit` rows
      that hold `total` rows. */
  function CeilDiv(total: nat, limit: int): (pages: nat)
    requires limit >= 1
    ensures pages * limit >= total
    ensures pages == 0 || (pages - 1) * limit < total
  {
    var q := (total + limit - 1) / limit;
    assert q * limit + (total + limit - 1) % limit == total + limit - 1;
    assert (q - 1) * limit == q * limit - limit;
    q
  }

  /** `rows.skip(skip).take(take)`: the rows from offset `skip`, at most `take` of them. */
  function Window<T>(rows: seq<T>, skip: int, take: int): (w: seq<T>)
    requires skip >= 0 && take >= 0
    ensures |w| <= take
    ensures skip >= |rows| ==> w == []
    ensures skip < |rows| ==> |w| == if skip + take <= |rows| then take else |rows| - skip
    ensures forall i :: 0 <= i < |w| ==> w[i] == rows[skip + i]
  {
    if skip >= |rows| then []
    else if skip + take <= |rows| then rows[skip..skip + take]
    else rows[skip..]
  }

  /** The rows shown on page `page` of a listing of `rows` with `limit` rows per page. */
  function PageOf<T>(rows: seq<T>, page: int, limit: int): seq<T>
    requires page >= 1 && limit >= 1
  {
    Window(rows, Skip(page, limit), limit)
  }

  /** A page holds rows exactly when its number is at most `totalPages`. */
  lemma PageNonEmptyIffWithinTotal<T>(rows: seq<T>, page: int, limit: int)
    requires page >= 1 && limit >= 1
    ensures PageOf(rows, page, limit) != [] <==> page <= CeilDiv(|rows|, limit)
  {
    var pages := CeilDiv(|rows|, limit);
    if page <= pages {
      MulMonotone(page - 1, pages - 1, limit);
      assert Skip(page, limit) < |rows|;
    } else {
      MulMonotone(pages, page - 1, limit);
      assert Skip(page, limit) >= |rows|;
    }
  }

  /** `page * limit < total` (the `hasNextPage` test) holds exactly when a
      later page exists: `page < totalPages`. */
  lemma HasNextIffBelowTotal(total: nat, page: int, limit: int)
    requires page >= 1 && limit >= 1
    ensures page * limit < total <==> page < CeilDiv(total, limit)
  {
    var pages := CeilDiv(total, limit);
    if page < pages {
      MulMonotone(page, pages - 1, limit);
    } else {
      MulMonotone(pages, page, limit);
    }
  }

  /** Pages 1..n, read one after the other. */
  function Pages<T>(rows: seq<T>, n: nat, limit: int): seq<T>
    requires limit >= 1
  {
    if n == 0 then [] else Pages(rows, n - 1, limit) + PageOf(rows, n, limit)
  }

  function Min(a: int, b: int): int { if a <= b then a else b }

  /** Reading pages 1..n in turn gives the first n * limit rows, in order. */
  lemma {:induction false} PagesArePrefix<T>(rows: seq<T>, n: nat, limit: int)
    requires limit >= 1
    ensures n * limit >= 0
    ensures Pages(rows, n, limit) == rows[..Min(n * limit, |rows|)]
  {
    MulNonNegative(n, limit);
    if n > 0 {
      PagesArePrefix(rows, n - 1, limit);
      SkipOfNextPage(n, limit);
      NextPageExtends(rows, Skip(n, limit), limit, Pages(rows, n - 1, limit));
    }
  }

  /** Page `n` starts where pages 1..n-1 end and ends at `n * limit`. */
  lemma SkipOfNextPage(n: int, limit: int)
    requires n >= 1 && limit >= 1
    ensures Skip(n, limit) == (n - 1) * limit
    ensures n * limit == Skip(n, limit) + limit
  {
    assert n * limit == (n - 1) * limit + limit;
  }

  lemma NextPageExtends<T>(rows: seq<T>, skip: int, limit: int, before: seq<T>)
    requires skip >= 0 && limit >= 1
    requires before == rows[..Min(skip, |rows|)]
    ensures before + Window(rows, skip, limit) == rows[..Min(skip + limit, |rows|)]
  {
    if skip < |rows| {
      if skip + limit <= |rows| {
        assert rows[..skip] + rows[skip..skip + limit] == rows[..skip + limit];
      } else {
        assert rows[..skip] + rows[skip..] == rows;
      }
    }
  }

  /** Reading every page from 1 to `totalPages` lists each matching row exactly once, in order. */
  lemma AllPagesListEveryRow<T>(rows: seq<T>, limit: int)
    requires limit >= 1
    ensures Pages(rows, CeilDiv(|rows|, limit), limit) == rows
  {
    var pages := CeilDiv(|rows|, limit);
    PagesArePrefix(rows, pages, limit);
    assert rows[..|rows|] == rows;
  }
}
