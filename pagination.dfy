/** getPaginatedResults: the sorted, skipped and limited fetch of the records
    a filter selects, the count of all of them, and the number of pages. */
module Pagination {
  import opened FriendModel

  function Min(a: int, b: int): int { if a <= b then a else b }
  function Max(a: int, b: int): int { if a >= b then a else b }

  /** Positions of the stored records that satisfy `f`: the reference for
      how many records a query selects. */
  function MatchingPositions(s: seq<Friendship>, f: Filter): set<nat> {
    set i: nat | i < |s| && Holds(f, s[i])
  }

  /** Adding the last record to a table adds its position, if it matches,
      to the positions of the table before it. */
  lemma MatchingPositionsSnoc(s: seq<Friendship>, f: Filter)
    requires |s| > 0
    ensures var init := s[..|s| - 1];
            |MatchingPositions(s, f)| ==
              |MatchingPositions(init, f)| + (if Holds(f, s[|s| - 1]) then 1 else 0)
  {
    var init := s[..|s| - 1];
    var before, after := MatchingPositions(init, f), MatchingPositions(s, f);
    var lastAt: set<nat> := if Holds(f, s[|s| - 1]) then {|s| - 1} else {};
    forall i: nat ensures i in after <==> i in before + lastAt {
      if i < |init| {
        assert init[i] == s[i];
      }
    }
    assert after == before + lastAt;
    assert before !! lastAt;
  }

  /** The records that satisfy `f`, newest first. The store sorts by
      createdAt descending; the model takes reverse insertion order, which
      agrees with it when createdAt ascends with insertion
      (NewestFirstIsCreatedDescending). */
  function NewestFirst(s: seq<Friendship>, f: Filter): (r: seq<Friendship>)
    ensures |r| == |MatchingPositions(s, f)|
    ensures forall x :: x in r <==> x in s && Holds(f, x)
    decreases |s|
  {
    if |s| == 0 then []
    else
      var last := s[|s| - 1];
      assert s == s[..|s| - 1] + [last];
      MatchingPositionsSnoc(s, f);
      (if Holds(f, last) then [last] else []) + NewestFirst(s[..|s| - 1], f)
  }

  /** `countDocuments(f)`: how many stored records satisfy `f`. */
  function CountDocuments(s: seq<Friendship>, f: Filter): (n: nat)
    ensures n == |MatchingPositions(s, f)|
    ensures n == 0 <==> !AnyMatch(s, f)
    decreases |s|
  {
    if |s| == 0 then 0
    else
      var init := s[..|s| - 1];
      MatchingPositionsSnoc(s, f);
      assert AnyMatch(s, f) <==> AnyMatch(init, f) || Holds(f, s[|s| - 1]) by {
        assert forall i :: 0 <= i < |init| ==> init[i] == s[i];
      }
      CountDocuments(init, f) + (if Holds(f, s[|s| - 1]) then 1 else 0)
  }

  /** The fetch and the count see the same records: the count is the
      length of the full, unpaged selection. */
  lemma CountIsSelectionLength(s: seq<Friendship>, f: Filter)
    ensures |NewestFirst(s, f)| == CountDocuments(s, f)
  {
  }

  /** Newest first agrees with the store's createdAt-descending sort
      whenever createdAt ascends along insertion order. */
  lemma {:induction false} NewestFirstIsCreatedDescending(s: seq<Friendship>, f: Filter)
    requires CreatedAscending(s)
    ensures CreatedDescending(NewestFirst(s, f))
    decreases |s|
  {
    if |s| > 0 {
      var init, last := s[..|s| - 1], s[|s| - 1];
      assert s == init + [last];
      NewestFirstIsCreatedDescending(init, f);
      var rest := NewestFirst(init, f);
      forall x | x in rest ensures x.createdAt <= last.createdAt {
        var k :| 0 <= k < |init| && init[k] == x;
        assert s[k] == x;
      }
      if Holds(f, last) {
        PrependNewest(last, rest);
      }
    }
  }

  /** A record no older than every record of a descending run can lead it. */
  lemma PrependNewest(x: Friendship, rest: seq<Friendship>)
    requires CreatedDescending(rest)
    requires forall y :: y in rest ==> y.createdAt <= x.createdAt
    ensures CreatedDescending([x] + rest)
  {
    var r := [x] + rest;
    forall i, j | 0 <= i < j < |r| ensures r[i].createdAt >= r[j].createdAt {
      assert r[j] == rest[j - 1];
      if i > 0 {
        assert r[i] == rest[i - 1];
      }
    }
  }

  /** `Math.ceil(total / limit)` for a positive integer limit. */
  function TotalPages(total: nat, limit: int): (pages: nat)
    requires limit >= 1
    ensures total <= pages * limit
    ensures pages == 0 || (pages - 1) * limit < total
  {
    var q := (total + limit - 1) / limit;
    var rem := (total + limit - 1) % limit;
    assert total + limit - 1 == q * limit + rem;
    assert q * limit - limit == (q - 1) * limit;
    q
  }

  /** `skip = (page - 1) * limit` */
  function Skip(page: int, limit: int): nat
    requires page >= 1 && limit >= 1
  {
    var n := (page - 1) * limit;
    assert n >= 0 by { assert page - 1 >= 0; }
    n
  }

  /** `.skip(skip).limit(limit)` on a sorted selection. */
  function Window(selected: seq<Friendship>, skip: nat, limit: int): (w: seq<Friendship>)
    requires limit >= 1
    ensures |w| == Min(limit, Max(0, |selected| - skip))
    ensures forall k :: 0 <= k < |w| ==> w[k] == selected[skip + k]
    ensures forall x :: x in w ==> x in selected
  {
    var from := Min(skip, |selected|);
    var to := Min(skip + limit, |selected|);
    selected[from..to]
  }

  datatype Page = Page(results: seq<Friendship>, totalDocuments: nat, totalPages: nat)

  /** `results`, `total` and `pages` are page `page`, at `limit` records
      per page, of the sorted selection `selected`: `total` is its length,
      `pages` is the ceiling of total / limit, and `results` skips
      (page - 1) * limit records of the selection and holds the next ones,
      at most `limit`. */
  predicate PageOf(selected: seq<Friendship>, page: int, limit: int,
                   results: seq<Friendship>, total: nat, pages: nat)
    requires page >= 1 && limit >= 1
  {
    && total == |selected|
    && total <= pages * limit
    && (pages == 0 || (pages - 1) * limit < total)
    && |results| == Min(limit, Max(0, total - Skip(page, limit)))
    && forall k :: 0 <= k < |results| ==> results[k] == selected[Skip(page, limit) + k]
  }

  /** The window of a selection at the page's offset, with the ceiling page
      count, is that page of the selection. */
  lemma WindowIsPage(selected: seq<Friendship>, page: int, limit: int)
    requires page >= 1 && limit >= 1
    ensures PageOf(selected, page, limit, Window(selected, Skip(page, limit), limit),
                   |selected|, TotalPages(|selected|, limit))
  {
  }

  /** getPaginatedResults(query, page, limit): the page skips the first
      (page - 1) * limit records of the newest-first selection and holds at
      most `limit` of them, in selection order; totalDocuments counts every
      record the filter selects and totalPages is its ceiling quotient by
      `limit`. */
  function GetPaginatedResults(s: seq<Friendship>, f: Filter, page: int, limit: int): (p: Page)
    requires page >= 1 && limit >= 1
    ensures p.totalDocuments == |MatchingPositions(s, f)|
    ensures PageOf(NewestFirst(s, f), page, limit, p.results, p.totalDocuments, p.totalPages)
    ensures p.totalDocuments == 0 <==> !AnyMatch(s, f)
    ensures forall x :: x in p.results ==> x in s && Holds(f, x)
  {
    var selected := NewestFirst(s, f);
    var total := CountDocuments(s, f);
    var results := Window(selected, Skip(page, limit), limit);
    WindowIsPage(selected, page, limit);
    Page(results, total, TotalPages(total, limit))
  }

  /** The page that holds position `k` of a selection of `n` records. */
  lemma PageOfPosition(k: nat, n: nat, limit: int)
    requires limit >= 1 && k < n
    ensures Skip(k / limit + 1, limit) <= k < Skip(k / limit + 1, limit) + limit
    ensures k / limit + 1 <= TotalPages(n, limit)
  {
    var q, r := k / limit, k % limit;
    assert k == q * limit + r;
    var pages := TotalPages(n, limit);
    assert q * limit < pages * limit;
    assert (pages - q) * limit > 0;
  }

  /** No selected record is out of reach: each one sits on some page
      between 1 and totalPages. */
  lemma EveryMatchOnSomePage(s: seq<Friendship>, f: Filter, limit: int, x: Friendship)
    requires limit >= 1
    requires x in s && Holds(f, x)
    ensures exists page :: 1 <= page <= GetPaginatedResults(s, f, 1, limit).totalPages &&
                           x in GetPaginatedResults(s, f, page, limit).results
  {
    var selected := NewestFirst(s, f);
    var k :| 0 <= k < |selected| && selected[k] == x;
    var page := k / limit + 1;
    PageOfPosition(k, |selected|, limit);
    var p := GetPaginatedResults(s, f, page, limit);
    assert p.results[k - Skip(page, limit)] == x;
    assert GetPaginatedResults(s, f, 1, limit).totalPages == p.totalPages;
  }
}
