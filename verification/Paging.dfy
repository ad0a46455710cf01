/** Cursor paging: the byte budget of src/response_budget.rs composed with the injected row window and
    probe row of src/query_handlers.rs. */
module Paging {
  import opened Prelude
  import opened Decimal

  /** A row as its compact JSON bytes. */
  type Row = seq<bv8>

  const MAX_RESPONSE_CHARS := 100_000
  const QUERY_GRAPH_ROW_LIMIT := 500

  function Size(rows: seq<Row>): nat {
    if rows == [] then 0 else |rows[0]| + Size(rows[1..])
  }

  lemma {:induction false} SizeConcat(a: seq<Row>, b: seq<Row>)
    ensures Size(a + b) == Size(a) + Size(b)
  {
    if a == [] {
      assert a + b == b;
    } else {
      assert (a + b)[1..] == a[1..] + b;
      SizeConcat(a[1..], b);
    }
  }

  // ----- One page within a byte budget -----

  /** How many rows go on a page that already holds rows of `used` bytes: as many as fit, and the first
      row of a page whatever its size. */
  function Taken(rows: seq<Row>, started: bool, used: nat, budget: nat): (n: nat)
    ensures n <= |rows|
  {
    if rows == [] || (started && used + |rows[0]| > budget) then 0
    else 1 + Taken(rows[1..], true, used + |rows[0]|, budget)
  }

  function Min(a: nat, b: nat): nat {
    if a < b then a else b
  }

  datatype BoundedPage = BoundedPage(items: seq<Row>, totalCount: nat, truncated: bool, nextOffset: Option<nat>)

  function PageOf(values: seq<Row>, offset: nat, budget: nat): BoundedPage {
    var start := Min(offset, |values|);
    var next := start + Taken(values[start..], false, 0, budget);
    BoundedPage(values[start..next], |values|, next < |values|, if next < |values| then Some(next) else None)
  }

  method BoundValuesPaged(values: seq<Row>, offset: nat, charBudget: nat) returns (page: BoundedPage)
    ensures page == PageOf(values, offset, charBudget)
  {
    var totalCount := |values|;
    var start := Min(offset, totalCount);
    var items: seq<Row>, used: nat, consumed: nat := [], 0, 0;
    ghost var whole := Taken(values[start..], false, 0, charBudget);
    while start + consumed < totalCount
      invariant start + consumed <= totalCount
      invariant items == values[start..start + consumed]
      invariant consumed + Taken(values[start + consumed..], items != [], used, charBudget) == whole
    {
      assert values[start + consumed..][1..] == values[start + consumed + 1..];
      var v := values[start + consumed];
      if items != [] && used + |v| > charBudget {
        break;
      }
      used := used + |v|;
      items := items + [v];
      consumed := consumed + 1;
    }
    assert consumed == whole;
    var nextIndex := start + consumed;
    var moreRemain := nextIndex < totalCount;
    page := BoundedPage(items, totalCount, moreRemain, if moreRemain then Some(nextIndex) else None);
  }

  /** The uncursored form: the first page, and whether anything was left out. */
  method BoundValues(values: seq<Row>, charBudget: nat) returns (items: seq<Row>, totalCount: nat, truncated: bool)
    ensures items == PageOf(values, 0, charBudget).items
    ensures totalCount == |values| && (truncated <==> |items| < totalCount)
  {
    totalCount := |values|;
    items := [];
    var used: nat := 0;
    assert values[0..] == values;
    for k := 0 to |values|
      invariant items == values[..k]
      invariant k + Taken(values[k..], k > 0, used, charBudget) == Taken(values, false, 0, charBudget)
    {
      assert values[k..][1..] == values[k + 1..];
      if items != [] && used + |values[k]| > charBudget {
        assert PageOf(values, 0, charBudget).items == values[0..k];
        return items, totalCount, true;
      }
      used := used + |values[k]|;
      items := items + [values[k]];
    }
    truncated := false;
  }

  /** A page may hold these rows: they fit, or there is only one. */
  predicate Fits(rows: seq<Row>, budget: nat) {
    |rows| == 1 || Size(rows) <= budget
  }

  lemma {:induction false} TakenFits(rows: seq<Row>, started: bool, used: nat, budget: nat)
    ensures var n := Taken(rows, started, used, budget);
            && (rows != [] && !started ==> n >= 1)
            && (used + Size(rows[..n]) <= budget || n == 0 || (n == 1 && !started))
            && (n < |rows| ==> (started || n >= 1) && used + Size(rows[..n]) + |rows[n]| > budget)
  {
    var n := Taken(rows, started, used, budget);
    if n > 0 {
      TakenFits(rows[1..], true, used + |rows[0]|, budget);
      assert rows[..n][1..] == rows[1..][..n - 1];
      assert rows[..n][0] == rows[0];
    } else {
      assert rows[..0] == [];
    }
  }

  // ----- One query_graph response -----

  function SaturatingAdd(a: nat, b: nat): nat {
    Min(a + b, U64_MAX)
  }

  /** The LIMIT injected for a page at `offset`: the row window and one probe row past it. */
  function InjectedFetchLimit(offset: nat): nat {
    SaturatingAdd(offset, QUERY_GRAPH_ROW_LIMIT + 1)
  }

  /** One probe row past the window of 500, as long as the limit does not saturate. */
  lemma OneProbeRow(offset: nat)
    requires offset + 501 <= U64_MAX
    ensures InjectedFetchLimit(offset) == offset + 501
  {
  }

  /** The engine under a LIMIT: the first rows of a fixed order. */
  function Fetched(result: seq<Row>, limit: nat): seq<Row> {
    result[..Min(limit, |result|)]
  }

  /** Drops the probe row and says whether it was there. */
  method ClipProbeRow(rows: seq<Row>, offset: nat) returns (clipped: seq<Row>, reached: bool)
    ensures clipped == rows[..Min(SaturatingAdd(offset, QUERY_GRAPH_ROW_LIMIT), |rows|)]
    ensures reached <==> clipped != rows
  {
    var windowEnd := SaturatingAdd(offset, QUERY_GRAPH_ROW_LIMIT);
    reached := |rows| > windowEnd;
    clipped := rows[..Min(windowEnd, |rows|)];
    if !reached {
      assert clipped == rows;
    }
  }

  datatype Response = Response(rows: seq<Row>, totalCount: nat, truncated: bool, nextOffset: Option<nat>)

  function PagedQueryResponse(rows: seq<Row>, offset: nat, rowLimitReached: bool): Response {
    var page := PageOf(rows, offset, MAX_RESPONSE_CHARS);
    var rowWindowEnd := if rowLimitReached then Some(|rows|) else None;
    Response(page.items, page.totalCount, page.truncated || rowLimitReached,
             if page.nextOffset.Some? then page.nextOffset else rowWindowEnd)
  }

  /** The answer to one request over a query whose whole result is `result`. */
  method RunGatedCypher(result: seq<Row>, offset: nat, limitInjected: bool) returns (out: Response)
    ensures out == Answer(result, offset, limitInjected)
  {
    var rows := if limitInjected then Fetched(result, InjectedFetchLimit(offset)) else result;
    var rowLimitReached := false;
    if limitInjected {
      rows, rowLimitReached := ClipProbeRow(rows, offset);
    }
    var page := BoundValuesPaged(rows, offset, MAX_RESPONSE_CHARS);
    var rowWindowEnd := if rowLimitReached then Some(|rows|) else None;
    out := Response(page.items, page.totalCount, page.truncated || rowLimitReached,
                    if page.nextOffset.Some? then page.nextOffset else rowWindowEnd);
  }

  function Answer(result: seq<Row>, offset: nat, limitInjected: bool): Response {
    if !limitInjected then PagedQueryResponse(result, offset, false)
    else
      var rows := Fetched(result, InjectedFetchLimit(offset));
      var windowEnd := SaturatingAdd(offset, QUERY_GRAPH_ROW_LIMIT);
      PagedQueryResponse(rows[..Min(windowEnd, |rows|)], offset, |rows| > windowEnd)
  }

  // ----- What a page is, whoever asks -----

  /** Rows per page at most: the row window, or no bound but the result when the caller set its own LIMIT. */
  function Cap(result: seq<Row>, limitInjected: bool): nat {
    if limitInjected then QUERY_GRAPH_ROW_LIMIT else |result|
  }

  predicate LegalPage(rows: seq<Row>, cap: nat, budget: nat) {
    0 < |rows| <= cap && Fits(rows, budget)
  }

  /** No more rows could have gone on the page that ends at `next`. */
  predicate CannotGrow(result: seq<Row>, from: nat, next: nat, cap: nat, budget: nat)
    requires from <= next <= |result|
  {
    next < |result| ==>
      next - from == cap || Size(result[from..next]) + |result[next]| > budget
  }

  /** Where the page that starts at `from` ends, under a cap on its rows and a budget of bytes. */
  function PageEnd(result: seq<Row>, from: nat, cap: nat, budget: nat): (next: nat)
    requires from <= |result|
    ensures from <= next <= |result|
  {
    from + Taken(result[from..Min(from + cap, |result|)], false, 0, budget)
  }

  lemma ClippedPage(result: seq<Row>, from: nat, cap: nat, budget: nat)
    requires from < |result| && cap > 0
    ensures var next := PageEnd(result, from, cap, budget);
            from < next && LegalPage(result[from..next], cap, budget) && CannotGrow(result, from, next, cap, budget)
  {
    var end := Min(from + cap, |result|);
    var rows := result[from..end];
    TakenFits(rows, false, 0, budget);
    var n := Taken(rows, false, 0, budget);
    assert rows[..n] == result[from..from + n];
    if n < |rows| {
      assert rows[n] == result[from + n];
    }
  }

  /** What the window leaves of the rows fetched with the probe row. */
  lemma WindowOfProbe(result: seq<Row>, offset: nat)
    requires offset <= U64_MAX && |result| + QUERY_GRAPH_ROW_LIMIT < U64_MAX
    ensures var rows := Fetched(result, InjectedFetchLimit(offset));
            var windowEnd := SaturatingAdd(offset, QUERY_GRAPH_ROW_LIMIT);
            var clipped := rows[..Min(windowEnd, |rows|)];
            var start := Min(offset, |result|);
            var end := Min(start + QUERY_GRAPH_ROW_LIMIT, |result|);
            && clipped == result[..end]
            && clipped[Min(offset, |clipped|)..] == result[start..end]
            && (|rows| > windowEnd <==> end < |result|)
  {
  }

  /** The page of a list that was cut after `cap` rows, in terms of the whole list. */
  lemma PageOfWindow(result: seq<Row>, offset: nat, cap: nat, budget: nat)
    ensures var start := Min(offset, |result|);
            var end := Min(start + cap, |result|);
            var next := PageEnd(result, start, cap, budget);
            && next <= end
            && PageOf(result[..end], offset, budget) ==
               BoundedPage(result[start..next], end, next < end, if next < end then Some(next) else None)
  {
    hide Taken;
    var start := Min(offset, |result|);
    var clipped := result[..Min(start + cap, |result|)];
    assert Min(offset, |clipped|) == start;
    assert clipped[start..] == result[start..|clipped|];
    var next := PageEnd(result, start, cap, budget);
    assert clipped[start..next] == result[start..next];
  }

  /** What an answer is made of: the window's end, and the page up to it. */
  lemma AnswerByWindow(result: seq<Row>, offset: nat, limitInjected: bool)
    requires offset <= U64_MAX && |result| + QUERY_GRAPH_ROW_LIMIT < U64_MAX
    ensures var start := Min(offset, |result|);
            var end := Min(start + Cap(result, limitInjected), |result|);
            Answer(result, offset, limitInjected) == PagedQueryResponse(result[..end], offset, end < |result|)
  {
    hide PagedQueryResponse;
    if limitInjected {
      WindowOfProbe(result, offset);
    } else {
      assert result[..|result|] == result;
    }
  }

  /** One response: the rows from the cursor on, as many as the window and the budget allow; `truncated`
      says that a row remains, `next_offset` is then the first one, and `total_count` is exact unless the
      window cut the result. */
  lemma AnswerIsPage(result: seq<Row>, offset: nat, limitInjected: bool)
    requires offset <= U64_MAX && |result| + QUERY_GRAPH_ROW_LIMIT < U64_MAX
    ensures var out, cap := Answer(result, offset, limitInjected), Cap(result, limitInjected);
            var start := Min(offset, |result|);
            var next := start + |out.rows|;
            && next == PageEnd(result, start, cap, MAX_RESPONSE_CHARS) && out.rows == result[start..next]
            && (offset < |result| ==>
                  LegalPage(out.rows, cap, MAX_RESPONSE_CHARS) && CannotGrow(result, start, next, cap, MAX_RESPONSE_CHARS))
            && (out.truncated <==> next < |result|)
            && out.nextOffset == (if next < |result| then Some(next) else None)
            && out.totalCount == (if limitInjected then Min(|result|, offset + QUERY_GRAPH_ROW_LIMIT) else |result|)
  {
    hide Size, Taken, LegalPage, CannotGrow, PageOf, PageEnd, Answer;
    var start, cap := Min(offset, |result|), Cap(result, limitInjected);
    AnswerByWindow(result, offset, limitInjected);
    PageOfWindow(result, offset, cap, MAX_RESPONSE_CHARS);
    if start < |result| {
      ClippedPage(result, start, cap, MAX_RESPONSE_CHARS);
    }
  }

  // ----- Any cap and any budget -----

  /** The pages from a cursor on, each as long as the cap and the budget allow. */
  function Pages(result: seq<Row>, offset: nat, cap: nat, budget: nat): seq<seq<Row>>
    requires offset <= |result| && (offset < |result| ==> cap > 0)
    decreases |result| - offset
  {
    if offset == |result| then [[]]
    else
      ClippedPage(result, offset, cap, budget);
      var next := PageEnd(result, offset, cap, budget);
      [result[offset..next]] + if next < |result| then Pages(result, next, cap, budget) else []
  }

  function Joined(pages: seq<seq<Row>>): seq<Row> {
    if pages == [] then [] else pages[0] + Joined(pages[1..])
  }

  /** The pages hold every row from the cursor on exactly once, in order, and each is legal. */
  lemma {:induction false} PagesVisitAll(result: seq<Row>, offset: nat, cap: nat, budget: nat)
    requires offset <= |result| && (offset < |result| ==> cap > 0)
    ensures Joined(Pages(result, offset, cap, budget)) == result[offset..]
    ensures offset < |result| ==> forall p :: p in Pages(result, offset, cap, budget) ==> LegalPage(p, cap, budget)
    decreases |result| - offset
  {
    hide PageEnd, LegalPage, CannotGrow;
    var pages := Pages(result, offset, cap, budget);
    if offset == |result| {
      assert pages == [[]];
    } else {
      ClippedPage(result, offset, cap, budget);
      var next := PageEnd(result, offset, cap, budget);
      if next < |result| {
        PagesVisitAll(result, next, cap, budget);
        assert pages[1..] == Pages(result, next, cap, budget);
        assert result[offset..] == result[offset..next] + result[next..];
      } else {
        assert pages[1..] == [] && result[offset..next] + [] == result[offset..];
      }
    }
  }

  lemma PartIsSmaller(rows: seq<Row>, a: nat, b: nat, c: nat, d: nat)
    requires a <= b <= c <= d <= |rows|
    ensures Size(rows[b..c]) <= Size(rows[a..d])
  {
    assert rows[a..d] == rows[a..b] + (rows[b..c] + rows[c..d]);
    SizeConcat(rows[a..b], rows[b..c] + rows[c..d]);
    SizeConcat(rows[b..c], rows[c..d]);
  }

  /** A page that starts no earlier than a legal division's page reaches at least as far. */
  lemma GreedyReachesFurther(result: seq<Row>, from: nat, next: nat, theirs: nat, end: nat, cap: nat, budget: nat)
    requires theirs <= from < next <= |result| && theirs <= end <= |result|
    requires CannotGrow(result, from, next, cap, budget) && LegalPage(result[theirs..end], cap, budget)
    ensures end <= next
  {
    if next < end {
      assert result[from..next + 1] == result[from..next] + [result[next]];
      assert Size([result[next]]) == |result[next]|;
      SizeConcat(result[from..next], [result[next]]);
      PartIsSmaller(result, theirs, from, next + 1, end);
    }
  }

  /** A division into legal pages that starts no later has at least as many pages. */
  lemma {:induction false} FewestPages(result: seq<Row>, offset: nat, cap: nat, budget: nat,
                                       division: seq<seq<Row>>, theirs: nat)
    requires theirs <= offset < |result| && cap > 0
    requires Joined(division) == result[theirs..] && forall p :: p in division ==> LegalPage(p, cap, budget)
    ensures |Pages(result, offset, cap, budget)| <= |division|
    decreases |division|
  {
    hide PageEnd, LegalPage, CannotGrow;
    ClippedPage(result, offset, cap, budget);
    var next := PageEnd(result, offset, cap, budget);
    assert division != [];
    var end := theirs + |division[0]|;
    assert result[theirs..][..|division[0]|] == division[0];
    assert division[0] == result[theirs..end] && division[0] in division;
    GreedyReachesFurther(result, offset, next, theirs, end, cap, budget);
    if next < |result| {
      assert Joined(division[1..]) == result[theirs..][|division[0]|..] == result[end..];
      FewestPages(result, next, cap, budget, division[1..], end);
    }
  }

  // ----- The cursor of bound_values_paged, for any budget -----

  /** The pages a client gets by calling with `next_offset` again and again. */
  function CursorPages(values: seq<Row>, offset: nat, budget: nat): seq<seq<Row>>
    requires offset <= |values|
    decreases |values| - offset
  {
    var page := PageOf(values, offset, budget);
    CursorStep(values, offset, budget);
    [page.items] + if page.nextOffset.Some? then CursorPages(values, page.nextOffset.value, budget) else []
  }

  lemma CursorStep(values: seq<Row>, offset: nat, budget: nat)
    requires offset <= |values|
    ensures var page, next := PageOf(values, offset, budget), PageEnd(values, offset, |values|, budget);
            && page.items == values[offset..next]
            && page.nextOffset == (if next < |values| then Some(next) else None)
            && (page.nextOffset.Some? ==> offset < page.nextOffset.value <= |values|)
  {
    PageOfWindow(values, offset, |values|, budget);
    assert values[..|values|] == values;
    if offset < |values| {
      ClippedPage(values, offset, |values|, budget);
    }
  }

  lemma {:induction false} CursorIsPages(values: seq<Row>, offset: nat, budget: nat)
    requires offset <= |values|
    ensures CursorPages(values, offset, budget) == Pages(values, offset, |values|, budget)
    decreases |values| - offset
  {
    hide PageOf, PageEnd, LegalPage, CannotGrow;
    CursorStep(values, offset, budget);
    var page := PageOf(values, offset, budget);
    if page.nextOffset.Some? {
      CursorIsPages(values, page.nextOffset.value, budget);
    } else {
      assert offset == |values| ==> page.items == [];
    }
  }

  /** For every budget, following the cursor from 0 visits every element exactly once, in order, on pages that
      fit, and no division into pages that fit has fewer. */
  lemma CursorIsOptimal(values: seq<Row>, budget: nat, division: seq<seq<Row>>)
    requires Joined(division) == values && forall p :: p in division ==> LegalPage(p, |values|, budget)
    ensures Joined(CursorPages(values, 0, budget)) == values
    ensures values != [] ==>
              (forall p :: p in CursorPages(values, 0, budget) ==> LegalPage(p, |values|, budget))
              && |CursorPages(values, 0, budget)| <= |division|
  {
    hide LegalPage, Pages, CursorPages;
    assert values[0..] == values;
    CursorIsPages(values, 0, budget);
    PagesVisitAll(values, 0, |values|, budget);
    if values != [] {
      FewestPages(values, 0, |values|, budget, division, 0);
    }
  }

  /** From any cursor on. */
  lemma CursorVisitsAll(values: seq<Row>, offset: nat, budget: nat)
    requires offset <= |values|
    ensures Joined(CursorPages(values, offset, budget)) == values[offset..]
    ensures offset < |values| ==> forall p :: p in CursorPages(values, offset, budget) ==> LegalPage(p, |values|, budget)
  {
    hide LegalPage, Pages, CursorPages;
    CursorIsPages(values, offset, budget);
    PagesVisitAll(values, offset, |values|, budget);
  }

  // ----- The cursor of query_graph -----

  /** The pages a client gets by following `next_offset` from a cursor on. */
  function Followed(result: seq<Row>, offset: nat, limitInjected: bool): seq<seq<Row>>
    requires offset <= |result| && |result| + QUERY_GRAPH_ROW_LIMIT < U64_MAX
    decreases |result| - offset
  {
    var out := Answer(result, offset, limitInjected);
    AnswerIsPage(result, offset, limitInjected);
    NextIsAhead(result, offset, limitInjected);
    [out.rows] + if out.nextOffset.Some? then Followed(result, out.nextOffset.value, limitInjected) else []
  }

  lemma NextIsAhead(result: seq<Row>, offset: nat, limitInjected: bool)
    requires offset <= |result| && |result| + QUERY_GRAPH_ROW_LIMIT < U64_MAX
    ensures var out := Answer(result, offset, limitInjected);
            out.nextOffset.Some? ==> offset < out.nextOffset.value <= |result|
  {
    hide Answer, CannotGrow, PageEnd;
    AnswerIsPage(result, offset, limitInjected);
  }

  lemma {:induction false} FollowedIsPages(result: seq<Row>, offset: nat, limitInjected: bool)
    requires offset <= |result| && |result| + QUERY_GRAPH_ROW_LIMIT < U64_MAX
    ensures Followed(result, offset, limitInjected) ==
            Pages(result, offset, Cap(result, limitInjected), MAX_RESPONSE_CHARS)
    decreases |result| - offset
  {
    hide Answer, PageEnd, LegalPage, CannotGrow;
    AnswerIsPage(result, offset, limitInjected);
    NextIsAhead(result, offset, limitInjected);
    var out := Answer(result, offset, limitInjected);
    if out.nextOffset.Some? {
      FollowedIsPages(result, out.nextOffset.value, limitInjected);
    } else {
      assert offset == |result| ==> out.rows == [];
    }
  }

  /** Following the cursor visits every row from there on exactly once, in order, on legal pages. */
  lemma FollowingVisitsAll(result: seq<Row>, offset: nat, limitInjected: bool)
    requires offset <= |result| && |result| + QUERY_GRAPH_ROW_LIMIT < U64_MAX
    ensures Joined(Followed(result, offset, limitInjected)) == result[offset..]
    ensures offset < |result| ==>
              forall p :: p in Followed(result, offset, limitInjected) ==>
                LegalPage(p, Cap(result, limitInjected), MAX_RESPONSE_CHARS)
  {
    hide LegalPage, Pages, Followed;
    FollowedIsPages(result, offset, limitInjected);
    PagesVisitAll(result, offset, Cap(result, limitInjected), MAX_RESPONSE_CHARS);
  }

  /** Paging a whole non-empty result takes the fewest pages there can be. */
  lemma PagingIsOptimal(result: seq<Row>, limitInjected: bool, division: seq<seq<Row>>)
    requires result != [] && |result| + QUERY_GRAPH_ROW_LIMIT < U64_MAX
    requires Joined(division) == result
    requires forall p :: p in division ==> LegalPage(p, Cap(result, limitInjected), MAX_RESPONSE_CHARS)
    ensures |Followed(result, 0, limitInjected)| <= |division|
    ensures Joined(Followed(result, 0, limitInjected)) == result
  {
    hide LegalPage, Pages, Followed;
    assert result[0..] == result;
    FollowedIsPages(result, 0, limitInjected);
    FewestPages(result, 0, Cap(result, limitInjected), MAX_RESPONSE_CHARS, division, 0);
    FollowingVisitsAll(result, 0, limitInjected);
  }
}
