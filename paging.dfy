/**
 * The arithmetic of getChatHistory: which slice of a conversation's log a
 * page request reads, and the `hasNextPage` heuristic it answers with.
 */
module Paging {
  import opened Common
  import opened Strconv
  import opened Redis

  /** defaultPageSize */
  const DefaultPageSize: int := 100

  /** One answer of the history endpoint. */
  datatype HistoryPage<T> = HistoryPage(msgs: seq<T>, page: int, pageSize: int, hasNextPage: bool)

  /**
   * A `page` or `pageSize` query parameter: used when it is present, parses
   * with strconv.Atoi and is positive; otherwise the default stands.
   */
  function PositiveParam(param: string, default: int): int {
    if param != "" && Atoi(param).Some? && Atoi(param).value > 0 then Atoi(param).value else default
  }

  /** A parameter is taken exactly when it is a positive Go int; anything else gives the default. */
  lemma PositiveParamSpec(param: string, default: int)
    ensures var v := PositiveParam(param, default);
      && (Atoi(param).Some? && Atoi(param).value > 0 ==> v == Atoi(param).value)
      && (Atoi(param).None? || Atoi(param).value <= 0 ==> v == default)
      && (default > 0 ==> v > 0)
  {
  }

  /** Go's `int` arithmetic: the mathematical result reduced to 64 bits, two's complement. */
  function Wrap(x: int): (r: GoInt)
    ensures MinInt <= x <= MaxInt ==> r == x
  {
    (x - MinInt) % 0x1_0000_0000_0000_0000 + MinInt
  }

  /** The ZRANGE indexes main.go computes: (page-1)*pageSize and start+pageSize-1, each wrapping at 64 bits. */
  function WindowAsWritten(page: GoInt, pageSize: GoInt): (int, int) {
    var start := Wrap((page - 1) * pageSize);
    (start, Wrap(start + pageSize - 1))
  }

  /** The indexes the handler means: the page's first and last position, without overflow. */
  function Window(page: int, pageSize: int): (int, int) {
    var start := (page - 1) * pageSize;
    (start, start + pageSize - 1)
  }

  /** The log entries of one page, read with ZRANGE over the intended window. */
  function PageOf<T>(log: seq<Entry<T>>, page: int, pageSize: int): seq<T>
    requires page > 0 && pageSize > 0
  {
    var (start, stop) := Window(page, pageSize);
    ZRange(log, start, stop)
  }

  /** The page-th block of pageSize messages of the log, cut at its end. */
  function PageSlice<T>(log: seq<Entry<T>>, page: int, pageSize: int): seq<T>
    requires page > 0 && pageSize > 0
  {
    var start := (page - 1) * pageSize;
    MulNonNegative(page - 1, pageSize);
    Members(log)[Min(start, |log|)..Min(start + pageSize, |log|)]
  }

  /**
   * A page is the log's slice from (page-1)*pageSize, of length
   * min(pageSize, what remains); it is empty past the end.
   */
  lemma {:induction false} PageOfSlice<T>(log: seq<Entry<T>>, page: int, pageSize: int)
    requires page > 0 && pageSize > 0
    ensures var start := (page - 1) * pageSize;
      && PageOf(log, page, pageSize) == PageSlice(log, page, pageSize)
      && |PageOf(log, page, pageSize)| == (if start >= |log| then 0 else Min(pageSize, |log| - start))
  {
    var start := (page - 1) * pageSize;
    MulNonNegative(page - 1, pageSize);
    ZRangeSlice(log, start, start + pageSize - 1);
  }

  lemma MulNonNegative(a: nat, b: nat)
    ensures a * b >= 0
  {
  }

  /**
   * getChatHistory: `convId` is required; `page` and `pageSize` default to 1
   * and 100; `hasNextPage` says whether the raw slice was a full page.
   */
  function History<T>(log: seq<Entry<T>>, convId: string, pageParam: string, pageSizeParam: string): (r: Result<HistoryPage<T>, Error>)
    ensures r.Err? <==> convId == ""
    ensures r.Err? ==> r.error == MissingParameter
    ensures r.Ok? ==> var h := r.value;
      && h.page == PositiveParam(pageParam, 1) && h.pageSize == PositiveParam(pageSizeParam, DefaultPageSize)
      && h.page > 0 && h.pageSize > 0
      && h.msgs == PageSlice(log, h.page, h.pageSize)
  {
    if convId == "" then Err(MissingParameter)
    else
      var page := PositiveParam(pageParam, 1);
      var pageSize := PositiveParam(pageSizeParam, DefaultPageSize);
      PageOfSlice(log, page, pageSize);
      var msgs := PageOf(log, page, pageSize);
      Ok(HistoryPage(msgs, page, pageSize, |msgs| == pageSize))
  }

  /**
   * hasNextPage is true exactly when the log reaches the end of the
   * requested page, so a log that ends on a page boundary reports a next
   * page that is empty.
   */
  lemma {:induction false} HasNextPageIff<T>(log: seq<Entry<T>>, convId: string, pageParam: string, pageSizeParam: string)
    requires convId != ""
    ensures History(log, convId, pageParam, pageSizeParam).Ok?
    ensures var h := History(log, convId, pageParam, pageSizeParam).value;
      && h.page > 0 && h.pageSize > 0
      && (h.hasNextPage <==> |log| >= h.page * h.pageSize)
      && |h.msgs| <= h.pageSize
  {
    var page := PositiveParam(pageParam, 1);
    var pageSize := PositiveParam(pageSizeParam, DefaultPageSize);
    PageOfSlice(log, page, pageSize);
    assert (page - 1) * pageSize + pageSize == page * pageSize;
  }

  /** Without `convId` the handler answers 400 and reads nothing. */
  lemma HistoryNeedsConvId<T>(log: seq<Entry<T>>, pageParam: string, pageSizeParam: string)
    ensures History(log, "", pageParam, pageSizeParam) == Err(MissingParameter)
  {
  }

  /** Three messages, pages of two: page 1 is full and has a next page, page 2 holds one and has none. */
  lemma ThreeMessagesTwoPerPage<T>(log: seq<Entry<T>>)
    requires |log| == 3
    ensures var p1 := History(log, "c", "1", "2").value;
      p1.msgs == Members(log)[..2] && p1.hasNextPage
    ensures var p2 := History(log, "c", "2", "2").value;
      p2.msgs == Members(log)[2..] && !p2.hasNextPage
  {
    assert Atoi("1") == Some(1) by { assert DigitsValue("1") == 1; }
    assert Atoi("2") == Some(2) by { assert DigitsValue("2") == 2; }
    PageOfSlice(log, 1, 2);
    PageOfSlice(log, 2, 2);
  }

  /** While page*pageSize fits in a Go int, the code's window is the intended one. */
  lemma WindowAsWrittenAgrees(page: GoInt, pageSize: GoInt)
    requires page > 0 && pageSize > 0 && page * pageSize <= MaxInt
    ensures WindowAsWritten(page, pageSize) == Window(page, pageSize)
  {
    MulNonNegative(page - 1, pageSize);
  }

  /**
   * Past that bound the product wraps: page 2^62+1 with pageSize 4 makes
   * (page-1)*pageSize exactly 2^64, which wraps to 0, so a one-message log
   * hands back its first message for a page that lies far beyond its end.
   */
  lemma WindowAsWrittenWraps<T>(log: seq<Entry<T>>)
    requires |log| == 1
    ensures var page, pageSize := 0x4000_0000_0000_0001, 4;
      && WindowAsWritten(page, pageSize) == (0, 3)
      && ZRange(log, WindowAsWritten(page, pageSize).0, WindowAsWritten(page, pageSize).1) == [log[0].member]
      && PageOf(log, page, pageSize) == []
  {
  }
}
