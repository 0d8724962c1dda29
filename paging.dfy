/**
 * `get_data` (get_data.py): ask the observations endpoint for page after page
 * of one query, appending each page to the result, until a page comes back
 * shorter than `per_page`. The page counter lives in the caller's parameter
 * object, which the fetch advances in place.
 */
module Paging {
  import opened Wrappers
  import opened Frames

  const StatusOk := 200

  /** One HTTP answer: its status code and the decoded JSON array of its body. */
  datatype Response = Response(status: int, records: seq<Record>)

  /**
   * The endpoint, seen from one (place_id, introduced) query: the answers to
   * pages 1, 2, ... in order. The remote data is finite, so every page after
   * the last one given is an empty success.
   */
  type Server = (int, bool) -> seq<Response>

  function Answer(pages: seq<Response>, page: int): (resp: Response)
    ensures page > |pages| ==> resp == Response(StatusOk, [])
  {
    if 1 <= page <= |pages| then pages[page - 1] else Response(StatusOk, [])
  }

  /** The source asks for the next page exactly when this one succeeded with `per_page` rows. */
  predicate Continues(resp: Response, perPage: int) {
    resp.status == StatusOk && |resp.records| == perPage
  }

  /** The recursion of `get_data`, from page `page` on. */
  function FetchFrom(pages: seq<Response>, perPage: int, page: int): (r: Result<Table, FetchError>)
    requires perPage > 0 && page >= 1
    ensures r.Success? ==> Rectangular(r.value)
    ensures r.Failure? ==> r.error.HttpStatus? && r.error.code != StatusOk
    decreases |pages| + 1 - page
  {
    var resp := Answer(pages, page);
    if resp.status != StatusOk then Failure(HttpStatus(resp.status))
    else
      var df := FromRecords(resp.records);
      if |resp.records| == perPage then
        var rest :- FetchFrom(pages, perPage, page + 1);
        Success(Concat(df, rest))
      else Success(df)
  }

  /** The page numbers `get_data` requests, in order, starting at `page`. */
  function Requests(pages: seq<Response>, perPage: int, page: int): (calls: seq<int>)
    requires perPage > 0 && page >= 1
    ensures |calls| >= 1 && calls[0] == page
    decreases |pages| + 1 - page
  {
    if Continues(Answer(pages, page), perPage) then [page] + Requests(pages, perPage, page + 1) else [page]
  }

  /** The records of the pages read from `page` on, joined in request order (ghost view of the fetch). */
  ghost function FetchedRecords(pages: seq<Response>, perPage: int, page: int): Result<seq<Record>, FetchError>
    requires perPage > 0 && page >= 1
    decreases |pages| + 1 - page
  {
    var resp := Answer(pages, page);
    if resp.status != StatusOk then Failure(HttpStatus(resp.status))
    else if |resp.records| == perPage then
      var rest :- FetchedRecords(pages, perPage, page + 1);
      Success(resp.records + rest)
    else Success(resp.records)
  }

  ghost function Prepend(recs: seq<Record>, r: Result<seq<Record>, FetchError>): Result<seq<Record>, FetchError> {
    if r.Failure? then r else Success(recs + r.value)
  }

  lemma PrependNothing(r: Result<seq<Record>, FetchError>)
    ensures Prepend([], r) == r
  {
    if r.Success? {
      assert [] + r.value == r.value;
    }
  }

  lemma PrependStep(recs: seq<Record>, pages: seq<Response>, perPage: int, page: int)
    requires perPage > 0 && page >= 1 && Continues(Answer(pages, page), perPage)
    ensures Prepend(recs, FetchedRecords(pages, perPage, page))
         == Prepend(recs + Answer(pages, page).records, FetchedRecords(pages, perPage, page + 1))
  {
    var rest := FetchedRecords(pages, perPage, page + 1);
    if rest.Success? {
      assert recs + (Answer(pages, page).records + rest.value) == (recs + Answer(pages, page).records) + rest.value;
    }
  }

  /**
   * Each follow-up request asks for the page one greater than the previous
   * one: the requests are page, page + 1, page + 2, ...
   */
  lemma {:induction false} RequestsConsecutive(pages: seq<Response>, perPage: int, page: int)
    requires perPage > 0 && page >= 1
    ensures forall j :: 0 <= j < |Requests(pages, perPage, page)| ==> Requests(pages, perPage, page)[j] == page + j
    decreases |pages| + 1 - page
  {
    var calls := Requests(pages, perPage, page);
    if Continues(Answer(pages, page), perPage) {
      var rest := Requests(pages, perPage, page + 1);
      RequestsConsecutive(pages, perPage, page + 1);
      assert calls == [page] + rest;
      forall j | 1 <= j < |calls|
        ensures calls[j] == page + j
      {
        assert calls[j] == rest[j - 1];
        assert 0 <= j - 1 < |rest|;
      }
    }
  }

  /**
   * Another page is requested if and only if the page just read has status
   * 200 and exactly `perPage` rows: every request but the last continues, and
   * the last one does not.
   */
  lemma {:induction false} RequestsContinueIff(pages: seq<Response>, perPage: int, page: int)
    requires perPage > 0 && page >= 1
    ensures var calls := Requests(pages, perPage, page);
      && (forall j :: 0 <= j < |calls| - 1 ==> Continues(Answer(pages, calls[j]), perPage))
      && !Continues(Answer(pages, calls[|calls| - 1]), perPage)
    decreases |pages| + 1 - page
  {
    var calls := Requests(pages, perPage, page);
    if Continues(Answer(pages, page), perPage) {
      var rest := Requests(pages, perPage, page + 1);
      RequestsContinueIff(pages, perPage, page + 1);
      assert calls == [page] + rest;
      forall j | 1 <= j < |calls| - 1
        ensures Continues(Answer(pages, calls[j]), perPage)
      {
        assert calls[j] == rest[j - 1];
      }
      assert calls[|calls| - 1] == rest[|rest| - 1];
    }
  }

  /**
   * The fetch fails exactly when the last page requested answered with a
   * status other than 200, and then with that status: no retry and no
   * partial result.
   */
  lemma {:induction false} FetchFailsIff(pages: seq<Response>, perPage: int, page: int)
    requires perPage > 0 && page >= 1
    ensures var calls := Requests(pages, perPage, page);
      var last := Answer(pages, calls[|calls| - 1]);
      && (FetchFrom(pages, perPage, page).Failure? <==> last.status != StatusOk)
      && (last.status != StatusOk ==> FetchFrom(pages, perPage, page) == Failure(HttpStatus(last.status)))
    decreases |pages| + 1 - page
  {
    if Continues(Answer(pages, page), perPage) {
      FetchFailsIff(pages, perPage, page + 1);
    }
  }

  /**
   * On success the fetch is the table of all records read, page after page
   * in request order; it fails with the first non-200 status met.
   */
  lemma {:induction false} FetchReadsAllRecords(pages: seq<Response>, perPage: int, page: int)
    requires perPage > 0 && page >= 1
    ensures var recs := FetchedRecords(pages, perPage, page);
      FetchFrom(pages, perPage, page) == if recs.Failure? then Failure(recs.error) else Success(FromRecords(recs.value))
    decreases |pages| + 1 - page
  {
    var resp := Answer(pages, page);
    if Continues(resp, perPage) {
      FetchReadsAllRecords(pages, perPage, page + 1);
      var rest := FetchedRecords(pages, perPage, page + 1);
      if rest.Success? {
        FetchContinues(pages, perPage, page);
        ConcatFromRecords(resp.records, rest.value);
      }
    }
  }

  /** A full page is read and the rest of the fetch appended to it. */
  lemma FetchContinues(pages: seq<Response>, perPage: int, page: int)
    requires perPage > 0 && page >= 1 && Continues(Answer(pages, page), perPage)
    requires FetchFrom(pages, perPage, page + 1).Success?
    ensures FetchFrom(pages, perPage, page)
         == Success(Concat(FromRecords(Answer(pages, page).records), FetchFrom(pages, perPage, page + 1).value))
  {
  }

  /** Asking for page `page + 1` of `pages` is asking for page `page` of the pages after the first. */
  lemma {:induction false} FetchShift(pages: seq<Response>, perPage: int, page: int)
    requires perPage > 0 && page >= 1 && |pages| >= 1
    ensures FetchFrom(pages, perPage, page + 1) == FetchFrom(pages[1..], perPage, page)
    decreases |pages| + 1 - page
  {
    assert Answer(pages, page + 1) == Answer(pages[1..], page);
    if Continues(Answer(pages[1..], page), perPage) {
      FetchShift(pages, perPage, page + 1);
    }
  }

  lemma {:induction false} RequestsShift(pages: seq<Response>, perPage: int, page: int)
    requires perPage > 0 && page >= 1 && |pages| >= 1
    ensures |Requests(pages, perPage, page + 1)| == |Requests(pages[1..], perPage, page)|
    decreases |pages| + 1 - page
  {
    assert Answer(pages, page + 1) == Answer(pages[1..], page);
    if Continues(Answer(pages[1..], page), perPage) {
      RequestsShift(pages, perPage, page + 1);
    }
  }

  /** How a server that holds `data` splits it into pages of `perPage` records. */
  function Paginate(data: seq<Record>, perPage: int): (pages: seq<Response>)
    requires perPage > 0
    decreases |data|
  {
    if |data| <= perPage then (if data == [] then [] else [Response(StatusOk, data)])
    else [Response(StatusOk, data[..perPage])] + Paginate(data[perPage..], perPage)
  }

  lemma DivStep(n: int, p: int)
    requires 0 < p <= n
    ensures (n - p) / p + 1 == n / p
  {
    var q1, r1 := (n - p) / p, (n - p) % p;
    var q2, r2 := n / p, n % p;
    var d := q1 + 1 - q2;
    assert d * p == r2 - r1 by {
      assert n - p == q1 * p + r1;
      assert n == q2 * p + r2;
      assert q1 * p + p - q2 * p == (q1 + 1 - q2) * p;
    }
  }

  /**
   * When the endpoint pages through `data` (every page full but the last),
   * fetching from page 1 returns exactly `data`, in order.
   */
  lemma {:induction false} PaginateFetch(data: seq<Record>, perPage: int)
    requires perPage > 0
    ensures FetchFrom(Paginate(data, perPage), perPage, 1) == Success(FromRecords(data))
    decreases |data|
  {
    if |data| < perPage {
      assert Answer(Paginate(data, perPage), 1) == Response(StatusOk, data);
    } else if |data| == perPage {
      PaginateFetchOnePage(data, perPage);
    } else {
      PaginateFetch(data[perPage..], perPage);
      PaginateFetchStep(data, perPage);
    }
  }

  lemma PaginateFetchOnePage(data: seq<Record>, perPage: int)
    requires 0 < perPage == |data|
    ensures FetchFrom(Paginate(data, perPage), perPage, 1) == Success(FromRecords(data))
  {
    var pages := Paginate(data, perPage);
    assert pages == [Response(StatusOk, data)];
    assert Answer(pages, 2) == Response(StatusOk, []);
    assert FetchFrom(pages, perPage, 2) == Success(FromRecords([]));
    ConcatFromRecords(data, []);
    assert data + [] == data;
  }

  lemma PaginateFetchStep(data: seq<Record>, perPage: int)
    requires 0 < perPage < |data|
    requires FetchFrom(Paginate(data[perPage..], perPage), perPage, 1) == Success(FromRecords(data[perPage..]))
    ensures FetchFrom(Paginate(data, perPage), perPage, 1) == Success(FromRecords(data))
  {
    var pages := Paginate(data, perPage);
    var head, tail := data[..perPage], data[perPage..];
    assert pages[1..] == Paginate(tail, perPage);
    assert Answer(pages, 1) == Response(StatusOk, head);
    FetchShift(pages, perPage, 1);
    FetchContinues(pages, perPage, 1);
    ConcatFromRecords(head, tail);
    assert head + tail == data;
  }

  /**
   * Paging through `data` takes |data| / perPage + 1 requests: a final page
   * that happens to be full costs one more, empty, request.
   */
  lemma {:induction false} PaginateRequestCount(data: seq<Record>, perPage: int)
    requires perPage > 0
    ensures |Requests(Paginate(data, perPage), perPage, 1)| == |data| / perPage + 1
    decreases |data|
  {
    var pages := Paginate(data, perPage);
    if |data| < perPage {
      assert Answer(pages, 1) == Response(StatusOk, data);
    } else if |data| == perPage {
      assert pages == [Response(StatusOk, data)];
      assert Answer(pages, 2) == Response(StatusOk, []);
    } else {
      var tail := data[perPage..];
      PaginateRequestCount(tail, perPage);
      assert pages[1..] == Paginate(tail, perPage);
      RequestsShift(pages, perPage, 1);
      DivStep(|data|, perPage);
    }
  }

  /** The pages first, first + 1, ..., last. */
  function Range(first: int, last: int): (r: seq<int>)
    requires first <= last + 1
    ensures |r| == last - first + 1
    ensures forall j :: 0 <= j < |r| ==> r[j] == first + j
    decreases last - first
  {
    if first > last then [] else [first] + Range(first + 1, last)
  }

  /** When pages first .. last - 1 continue and page last does not, these are exactly the requests. */
  lemma {:induction false} RequestsUpTo(pages: seq<Response>, perPage: int, first: int, last: int)
    requires perPage > 0 && 1 <= first <= last && !Continues(Answer(pages, last), perPage)
    requires forall k :: first <= k < last ==> Continues(Answer(pages, k), perPage)
    ensures Requests(pages, perPage, first) == Range(first, last)
    decreases last - first
  {
    if first < last {
      RequestsUpTo(pages, perPage, first + 1, last);
    }
  }

  /** What the fetch from `first` returns once the loop has read `recs` and stops at `page`. */
  lemma FetchAfterLoop(pages: seq<Response>, perPage: int, first: int, page: int, recs: seq<Record>)
    requires perPage > 0 && 1 <= first <= page && !Continues(Answer(pages, page), perPage)
    requires FetchedRecords(pages, perPage, first) == Prepend(recs, FetchedRecords(pages, perPage, page))
    ensures FetchFrom(pages, perPage, first)
         == if Answer(pages, page).status != StatusOk then Failure(HttpStatus(Answer(pages, page).status))
            else Success(FromRecords(recs + Answer(pages, page).records))
  {
    FetchReadsAllRecords(pages, perPage, first);
    PrependNothing(FetchedRecords(pages, perPage, page));
  }

  /** The query parameters of `params.yaml`, which the fetch loop updates in place. */
  class ApiParams {
    var placeId: int
    var introduced: bool
    var page: int
    var perPage: int

    constructor (perPage: int)
      ensures this.perPage == perPage && page == 1
    {
      this.perPage := perPage;
      page := 1;
    }
  }

  /**
   * `get_data(api_params)`: fetch every page of the query `p` describes,
   * starting at `p.page`, and leave `p.page` at the last page requested.
   * Also returns the page numbers requested, one per HTTP call.
   */
  method GetData(p: ApiParams, server: Server) returns (r: Result<Table, FetchError>, calls: seq<int>)
    requires p.perPage > 0 && p.page >= 1
    modifies p`page
    ensures calls == Requests(server(p.placeId, p.introduced), p.perPage, old(p.page))
    ensures r == FetchFrom(server(p.placeId, p.introduced), p.perPage, old(p.page))
    ensures p.page == calls[|calls| - 1]
  {
    var pages := server(p.placeId, p.introduced);
    ghost var first := p.page;
    var recs: seq<Record> := [];
    var resp := Answer(pages, p.page);
    calls := [p.page];
    PrependNothing(FetchedRecords(pages, p.perPage, first));
    while resp.status == StatusOk && |resp.records| == p.perPage
      invariant p.page >= first && resp == Answer(pages, p.page)
      invariant calls == Range(first, p.page)
      invariant forall k :: first <= k < p.page ==> Continues(Answer(pages, k), p.perPage)
      invariant FetchedRecords(pages, p.perPage, first) == Prepend(recs, FetchedRecords(pages, p.perPage, p.page))
      decreases |pages| + 1 - p.page
    {
      PrependStep(recs, pages, p.perPage, p.page);
      recs := recs + resp.records;
      p.page := p.page + 1;
      resp := Answer(pages, p.page);
      calls := calls + [p.page];
    }
    RequestsUpTo(pages, p.perPage, first, p.page);
    FetchAfterLoop(pages, p.perPage, first, p.page, recs);
    if resp.status != StatusOk {
      r := Failure(HttpStatus(resp.status));
    } else {
      r := Success(FromRecords(recs + resp.records));
    }
  }
}
