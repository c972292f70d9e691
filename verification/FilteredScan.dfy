/**
 The five list operations that filter locally while paging the controller. They
 share one loop, here generic in the item type and the local filter. The
 controller holds a fixed snapshot and serves pages of whatever size it likes.
 */
module FilteredScan {
  import opened Wrappers
  import opened OffsetToken
  import opened Ceilings

  /** How the controller answers one list request. */
  datatype Answer =
    | Unavailable               // the request fails
    | NoPayload                 // a reply without payload
    | NoPagination(size: PageSize)   // data, but no pagination metadata
    | Serve(size: PageSize)     // data and truthful metadata

  datatype Pagination = Pagination(offset: nat, limit: nat, totalCount: nat)

  datatype Envelope<T> = Envelope(data: seq<T>, meta: Option<Pagination>)

  datatype ListResult<T> = ListResult(items: seq<T>, nextPageToken: string)

  function Min(a: nat, b: nat): nat {
    if a < b then a else b
  }

  /** The contiguous page of at most `size` items at `offset`. */
  function Slice<T>(s: seq<T>, offset: nat, size: nat): seq<T> {
    if offset >= |s| then [] else s[offset..Min(offset + size, |s|)]
  }

  class Controller<T> {
    const snapshot: seq<T>
    const answers: (nat, nat, nat) -> Answer // by request number, offset and requested limit
    var requests: nat

    constructor (snapshot: seq<T>, answers: (nat, nat, nat) -> Answer)
      ensures this.snapshot == snapshot && this.answers == answers && requests == 0
    {
      this.snapshot := snapshot;
      this.answers := answers;
      requests := 0;
    }

    method List(limit: nat, offset: nat) returns (reply: Result<Option<Envelope<T>>>)
      modifies this`requests
      ensures requests == old(requests) + 1
      ensures match answers(old(requests), offset, limit)
        case Unavailable => reply.Err?
        case NoPayload => reply == Ok(None)
        case NoPagination(n) => reply == Ok(Some(Envelope(Slice(snapshot, offset, n), None)))
        case Serve(n) => reply == Ok(Some(Envelope(Slice(snapshot, offset, n),
                                                   Some(Pagination(offset, n, |snapshot|)))))
    {
      var answer := answers(requests, offset, limit);
      requests := requests + 1;
      match answer
      case Unavailable => reply := Err("list");
      case NoPayload => reply := Ok(None);
      case NoPagination(n) => reply := Ok(Some(Envelope(Slice(snapshot, offset, n), None)));
      case Serve(n) =>
        reply := Ok(Some(Envelope(Slice(snapshot, offset, n), Some(Pagination(offset, n, |snapshot|)))));
    }
  }

  // ---------------------------------------------------------------- pagination helpers

  /** `listPagination`: the limit and offset of a call. */
  function ListPagination(pageSize: int, pageToken: string): Result<(PageSize, nat)> {
    var limit := if pageSize <= 0 then 100 else pageSize;
    if pageToken == "" then Ok((limit, 0))
    else
      var parsed := ParseInt(pageToken);
      if parsed.None? || parsed.value < 0 then Err("invalid page token") else Ok((limit, parsed.value))
  }

  /** A page size above zero is the limit, and any other stands for 100. Without a token
      a listing starts at the beginning; an offset in decimal, possibly after zeros, is
      where it starts, if it fits 64 bits. */
  lemma PaginationMeaning(pageSize: int, zeros: nat, offset: nat)
    ensures ListPagination(pageSize, "") == Ok((if pageSize > 0 then pageSize else 100, 0))
    ensures ListPagination(pageSize, Zeros(zeros) + FormatInt(offset)) ==
      if offset < INT64_LIMIT then Ok((if pageSize > 0 then pageSize else 100, offset)) else Err("invalid page token")
  {
    PaddedInt(zeros, offset);
  }

  /** And every token that is accepted is such an offset, possibly after a sign. */
  lemma AcceptedTokens(pageSize: int, token: string)
    requires token != "" && ListPagination(pageSize, token).Ok?
    ensures exists sign, zeros :: IsDecimal(token, sign, zeros, ListPagination(pageSize, token).value.1)
  {
    var sign, zeros := ParsedIsDecimal(token);
  }

  function PageTokenFromOffset(offset: nat, total: nat): string {
    if offset >= total then "" else FormatInt(offset)
  }

  function NextPageOffset(meta: Option<Pagination>): Option<nat> {
    if meta.None? then None
    else
      var next := meta.value.offset + meta.value.limit;
      if next >= meta.value.totalCount then None else Some(next)
  }

  function TotalCount(meta: Option<Pagination>): nat {
    if meta.None? then 0 else meta.value.totalCount
  }

  // ---------------------------------------------------------------- what one call returns

  /** The matching items of `s[lo..hi]`, in order. */
  function Matching<T>(s: seq<T>, matches: T -> bool, lo: nat, hi: nat): seq<T>
    requires hi <= |s|
    decreases hi
  {
    if lo >= hi then []
    else Matching(s, matches, lo, hi - 1) + if matches(s[hi - 1]) then [s[hi - 1]] else []
  }

  /** The page from `offset`: up to the item that fills it, or up to the end. */
  ghost predicate IsPage<T>(s: seq<T>, matches: T -> bool, limit: nat, offset: nat, end: nat, items: seq<T>) {
    && offset <= end <= |s|
    && items == Matching(s, matches, offset, end)
    && ((|items| == limit && offset < end && matches(s[end - 1])) || (|items| < limit && end == |s|))
  }

  /** One past the item that fills the page from `offset` on, `found` matches
      having been collected already; the end of `s` if nothing fills it. */
  function PageEnd<T>(s: seq<T>, matches: T -> bool, limit: nat, offset: nat, found: nat): (end: nat)
    requires offset <= |s| && found < limit
    ensures offset <= end <= |s|
    decreases |s| - offset
  {
    if offset == |s| then offset
    else if !matches(s[offset]) then PageEnd(s, matches, limit, offset + 1, found)
    else if found + 1 == limit then offset + 1
    else PageEnd(s, matches, limit, offset + 1, found + 1)
  }

  function Page<T>(s: seq<T>, matches: T -> bool, limit: nat, offset: nat): ListResult<T>
    requires 0 < limit
  {
    var start := Min(offset, |s|);
    var end := PageEnd(s, matches, limit, start, 0);
    ListResult(Matching(s, matches, start, end), PageTokenFromOffset(end, |s|))
  }

  /** What a call returns of a controller that serves every request. */
  function Listed<T>(s: seq<T>, matches: T -> bool, pageSize: int, pageToken: string): Result<ListResult<T>> {
    var pagination := ListPagination(pageSize, pageToken);
    if pagination.Err? then Err(pagination.error)
    else Ok(Page(s, matches, pagination.value.0, pagination.value.1))
  }

  /** `PageEnd` is where the page ends. */
  lemma {:induction false} PageEndMeaning<T>(s: seq<T>, matches: T -> bool, limit: nat, offset: nat, at: nat)
    requires 0 < limit && offset <= at <= |s|
    requires |Matching(s, matches, offset, at)| < limit
    ensures var end := PageEnd(s, matches, limit, at, |Matching(s, matches, offset, at)|);
      IsPage(s, matches, limit, offset, end, Matching(s, matches, offset, end))
    decreases |s| - at
  {
    if at < |s| {
      if !matches(s[at]) || |Matching(s, matches, offset, at)| + 1 < limit {
        PageEndMeaning(s, matches, limit, offset, at + 1);
      }
    }
  }

  lemma {:induction false} MatchingSplits<T>(s: seq<T>, matches: T -> bool, lo: nat, mid: nat, hi: nat)
    requires lo <= mid <= hi <= |s|
    ensures Matching(s, matches, lo, hi) == Matching(s, matches, lo, mid) + Matching(s, matches, mid, hi)
    decreases hi
  {
    if mid < hi {
      MatchingSplits(s, matches, lo, mid, hi - 1);
    }
  }

  /** A page is determined by where it starts. */
  lemma PageIsUnique<T>(s: seq<T>, matches: T -> bool, limit: nat, offset: nat,
                        e: nat, items: seq<T>, f: nat, other: seq<T>)
    requires IsPage(s, matches, limit, offset, e, items) && IsPage(s, matches, limit, offset, f, other)
    ensures e == f && items == other
  {
    if e < f {
      ShorterPageIsSame(s, matches, limit, offset, e, items, f, other);
    } else if f < e {
      ShorterPageIsSame(s, matches, limit, offset, f, other, e, items);
    }
  }

  lemma ShorterPageIsSame<T>(s: seq<T>, matches: T -> bool, limit: nat, offset: nat,
                             e: nat, items: seq<T>, f: nat, other: seq<T>)
    requires IsPage(s, matches, limit, offset, e, items) && IsPage(s, matches, limit, offset, f, other)
    ensures e >= f
  {
    if e < f {
      MatchingSplits(s, matches, offset, e, f - 1);
    }
  }

  // ---------------------------------------------------------------- the loop

  /** Requests one call makes of a controller that honours the limit. */
  function PageRequests<T>(s: seq<T>, matches: T -> bool, limit: PageSize, offset: nat): nat {
    var start := Min(offset, |s|);
    AtLeastOne(Pages(PageEnd(s, matches, limit, start, 0) - start, limit))
  }

  /** Every request gets data and truthful metadata. */
  ghost predicate AlwaysServes(answers: (nat, nat, nat) -> Answer) {
    forall n, offset, limit :: answers(n, offset, limit).Serve?
  }

  /** Data never comes without metadata, though a request may fail. */
  ghost predicate AlwaysPaginates(answers: (nat, nat, nat) -> Answer) {
    forall n, offset, limit :: !answers(n, offset, limit).NoPagination?
  }

  ghost predicate HonoursLimit(answers: (nat, nat, nat) -> Answer, limit: nat) {
    forall n, offset :: answers(n, offset, limit).Serve? && answers(n, offset, limit).size == limit
  }

  /** The loop of `ListServices`, `ListServicePolicies`, `ListIdentitiesByTag`,
      `ListServicesByTag` and `ListServicePoliciesByTag`. The page does not depend
      on the sizes in which the controller serves its data; without pagination
      metadata the loop stops early, with a prefix of the page. */
  method Scan<T>(controller: Controller<T>, matches: T -> bool, pageSize: int, pageToken: string)
    returns (result: Result<ListResult<T>>)
    modifies controller`requests
    ensures ListPagination(pageSize, pageToken).Err? ==> result.Err? && controller.requests == old(controller.requests)
    ensures AlwaysServes(controller.answers) ==>
      result == Listed(controller.snapshot, matches, pageSize, pageToken)
    ensures AlwaysPaginates(controller.answers) && result.Ok? ==>
      result == Listed(controller.snapshot, matches, pageSize, pageToken)
    ensures result.Ok? ==>
      && Listed(controller.snapshot, matches, pageSize, pageToken).Ok?
      && result.value.items <= Listed(controller.snapshot, matches, pageSize, pageToken).value.items
    ensures ListPagination(pageSize, pageToken).Ok? ==>
      var (limit, offset) := ListPagination(pageSize, pageToken).value;
      HonoursLimit(controller.answers, limit) ==>
        controller.requests - old(controller.requests) ==
          PageRequests(controller.snapshot, matches, limit, offset)
  {
    var pagination := ListPagination(pageSize, pageToken);
    if pagination.Err? {
      return Err(pagination.error);
    }
    result := ScanFrom(controller, matches, pagination.value.0, pagination.value.1);
  }

  method ScanFrom<T>(controller: Controller<T>, matches: T -> bool, limit: PageSize, offset: nat)
    returns (result: Result<ListResult<T>>)
    modifies controller`requests
    ensures AlwaysServes(controller.answers) ==> result.Ok?
    ensures AlwaysPaginates(controller.answers) && result.Ok? ==>
      result.value == Page(controller.snapshot, matches, limit, offset)
    ensures result.Ok? ==> result.value.items <= Page(controller.snapshot, matches, limit, offset).items
    ensures HonoursLimit(controller.answers, limit) ==>
      controller.requests - old(controller.requests) ==
        PageRequests(controller.snapshot, matches, limit, offset)
  {
    ghost var s := controller.snapshot;
    ghost var start := Min(offset, |s|);
    ghost var end := PageEnd(s, matches, limit, start, 0);
    ghost var spent, at := 0, start;
    var items: seq<T> := [];
    var currentOffset := offset;
    while true
      invariant start <= at <= end && at == Min(currentOffset, |s|)
      invariant currentOffset == offset || currentOffset < |s|
      invariant spent == 0 ==> at == start
      invariant controller.requests == old(controller.requests) + spent
      invariant items == Matching(s, matches, start, at) && |items| < limit
      invariant PageEnd(s, matches, limit, at, |items|) == end
      invariant HonoursLimit(controller.answers, limit) ==>
        Pages(end - start, limit) == spent + Pages(end - at, limit)
      decreases |s| - currentOffset
    {
      var turn := TakeTurn(controller, matches, limit, currentOffset, items, start);
      spent := spent + 1;
      PagesOfOne(end - at, limit);
      match turn
      case Failed(error) =>
        return Err(error);
      case Finished(page) =>
        return Ok(page);
      case GoOn(more, nextOffset) =>
        items, currentOffset, at := more, nextOffset, nextOffset;
    }
  }

  /** How one turn of the loop ends. */
  datatype Turn<T> =
    | Failed(error: string)
    | Finished(page: ListResult<T>)
    | GoOn(items: seq<T>, nextOffset: nat)

  method TakeTurn<T>(controller: Controller<T>, matches: T -> bool, limit: PageSize, currentOffset: nat,
                     items: seq<T>, ghost start: nat)
    returns (turn: Turn<T>)
    requires start <= Min(currentOffset, |controller.snapshot|)
    requires items == Matching(controller.snapshot, matches, start, Min(currentOffset, |controller.snapshot|))
    requires |items| < limit
    modifies controller`requests
    ensures controller.requests == old(controller.requests) + 1
    ensures AlwaysServes(controller.answers) || HonoursLimit(controller.answers, limit) ==> !turn.Failed?
    ensures
      var s := controller.snapshot;
      var at := Min(currentOffset, |s|);
      var end := PageEnd(s, matches, limit, at, |items|);
      match turn
      case Failed(_) => true
      case Finished(page) =>
        && page.items <= Matching(s, matches, start, end)
        && (AlwaysPaginates(controller.answers) ==>
              page == ListResult(Matching(s, matches, start, end), PageTokenFromOffset(end, |s|)))
        && (HonoursLimit(controller.answers, limit) ==> end - at <= limit)
      case GoOn(more, nextOffset) =>
        && currentOffset == at < nextOffset < |s|
        && more == Matching(s, matches, start, nextOffset) && |more| < limit
        && PageEnd(s, matches, limit, nextOffset, |more|) == end
        && (HonoursLimit(controller.answers, limit) ==> nextOffset == at + limit)
  {
    ghost var s := controller.snapshot;
    ghost var at := Min(currentOffset, |s|);
    ghost var end := PageEnd(s, matches, limit, at, |items|);
    var reply := Fetch(controller, limit, currentOffset);
    if reply.Err? {
      return Failed(reply.error);
    }
    var Envelope(data, meta) := reply.value;
    var more, taken, full := TakeMatches(data, matches, limit, items, s, start, at);
    if full {
      var nextOffset := currentOffset + taken;
      return Finished(ListResult(more, PageTokenFromOffset(nextOffset, TotalCount(meta))));
    }
    var next := NextPageOffset(meta);
    if next.None? {
      MatchingSplits(s, matches, start, at + |data|, end);
      return Finished(ListResult(more, ""));
    }
    return GoOn(more, next.value);
  }

  /** One request of the loop, and the checks on its reply. */
  method Fetch<T>(controller: Controller<T>, limit: nat, offset: nat) returns (reply: Result<Envelope<T>>)
    modifies controller`requests
    ensures controller.requests == old(controller.requests) + 1
    ensures AlwaysServes(controller.answers) ==> reply.Ok?
    ensures AlwaysPaginates(controller.answers) && reply.Ok? ==> reply.value.meta.Some?
    ensures HonoursLimit(controller.answers, limit) ==>
      reply.Ok? && reply.value.meta == Some(Pagination(offset, limit, |controller.snapshot|))
    ensures reply.Ok? && reply.value.meta.Some? ==>
      && reply.value.meta.value.offset == offset
      && 1 <= reply.value.meta.value.limit
      && reply.value.meta.value.totalCount == |controller.snapshot|
      && |reply.value.data| ==
           Min(reply.value.meta.value.limit, |controller.snapshot| - Min(offset, |controller.snapshot|))
    ensures reply.Ok? ==>
      var at := Min(offset, |controller.snapshot|);
      && at + |reply.value.data| <= |controller.snapshot|
      && reply.value.data == controller.snapshot[at..at + |reply.value.data|]
  {
    var listed := controller.List(limit, offset);
    if listed.Err? {
      return Err(listed.error);
    }
    if listed.value.None? {
      return Err("missing payload");
    }
    return Ok(listed.value.value);
  }

  lemma PagesOfOne(n: int, size: PageSize)
    ensures n <= size ==> Pages(n, size) == if n <= 0 then 0 else 1
  {
  }

  /** The loop over the data of one reply, which sits at `at` in the snapshot:
      it stops at the item that fills the page. */
  method TakeMatches<T>(data: seq<T>, matches: T -> bool, limit: nat, items: seq<T>,
                        ghost s: seq<T>, ghost start: nat, ghost at: nat)
    returns (items': seq<T>, taken: nat, full: bool)
    requires start <= at <= at + |data| <= |s| && data == s[at..at + |data|]
    requires items == Matching(s, matches, start, at) && |items| < limit
    ensures full ==>
      && 1 <= taken <= |data|
      && PageEnd(s, matches, limit, at, |items|) == at + taken
      && items' == Matching(s, matches, start, at + taken)
    ensures !full ==>
      && items' == Matching(s, matches, start, at + |data|) && |items'| < limit
      && PageEnd(s, matches, limit, at, |items|) == PageEnd(s, matches, limit, at + |data|, |items'|)
  {
    items' := items;
    var index := 0;
    while index < |data|
      invariant 0 <= index <= |data|
      invariant items' == Matching(s, matches, start, at + index) && |items'| < limit
      invariant PageEnd(s, matches, limit, at, |items|) == PageEnd(s, matches, limit, at + index, |items'|)
    {
      assert data[index] == s[at + index];
      if matches(data[index]) {
        items' := items' + [data[index]];
        if |items'| == limit {
          return items', index + 1, true;
        }
      }
      index := index + 1;
    }
    return items', index, false;
  }

  // ---------------------------------------------------------------- walks

  function TokenBefore<T>(pages: seq<ListResult<T>>, i: nat): string
    requires i <= |pages|
  {
    if i == 0 then "" else pages[i - 1].nextPageToken
  }

  /** Calls that follow the tokens from "" on, each with a page size of its own. */
  ghost predicate IsWalk<T>(s: seq<T>, matches: T -> bool, sizes: seq<int>, pages: seq<ListResult<T>>)
    decreases |pages|
  {
    && |pages| == |sizes|
    && (pages == [] ||
        var n := |pages| - 1;
        && IsWalk(s, matches, sizes[..n], pages[..n])
        && (n > 0 ==> TokenBefore(pages, n) != "")
        && Listed(s, matches, sizes[n], TokenBefore(pages, n)) == Ok(pages[n]))
  }

  /** The walk ended: the last token is "". */
  ghost predicate IsComplete<T>(pages: seq<ListResult<T>>) {
    pages != [] && TokenBefore(pages, |pages|) == ""
  }

  function Items<T>(pages: seq<ListResult<T>>): seq<T> {
    if pages == [] then [] else Items(pages[..|pages| - 1]) + pages[|pages| - 1].items
  }

  function LimitOf(pageSize: int): PageSize {
    if pageSize <= 0 then 100 else pageSize
  }

  lemma TokenOfPrefix<T>(pages: seq<ListResult<T>>)
    requires pages != []
    ensures TokenBefore(pages[..|pages| - 1], |pages| - 1) == TokenBefore(pages, |pages| - 1)
  {
  }

  /** Where the next page of a walk starts. */
  ghost predicate Reached<T>(s: seq<T>, pages: seq<ListResult<T>>, end: nat) {
    && end <= |s|
    && (pages == [] ==> end == 0)
    && (pages != [] ==> TokenBefore(pages, |pages|) == PageTokenFromOffset(end, |s|) && (end == 0 ==> s == []))
  }

  /** One page of a walk: it takes up where the walk had got to. */
  lemma NextPage<T>(s: seq<T>, matches: T -> bool, pageSize: int, pages: seq<ListResult<T>>, start: nat,
                    page: ListResult<T>)
    returns (end: nat)
    requires |s| < INT64_LIMIT
    requires Reached(s, pages, start) && (pages != [] ==> TokenBefore(pages, |pages|) != "")
    requires Listed(s, matches, pageSize, TokenBefore(pages, |pages|)) == Ok(page)
    ensures ListPagination(pageSize, TokenBefore(pages, |pages|)) == Ok((LimitOf(pageSize), start))
    ensures end == PageEnd(s, matches, LimitOf(pageSize), start, 0)
    ensures IsPage(s, matches, LimitOf(pageSize), start, end, page.items)
    ensures page.nextPageToken == PageTokenFromOffset(end, |s|)
    ensures page.nextPageToken == "" <==> end == |s|
    ensures end == 0 ==> s == []
  {
    if pages != [] {
      OffsetRoundTrip(start);
    }
    end := PageEnd(s, matches, LimitOf(pageSize), start, 0);
    PageEndMeaning(s, matches, LimitOf(pageSize), start, start);
  }

  /** The pages of a walk, so far, are the matching items up to where it got. */
  lemma {:induction false} WalkSoFar<T>(s: seq<T>, matches: T -> bool, sizes: seq<int>, pages: seq<ListResult<T>>)
    returns (end: nat)
    requires |s| < INT64_LIMIT
    requires IsWalk(s, matches, sizes, pages)
    ensures Reached(s, pages, end)
    ensures Items(pages) == Matching(s, matches, 0, end)
    decreases |pages|
  {
    if pages == [] {
      return 0;
    }
    var n := |pages| - 1;
    TokenOfPrefix(pages);
    var start := WalkSoFar(s, matches, sizes[..n], pages[..n]);
    end := NextPage(s, matches, sizes[n], pages[..n], start, pages[n]);
    MatchingSplits(s, matches, 0, start, end);
  }

  /** A complete walk returns exactly the matching items, in controller order. */
  lemma WalkIsComplete<T>(s: seq<T>, matches: T -> bool, sizes: seq<int>, pages: seq<ListResult<T>>)
    requires |s| < INT64_LIMIT
    requires IsWalk(s, matches, sizes, pages) && IsComplete(pages)
    ensures Items(pages) == Matching(s, matches, 0, |s|)
  {
    var end := WalkSoFar(s, matches, sizes, pages);
  }

  /** What the last page of a walk covers. */
  lemma LastPage<T>(s: seq<T>, matches: T -> bool, sizes: seq<int>, pages: seq<ListResult<T>>)
    returns (start: nat, end: nat)
    requires |s| < INT64_LIMIT
    requires IsWalk(s, matches, sizes, pages) && pages != []
    ensures
      var n := |pages| - 1;
      var limit := LimitOf(sizes[n]);
      && IsWalk(s, matches, sizes[..n], pages[..n])
      && (n > 0 ==> TokenBefore(pages[..n], n) != "")
      && Reached(s, pages[..n], start) && Reached(s, pages, end) && start <= end
      && ListPagination(sizes[n], TokenBefore(pages, n)) == Ok((limit, start))
      && end == PageEnd(s, matches, limit, start, 0)
      && Items(pages[..n]) == Matching(s, matches, 0, start)
      && |pages[n].items| <= limit
      && (end < |s| ==> |pages[n].items| == limit)
      && (TokenBefore(pages, |pages|) == "" <==> end == |s|)
  {
    var n := |pages| - 1;
    TokenOfPrefix(pages);
    start := WalkSoFar(s, matches, sizes[..n], pages[..n]);
    end := NextPage(s, matches, sizes[n], pages[..n], start, pages[n]);
  }

  lemma LastPageSize<T>(s: seq<T>, matches: T -> bool, sizes: seq<int>, pages: seq<ListResult<T>>)
    requires |s| < INT64_LIMIT
    requires IsWalk(s, matches, sizes, pages) && pages != []
    ensures var n := |pages| - 1;
      && n < |sizes| && |pages[n].items| <= LimitOf(sizes[n])
      && (pages[n].nextPageToken != "" ==> |pages[n].items| == LimitOf(sizes[n]))
  {
    var start, end := LastPage(s, matches, sizes, pages);
  }

  /** No page exceeds its limit, and a page with a token is full. */
  lemma {:induction false} PageSizes<T>(s: seq<T>, matches: T -> bool, sizes: seq<int>, pages: seq<ListResult<T>>,
                                        i: nat)
    requires |s| < INT64_LIMIT
    requires IsWalk(s, matches, sizes, pages) && i < |pages|
    ensures i < |sizes| && |pages[i].items| <= LimitOf(sizes[i])
    ensures pages[i].nextPageToken != "" ==> |pages[i].items| == LimitOf(sizes[i])
    decreases |pages|
  {
    var n := |pages| - 1;
    if i == n {
      LastPageSize(s, matches, sizes, pages);
    } else {
      PageSizes(s, matches, sizes[..n], pages[..n], i);
    }
  }

  lemma {:induction false} FullPages<T>(s: seq<T>, matches: T -> bool, sizes: seq<int>, pages: seq<ListResult<T>>,
                                        limit: PageSize)
    requires |s| < INT64_LIMIT
    requires IsWalk(s, matches, sizes, pages)
    requires forall i :: 0 <= i < |sizes| ==> limit <= LimitOf(sizes[i])
    requires pages == [] || TokenBefore(pages, |pages|) != ""
    ensures |pages| * limit <= |Items(pages)|
    decreases |pages|
  {
    if pages != [] {
      var n := |pages| - 1;
      var start, end := LastPage(s, matches, sizes, pages);
      FullPages(s, matches, sizes[..n], pages[..n], limit);
      Product(n, limit);
    }
  }

  /** All pages but the last are full of matching items. */
  lemma MatchesFillPages<T>(s: seq<T>, matches: T -> bool, sizes: seq<int>, pages: seq<ListResult<T>>, limit: PageSize)
    requires |s| < INT64_LIMIT
    requires IsWalk(s, matches, sizes, pages) && pages != []
    requires forall i :: 0 <= i < |sizes| ==> limit <= LimitOf(sizes[i])
    ensures (|pages| - 1) * limit <= |Matching(s, matches, 0, |s|)|
  {
    var n := |pages| - 1;
    var start, end := LastPage(s, matches, sizes, pages);
    FullPages(s, matches, sizes[..n], pages[..n], limit);
    MatchingSplits(s, matches, 0, start, |s|);
  }

  /** A walk ends: it has at most one page more than there are matching items. */
  lemma WalkEnds<T>(s: seq<T>, matches: T -> bool, sizes: seq<int>, pages: seq<ListResult<T>>)
    requires |s| < INT64_LIMIT
    requires IsWalk(s, matches, sizes, pages)
    ensures |pages| <= |Matching(s, matches, 0, |s|)| + 1
  {
    if pages != [] {
      MatchesFillPages(s, matches, sizes, pages, 1);
    }
  }

  lemma TokenIsAccepted<T>(s: seq<T>, pages: seq<ListResult<T>>, end: nat, pageSize: int)
    requires |s| < INT64_LIMIT && Reached(s, pages, end)
    ensures ListPagination(pageSize, TokenBefore(pages, |pages|)).Ok?
  {
    OffsetRoundTrip(end);
  }

  lemma WalkGrows<T>(s: seq<T>, matches: T -> bool, sizes: seq<int>, pages: seq<ListResult<T>>, pageSize: int,
                     page: ListResult<T>)
    requires IsWalk(s, matches, sizes, pages) && !IsComplete(pages)
    requires Listed(s, matches, pageSize, TokenBefore(pages, |pages|)) == Ok(page)
    ensures IsWalk(s, matches, sizes + [pageSize], pages + [page])
  {
    var n := |pages|;
    assert (sizes + [pageSize])[..n] == sizes && (pages + [page])[..n] == pages;
    assert TokenBefore(pages + [page], n) == TokenBefore(pages, n);
  }

  /** A token that a walk got is accepted, with any page size, and the page it
      leads to carries the walk on. */
  lemma NextPageIsAnswered<T>(s: seq<T>, matches: T -> bool, sizes: seq<int>, pages: seq<ListResult<T>>, pageSize: int)
    requires |s| < INT64_LIMIT
    requires IsWalk(s, matches, sizes, pages) && !IsComplete(pages)
    ensures var next := Listed(s, matches, pageSize, TokenBefore(pages, |pages|));
      next.Ok? && IsWalk(s, matches, sizes + [pageSize], pages + [next.value])
  {
    var end := WalkSoFar(s, matches, sizes, pages);
    TokenIsAccepted(s, pages, end, pageSize);
    WalkGrows(s, matches, sizes, pages, pageSize, Listed(s, matches, pageSize, TokenBefore(pages, |pages|)).value);
  }

  /** A walk can always be completed, so following the tokens terminates. */
  lemma {:induction false} WalkCompletes<T>(s: seq<T>, matches: T -> bool, sizes: seq<int>, pages: seq<ListResult<T>>,
                                            pageSize: int)
    returns (sizes': seq<int>, pages': seq<ListResult<T>>)
    requires |s| < INT64_LIMIT
    requires IsWalk(s, matches, sizes, pages)
    ensures sizes <= sizes' && pages <= pages'
    ensures IsWalk(s, matches, sizes', pages') && IsComplete(pages')
    decreases |Matching(s, matches, 0, |s|)| + 1 - |pages|
  {
    WalkEnds(s, matches, sizes, pages);
    if IsComplete(pages) {
      return sizes, pages;
    }
    var next := Listed(s, matches, pageSize, TokenBefore(pages, |pages|));
    NextPageIsAnswered(s, matches, sizes, pages, pageSize);
    WalkEnds(s, matches, sizes + [pageSize], pages + [next.value]);
    sizes', pages' := WalkCompletes(s, matches, sizes + [pageSize], pages + [next.value], pageSize);
  }

  // ---------------------------------------------------------------- cost

  /** Requests a walk with a constant limit makes of a controller that honours it. */
  function WalkRequests<T>(s: seq<T>, matches: T -> bool, pageSize: int, pages: seq<ListResult<T>>): nat {
    if pages == [] then 0
    else
      var n := |pages| - 1;
      var pagination := ListPagination(pageSize, TokenBefore(pages, n));
      WalkRequests(s, matches, pageSize, pages[..n]) +
        if pagination.Err? then 0 else PageRequests(s, matches, pagination.value.0, pagination.value.1)
  }

  /** Where the last page of a walk starts and ends, and nothing else of it. */
  lemma LastPageSpan<T>(s: seq<T>, matches: T -> bool, pageSize: int, sizes: seq<int>, pages: seq<ListResult<T>>)
    returns (start: nat, end: nat)
    requires |s| < INT64_LIMIT
    requires IsWalk(s, matches, sizes, pages) && pages != [] && sizes[|pages| - 1] == pageSize
    ensures Reached(s, pages[..|pages| - 1], start) && Reached(s, pages, end)
    ensures |pages| > 1 ==> TokenBefore(pages[..|pages| - 1], |pages| - 1) != ""
    ensures ListPagination(pageSize, TokenBefore(pages, |pages| - 1)) == Ok((LimitOf(pageSize), start))
    ensures end == PageEnd(s, matches, LimitOf(pageSize), start, 0)
  {
    start, end := LastPage(s, matches, sizes, pages);
  }

  lemma WalkRequestsSplit<T>(s: seq<T>, matches: T -> bool, pageSize: int, pages: seq<ListResult<T>>, start: nat,
                             end: nat)
    requires pages != [] && start <= |s| && end == PageEnd(s, matches, LimitOf(pageSize), start, 0)
    requires ListPagination(pageSize, TokenBefore(pages, |pages| - 1)) == Ok((LimitOf(pageSize), start))
    ensures WalkRequests(s, matches, pageSize, pages) ==
      WalkRequests(s, matches, pageSize, pages[..|pages| - 1]) + AtLeastOne(Pages(end - start, LimitOf(pageSize)))
  {
    OnePageRequests(s, matches, LimitOf(pageSize), start);
  }

  lemma PageEndMoves<T>(s: seq<T>, matches: T -> bool, limit: PageSize, start: nat)
    requires start < |s|
    ensures start < PageEnd(s, matches, limit, start, 0)
  {
  }

  lemma LaterPagesStartLater<T>(s: seq<T>, pages: seq<ListResult<T>>, start: nat)
    requires pages != [] && Reached(s, pages[..|pages| - 1], start)
    ensures |pages| > 1 && TokenBefore(pages[..|pages| - 1], |pages| - 1) != "" ==> 0 < start < |s|
  {
  }

  /** The last page of a walk with a constant page size: where it starts and ends, and
      what it adds to the requests. */
  lemma LastPageRequests<T>(s: seq<T>, matches: T -> bool, pageSize: int, sizes: seq<int>, pages: seq<ListResult<T>>)
    returns (start: nat, end: nat)
    requires |s| < INT64_LIMIT
    requires IsWalk(s, matches, sizes, pages) && pages != [] && sizes[|pages| - 1] == pageSize
    ensures Reached(s, pages[..|pages| - 1], start) && Reached(s, pages, end)
    ensures |pages| > 1 ==> TokenBefore(pages[..|pages| - 1], |pages| - 1) != ""
    ensures end == PageEnd(s, matches, LimitOf(pageSize), start, 0)
    ensures WalkRequests(s, matches, pageSize, pages) ==
      WalkRequests(s, matches, pageSize, pages[..|pages| - 1]) + AtLeastOne(Pages(end - start, LimitOf(pageSize)))
  {
    start, end := LastPageSpan(s, matches, pageSize, sizes, pages);
    WalkRequestsSplit(s, matches, pageSize, pages, start, end);
  }

  lemma {:induction false} RequestsSoFar<T>(s: seq<T>, matches: T -> bool, pageSize: int, sizes: seq<int>,
                                            pages: seq<ListResult<T>>)
    returns (end: nat)
    requires |s| < INT64_LIMIT
    requires IsWalk(s, matches, sizes, pages) && pages != []
    requires forall i :: 0 <= i < |sizes| ==> sizes[i] == pageSize
    ensures Reached(s, pages, end)
    ensures WalkRequests(s, matches, pageSize, pages) <= AtLeastOne(Pages(end, LimitOf(pageSize))) + |pages| - 1
    decreases |pages|
  {
    var n := |pages| - 1;
    var start;
    start, end := LastPageRequests(s, matches, pageSize, sizes, pages);
    if n == 0 {
      assert start == 0;
    } else {
      var before := RequestsSoFar(s, matches, pageSize, sizes[..n], pages[..n]);
      ReachedOnce(s, pages[..n], start, before);
      LaterPage(s, matches, pages, LimitOf(pageSize), start, end, WalkRequests(s, matches, pageSize, pages[..n]),
                WalkRequests(s, matches, pageSize, pages));
    }
  }

  /** A page after the first, of a walk that had come to `start` with `requests`. */
  lemma LaterPage<T>(s: seq<T>, matches: T -> bool, pages: seq<ListResult<T>>, limit: PageSize, start: nat, end: nat,
                     requests: nat, total: nat)
    requires |pages| > 1 && Reached(s, pages[..|pages| - 1], start)
    requires TokenBefore(pages[..|pages| - 1], |pages| - 1) != ""
    requires end == PageEnd(s, matches, limit, start, 0)
    requires requests <= AtLeastOne(Pages(start, limit)) + |pages| - 2
    requires total == requests + AtLeastOne(Pages(end - start, limit))
    ensures total <= AtLeastOne(Pages(end, limit)) + |pages| - 1
  {
    LaterPagesStartLater(s, pages, start);
    PageEndMoves(s, matches, limit, start);
    MoreRequests(requests, |pages| - 1, start, end, limit);
  }

  /** A page from `start` to `end` adds to the bound at most what it gains. */
  lemma MoreRequests(requests: nat, pages: nat, start: nat, end: nat, limit: PageSize)
    requires 0 < start < end
    requires requests <= AtLeastOne(Pages(start, limit)) + pages - 1
    ensures requests + AtLeastOne(Pages(end - start, limit)) <= AtLeastOne(Pages(end, limit)) + pages
  {
    PagesOfSum(start, end - start, limit);
  }

  lemma OnePageRequests<T>(s: seq<T>, matches: T -> bool, limit: PageSize, start: nat)
    requires start <= |s|
    ensures PageRequests(s, matches, limit, start) ==
      AtLeastOne(Pages(PageEnd(s, matches, limit, start, 0) - start, limit))
  {
    assert Min(start, |s|) == start;
  }

  lemma ReachedOnce<T>(s: seq<T>, pages: seq<ListResult<T>>, e: nat, f: nat)
    requires |s| < INT64_LIMIT && pages != [] && TokenBefore(pages, |pages|) != ""
    requires Reached(s, pages, e) && Reached(s, pages, f)
    ensures e == f
  {
    OffsetRoundTrip(e);
    OffsetRoundTrip(f);
  }

  lemma CompleteHasReachedAll<T>(s: seq<T>, pages: seq<ListResult<T>>, end: nat)
    requires |s| < INT64_LIMIT
    requires IsComplete(pages) && Reached(s, pages, end)
    ensures end == |s|
  {
    OffsetRoundTrip(end);
  }

  /** A complete walk over N items with m matches makes at most
      max(1, ceil(N / limit)) + floor(m / limit) requests. */
  lemma WalkCost<T>(s: seq<T>, matches: T -> bool, pageSize: int, sizes: seq<int>, pages: seq<ListResult<T>>)
    requires |s| < INT64_LIMIT
    requires IsWalk(s, matches, sizes, pages) && IsComplete(pages)
    requires forall i :: 0 <= i < |sizes| ==> sizes[i] == pageSize
    ensures WalkRequests(s, matches, pageSize, pages) <=
      AtLeastOne(Pages(|s|, LimitOf(pageSize))) + |Matching(s, matches, 0, |s|)| / LimitOf(pageSize)
  {
    var n := |pages| - 1;
    var limit := LimitOf(pageSize);
    var all := RequestsSoFar(s, matches, pageSize, sizes, pages);
    CompleteHasReachedAll(s, pages, all);
    MatchesFillPages(s, matches, sizes, pages, limit);
    Quotient(n, limit, |Matching(s, matches, 0, |s|)|);
  }
}
