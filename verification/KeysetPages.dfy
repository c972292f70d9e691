/**
 Keyset pagination over `managed_identities`, with rows inserted and deleted
 between the pages. Ids are ordered by the collation of the database.
 */
module KeysetPages {
  import opened Wrappers
  import opened Ceilings
  import opened StringOrder

  datatype ManagedIdentity = ManagedIdentity(
    zitiIdentityId: string, identityId: string, workloadId: Option<string>,
    identityType: int, zitiServiceId: Option<string>)

  /** The table, by primary key. */
  type Table = map<string, ManagedIdentity>

  datatype ListResult = ListResult(identities: seq<ManagedIdentity>, nextCursor: Option<string>)

  const DEFAULT_PAGE_SIZE := 50
  const MAX_PAGE_SIZE := 100

  function NormalizePageSize(size: int): (limit: PageSize)
    ensures limit <= MAX_PAGE_SIZE
    ensures 1 <= size <= MAX_PAGE_SIZE <==> limit == size
    ensures size <= 0 ==> limit == DEFAULT_PAGE_SIZE == 50
    ensures size > MAX_PAGE_SIZE ==> limit == MAX_PAGE_SIZE == 100
  {
    if size <= 0 then DEFAULT_PAGE_SIZE else if size > MAX_PAGE_SIZE then MAX_PAGE_SIZE else size
  }

  /** Rows are stored under their own id. */
  ghost predicate Keyed(rows: Table) {
    forall id :: id in rows ==> rows[id].zitiIdentityId == id
  }

  predicate After(rank: Order, cursor: Option<string>, id: string) {
    cursor.None? || Less(rank, cursor.value, id)
  }

  /** The WHERE clause without the cursor. */
  predicate Matches(rows: Table, identityType: Option<int>, id: string) {
    id in rows && (identityType.None? || rows[id].identityType == identityType.value)
  }

  predicate Wanted(rank: Order, rows: Table, identityType: Option<int>, cursor: Option<string>, id: string) {
    Matches(rows, identityType, id) && After(rank, cursor, id)
  }

  function Ids(identities: seq<ManagedIdentity>): seq<string> {
    seq(|identities|, i requires 0 <= i < |identities| => identities[i].zitiIdentityId)
  }

  /** Every row handed out is a wanted row of the table, as stored. */
  ghost predicate Stored(rank: Order, rows: Table, identityType: Option<int>, cursor: Option<string>,
                         identities: seq<ManagedIdentity>) {
    forall i :: 0 <= i < |identities| ==>
      && Wanted(rank, rows, identityType, cursor, identities[i].zitiIdentityId)
      && rows[identities[i].zitiIdentityId] == identities[i]
  }

  /** The result of the query with ORDER BY and LIMIT `n`. */
  ghost predicate IsSelection(rank: Order, rows: Table, identityType: Option<int>, cursor: Option<string>,
                              n: nat, selected: seq<ManagedIdentity>) {
    && Stored(rank, rows, identityType, cursor, selected)
    && Increasing(rank, Ids(selected))
    && |selected| <= n
    && (forall id :: Wanted(rank, rows, identityType, cursor, id) && id !in Ids(selected) ==>
          |selected| == n && forall i :: 0 <= i < |selected| ==> Less(rank, Ids(selected)[i], id))
  }

  /** What one call returns: the least wanted rows, at most `limit`; and a cursor
      exactly when wanted rows are left, which then all come after it. */
  ghost predicate IsPage(rank: Order, rows: Table, identityType: Option<int>, cursor: Option<string>,
                         limit: nat, page: ListResult) {
    && Stored(rank, rows, identityType, cursor, page.identities)
    && Increasing(rank, Ids(page.identities))
    && |page.identities| <= limit
    && (page.nextCursor.None? ==>
          forall id :: Wanted(rank, rows, identityType, cursor, id) ==> id in Ids(page.identities))
    && (page.nextCursor.Some? ==>
          && |page.identities| == limit > 0
          && page.nextCursor.value == Ids(page.identities)[limit - 1]
          && (exists id :: Wanted(rank, rows, identityType, cursor, id) && id !in Ids(page.identities))
          && (forall id :: Wanted(rank, rows, identityType, cursor, id) && id !in Ids(page.identities) ==>
                Less(rank, page.nextCursor.value, id)))
  }

  class Store {
    const rank: Order
    var rows: Table

    constructor (rank: Order)
      ensures this.rank == rank && rows == map[]
    {
      this.rank := rank;
      rows := map[];
    }

    /** Executes the query. */
    method Select(identityType: Option<int>, cursor: Option<string>, n: nat)
      returns (selected: seq<ManagedIdentity>)
      requires StrictTotalOrder(rank) && Keyed(rows)
      ensures IsSelection(rank, rows, identityType, cursor, n, selected)
    {
      var left := set id | id in rows && Wanted(rank, rows, identityType, cursor, id);
      selected := [];
      while left != {} && |selected| < n
        invariant |selected| <= n
        invariant Stored(rank, rows, identityType, cursor, selected)
        invariant Increasing(rank, Ids(selected))
        invariant forall id :: id in left ==> Wanted(rank, rows, identityType, cursor, id)
        invariant forall id, i :: id in left && 0 <= i < |selected| ==> Less(rank, Ids(selected)[i], id)
        invariant forall id :: Wanted(rank, rows, identityType, cursor, id) ==> id in left || id in Ids(selected)
        decreases left
      {
        var next := Least(left);
        ghost var before := selected;
        selected := selected + [rows[next]];
        assert selected[..|before|] == before;
        assert Ids(selected) == Ids(before) + [next];
        left := left - {next};
      }
    }

    method Least(ids: set<string>) returns (least: string)
      requires StrictTotalOrder(rank) && ids != {}
      ensures least in ids && forall id :: id in ids && id != least ==> Less(rank, least, id)
    {
      least :| least in ids;
      var left := ids - {least};
      while left != {}
        invariant left <= ids && least in ids && least !in left
        invariant forall id :: id in ids ==> id in left || id == least || Less(rank, least, id)
        decreases left
      {
        var id :| id in left;
        assert id != least && rank(id) != rank(least);
        if Less(rank, id, least) {
          least := id;
        }
        left := left - {id};
      }
    }

    /** `ListManagedIdentities`: asks for one row more than the limit. */
    method ListManagedIdentities(identityType: Option<int>, pageSize: int, cursor: Option<string>)
      returns (result: ListResult)
      requires StrictTotalOrder(rank) && Keyed(rows)
      ensures IsPage(rank, rows, identityType, cursor, NormalizePageSize(pageSize), result)
    {
      var limit := NormalizePageSize(pageSize);
      var selected := Select(identityType, cursor, limit + 1);
      var identities: seq<ManagedIdentity> := [];
      for i := 0 to |selected|
        invariant identities == selected[..i]
      {
        identities := identities + [selected[i]];
      }
      assert identities == selected;
      result := ListResult(identities, None);
      if |result.identities| > limit {
        var nextId := result.identities[limit - 1].zitiIdentityId;
        result := ListResult(result.identities[..limit], Some(nextId));
        assert result.identities == selected[..limit];
        Truncated(rank, rows, identityType, cursor, limit, selected);
      }
    }
  }

  /** Cutting the extra row off leaves a page with a cursor. */
  lemma Truncated(rank: Order, rows: Table, identityType: Option<int>, cursor: Option<string>,
                  limit: PageSize, selected: seq<ManagedIdentity>)
    requires IsSelection(rank, rows, identityType, cursor, limit + 1, selected) && |selected| == limit + 1
    ensures IsPage(rank, rows, identityType, cursor, limit,
                   ListResult(selected[..limit], Some(selected[limit - 1].zitiIdentityId)))
  {
    var kept := selected[..limit];
    var extra := Ids(selected)[limit];
    forall i | 0 <= i < limit ensures Ids(selected)[i] in Ids(kept) && Ids(selected)[i] == Ids(kept)[i] {
      assert Ids(kept)[i] == Ids(selected)[i];
    }
    assert Wanted(rank, rows, identityType, cursor, extra) && extra !in Ids(kept) by {
      assert selected[limit].zitiIdentityId == extra;
    }
    forall id | Wanted(rank, rows, identityType, cursor, id) && id !in Ids(kept)
      ensures Less(rank, Ids(selected)[limit - 1], id)
    {
      if id in Ids(selected) {
        var i :| 0 <= i < |selected| && Ids(selected)[i] == id;
        assert i >= limit;
      }
    }
  }

  // ---------------------------------------------------------------- walks

  /** There is a row of that id, of the type asked for if there is one. */
  ghost predicate HasType(rows: Table, identityType: Option<int>, id: string) {
    id in rows && forall t :: identityType == Some(t) ==> rows[id].identityType == t
  }

  function CursorBefore(pages: seq<ListResult>, i: nat): Option<string>
    requires i <= |pages|
  {
    if i == 0 then None else pages[i - 1].nextCursor
  }

  /** Calls that follow the cursors from the first page on. Each finds the table
      as it is by then. */
  ghost predicate IsWalk(rank: Order, tables: seq<Table>, identityType: Option<int>, sizes: seq<int>,
                         pages: seq<ListResult>)
    decreases |pages|
  {
    && |pages| == |tables| == |sizes|
    && (pages == [] ||
        var n := |pages| - 1;
        && IsWalk(rank, tables[..n], identityType, sizes[..n], pages[..n])
        && (n > 0 ==> CursorBefore(pages, n).Some?)
        && IsPage(rank, tables[n], identityType, CursorBefore(pages, n), NormalizePageSize(sizes[n]), pages[n]))
  }

  ghost predicate IsComplete(pages: seq<ListResult>) {
    pages != [] && CursorBefore(pages, |pages|).None?
  }

  function Returned(pages: seq<ListResult>): seq<string> {
    if pages == [] then []
    else Returned(pages[..|pages| - 1]) + Ids(pages[|pages| - 1].identities)
  }

  ghost predicate UpTo(rank: Order, ids: seq<string>, cursor: string) {
    forall i :: 0 <= i < |ids| ==> ids[i] == cursor || Less(rank, ids[i], cursor)
  }

  lemma PageAfterCursor(rank: Order, rows: Table, identityType: Option<int>, cursor: Option<string>,
                        limit: nat, page: ListResult)
    requires IsPage(rank, rows, identityType, cursor, limit, page)
    ensures forall i :: 0 <= i < |Ids(page.identities)| ==> After(rank, cursor, Ids(page.identities)[i])
    ensures page.nextCursor.Some? ==> page.identities != [] && UpTo(rank, Ids(page.identities), page.nextCursor.value)
  {
    forall i | 0 <= i < |Ids(page.identities)| ensures After(rank, cursor, Ids(page.identities)[i]) {
      assert Wanted(rank, rows, identityType, cursor, page.identities[i].zitiIdentityId);
    }
  }

  lemma AppendIncreasing(rank: Order, before: seq<string>, cursor: Option<string>, now: seq<string>)
    requires Increasing(rank, before) && Increasing(rank, now)
    requires before != [] ==> cursor.Some? && UpTo(rank, before, cursor.value)
    requires forall j :: 0 <= j < |now| ==> After(rank, cursor, now[j])
    ensures Increasing(rank, before + now)
    ensures forall next :: now != [] && UpTo(rank, now, next) ==> UpTo(rank, before + now, next)
  {
    forall next | now != [] && UpTo(rank, now, next) ensures UpTo(rank, before + now, next) {
      assert now[0] == next || Less(rank, now[0], next);
    }
  }

  /** So far, the ids came in increasing order, up to the cursor. */
  lemma {:induction false} ReturnedIncreasing(rank: Order, tables: seq<Table>, identityType: Option<int>,
                                              sizes: seq<int>, pages: seq<ListResult>)
    requires IsWalk(rank, tables, identityType, sizes, pages)
    ensures Increasing(rank, Returned(pages))
    ensures pages != [] && CursorBefore(pages, |pages|).Some? ==>
      UpTo(rank, Returned(pages), CursorBefore(pages, |pages|).value)
    decreases |pages|
  {
    if pages != [] {
      var n := |pages| - 1;
      ReturnedIncreasing(rank, tables[..n], identityType, sizes[..n], pages[..n]);
      assert CursorBefore(pages[..n], n) == CursorBefore(pages, n);
      PageAfterCursor(rank, tables[n], identityType, CursorBefore(pages, n), NormalizePageSize(sizes[n]), pages[n]);
      AppendIncreasing(rank, Returned(pages[..n]), CursorBefore(pages, n), Ids(pages[n].identities));
    }
  }

  ghost predicate Ahead(rank: Order, cursor: Option<string>, id: string) {
    cursor.Some? && Less(rank, cursor.value, id)
  }

  lemma WantedRowOnPage(rank: Order, rows: Table, identityType: Option<int>, cursor: Option<string>,
                        limit: nat, page: ListResult, id: string)
    requires IsPage(rank, rows, identityType, cursor, limit, page)
    requires Wanted(rank, rows, identityType, cursor, id)
    ensures id in Ids(page.identities) || Ahead(rank, page.nextCursor, id)
  {
  }

  /** A row that matches throughout the walk is either returned already or still
      ahead of the cursor. */
  lemma {:induction false} SteadyRowAhead(rank: Order, tables: seq<Table>, identityType: Option<int>,
                                          sizes: seq<int>, pages: seq<ListResult>, id: string)
    requires IsWalk(rank, tables, identityType, sizes, pages) && pages != []
    requires forall i :: 0 <= i < |tables| ==> Matches(tables[i], identityType, id)
    ensures id in Returned(pages) || Ahead(rank, CursorBefore(pages, |pages|), id)
    decreases |pages|
  {
    var n := |pages| - 1;
    assert CursorBefore(pages[..n], n) == CursorBefore(pages, n);
    if n > 0 {
      forall i | 0 <= i < n ensures Matches(tables[..n][i], identityType, id) {
        assert tables[..n][i] == tables[i];
      }
      SteadyRowAhead(rank, tables[..n], identityType, sizes[..n], pages[..n], id);
    }
    if id !in Returned(pages[..n]) {
      WantedRowOnPage(rank, tables[n], identityType, CursorBefore(pages, n), NormalizePageSize(sizes[n]), pages[n], id);
    }
  }

  /** Over a complete walk with the table changing between pages: ids strictly
      increase, so none comes twice, and a row that matches throughout comes once. */
  lemma WalkUnderChange(rank: Order, tables: seq<Table>, identityType: Option<int>,
                        sizes: seq<int>, pages: seq<ListResult>)
    requires IsWalk(rank, tables, identityType, sizes, pages) && IsComplete(pages)
    ensures Increasing(rank, Returned(pages))
    ensures forall i, j :: 0 <= i < j < |Returned(pages)| ==> Returned(pages)[i] != Returned(pages)[j]
    ensures forall id :: (forall i :: 0 <= i < |tables| ==> HasType(tables[i], identityType, id)) ==>
      id in Returned(pages)
  {
    ReturnedIncreasing(rank, tables, identityType, sizes, pages);
    forall id | forall i :: 0 <= i < |tables| ==> HasType(tables[i], identityType, id)
      ensures id in Returned(pages)
    {
      assert forall i :: 0 <= i < |tables| ==> HasType(tables[i], identityType, id) ==>
        Matches(tables[i], identityType, id);
      SteadyRowAhead(rank, tables, identityType, sizes, pages, id);
    }
  }

  /** Whatever is returned matched in the table of its page. */
  lemma {:induction false} ReturnedMatched(rank: Order, tables: seq<Table>, identityType: Option<int>,
                                           sizes: seq<int>, pages: seq<ListResult>)
    requires IsWalk(rank, tables, identityType, sizes, pages)
    ensures forall id :: id in Returned(pages) ==> exists i :: 0 <= i < |tables| && HasType(tables[i], identityType, id)
    decreases |pages|
  {
    if pages != [] {
      var n := |pages| - 1;
      assert CursorBefore(pages[..n], n) == CursorBefore(pages, n);
      ReturnedMatched(rank, tables[..n], identityType, sizes[..n], pages[..n]);
      forall id | id in Returned(pages)
        ensures exists i :: 0 <= i < |tables| && HasType(tables[i], identityType, id)
      {
        if id in Returned(pages[..n]) {
          var i :| 0 <= i < n && HasType(tables[..n][i], identityType, id);
          assert tables[i] == tables[..n][i];
        } else {
          var j :| 0 <= j < |pages[n].identities| && Ids(pages[n].identities)[j] == id;
          assert Wanted(rank, tables[n], identityType, CursorBefore(pages, n), pages[n].identities[j].zitiIdentityId);
          assert HasType(tables[n], identityType, id);
        }
      }
    }
  }

  // ---------------------------------------------------------------- an unchanging table

  lemma {:induction false} FullPages(rank: Order, tables: seq<Table>, identityType: Option<int>,
                                     sizes: seq<int>, pages: seq<ListResult>, limit: PageSize)
    requires IsWalk(rank, tables, identityType, sizes, pages)
    requires forall i :: 0 <= i < |sizes| ==> NormalizePageSize(sizes[i]) == limit
    requires pages == [] || CursorBefore(pages, |pages|).Some?
    ensures |Returned(pages)| == |pages| * limit
    decreases |pages|
  {
    if pages != [] {
      var n := |pages| - 1;
      assert CursorBefore(pages[..n], n) == CursorBefore(pages, n);
      FullPages(rank, tables[..n], identityType, sizes[..n], pages[..n], limit);
      Product(n, limit);
    }
  }

  lemma {:induction false} DistinctCount(ids: seq<string>, members: set<string>)
    requires forall i, j :: 0 <= i < j < |ids| ==> ids[i] != ids[j]
    requires forall id :: id in ids <==> id in members
    ensures |ids| == |members|
    decreases |ids|
  {
    if ids == [] {
      assert members == {};
    } else {
      var n := |ids| - 1;
      assert ids == ids[..n] + [ids[n]];
      DistinctCount(ids[..n], members - {ids[n]});
    }
  }

  /** A complete walk over an unchanging table returns its matching rows. */
  lemma ReturnedFromUnchangingTable(rank: Order, rows: Table, identityType: Option<int>, tables: seq<Table>,
                                    sizes: seq<int>, pages: seq<ListResult>)
    requires IsWalk(rank, tables, identityType, sizes, pages) && IsComplete(pages)
    requires forall i :: 0 <= i < |tables| ==> tables[i] == rows
    ensures |Returned(pages)| == |set id | id in rows && Matches(rows, identityType, id)|
  {
    var matching := set id | id in rows && Matches(rows, identityType, id);
    WalkUnderChange(rank, tables, identityType, sizes, pages);
    ReturnedMatched(rank, tables, identityType, sizes, pages);
    assert forall id :: id in Returned(pages) <==> id in matching by {
      assert tables[0] == rows;
      assert forall id :: HasType(rows, identityType, id) <==> Matches(rows, identityType, id);
    }
    DistinctCount(Returned(pages), matching);
  }

  /** All pages but the last are full, and the last is empty only if it is the first. */
  lemma CountReturned(rank: Order, tables: seq<Table>, identityType: Option<int>,
                      sizes: seq<int>, pages: seq<ListResult>, limit: PageSize)
    requires IsWalk(rank, tables, identityType, sizes, pages) && IsComplete(pages)
    requires forall i :: 0 <= i < |tables| ==> tables[i] == tables[0] && NormalizePageSize(sizes[i]) == limit
    ensures (|pages| - 1) * limit <= |Returned(pages)| <= (|pages| - 1) * limit + limit
    ensures |pages| > 1 ==> (|pages| - 1) * limit < |Returned(pages)|
  {
    var k := |pages| - 1;
    assert CursorBefore(pages[..k], k) == CursorBefore(pages, k);
    FullPages(rank, tables[..k], identityType, sizes[..k], pages[..k], limit);
    if k > 0 {
      LastPageNotEmpty(rank, tables, identityType, sizes, pages);
    }
  }

  /** On a table that does not change, with n matching rows and a constant page
      size, a complete walk takes exactly max(1, ceil(n / limit)) pages. */
  lemma PagesOfUnchangingTable(rank: Order, rows: Table, identityType: Option<int>, tables: seq<Table>,
                               pageSize: int, sizes: seq<int>, pages: seq<ListResult>)
    requires IsWalk(rank, tables, identityType, sizes, pages) && IsComplete(pages)
    requires forall i :: 0 <= i < |pages| ==> tables[i] == rows && sizes[i] == pageSize
    ensures |pages| ==
      AtLeastOne(Pages(|set id | id in rows && Matches(rows, identityType, id)|, NormalizePageSize(pageSize)))
  {
    var limit := NormalizePageSize(pageSize);
    ReturnedFromUnchangingTable(rank, rows, identityType, tables, sizes, pages);
    CountReturned(rank, tables, identityType, sizes, pages, limit);
    PagesCounted(|Returned(pages)|, limit, |pages| - 1);
  }

  lemma PagesCounted(n: nat, limit: PageSize, k: nat)
    requires k * limit <= n <= k * limit + limit && (k > 0 ==> k * limit < n)
    ensures k + 1 == AtLeastOne(Pages(n, limit))
  {
    if n > 0 {
      PagesIsCeiling(n, limit, k);
    }
  }

  /** A cursor is handed out only if a row is left, and it is still there. */
  lemma LastPageNotEmpty(rank: Order, tables: seq<Table>, identityType: Option<int>,
                         sizes: seq<int>, pages: seq<ListResult>)
    requires IsWalk(rank, tables, identityType, sizes, pages) && IsComplete(pages)
    requires |pages| > 1 && tables[|pages| - 1] == tables[|pages| - 2]
    ensures pages[|pages| - 1].identities != []
  {
    var k := |pages| - 1;
    assert IsWalk(rank, tables[..k], identityType, sizes[..k], pages[..k]);
    assert CursorBefore(pages[..k], k - 1) == CursorBefore(pages, k - 1);
    assert IsPage(rank, tables[k - 1], identityType, CursorBefore(pages, k - 1), NormalizePageSize(sizes[k - 1]),
                  pages[k - 1]);
    var id :| Wanted(rank, tables[k - 1], identityType, CursorBefore(pages, k - 1), id)
      && id !in Ids(pages[k - 1].identities);
    assert Wanted(rank, tables[k], identityType, CursorBefore(pages, k), id);
    assert id in Ids(pages[k].identities);
  }
}
