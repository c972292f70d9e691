/** The list call of the server: keyset pages behind opaque tokens. */
module ManagedIdentityListing {
  import opened Wrappers
  import opened PageToken
  import opened StringOrder
  import opened KeysetPages

  const UNSPECIFIED := 0

  /** The types of the API other than "unspecified"; the table stores the same numbers. */
  predicate IsIdentityType(value: int) {
    value in {1, 2, 5, 6, 7}
  }

  datatype TokenPage = TokenPage(identities: seq<ManagedIdentity>, nextPageToken: string)

  /** What the requested type selects: everything, if it is left unspecified. */
  function FilterOf(identityType: int): Result<Option<int>> {
    if identityType == UNSPECIFIED then Ok(None)
    else if IsIdentityType(identityType) then Ok(Some(identityType))
    else Err("identity_type")
  }

  /** The cursor a request's token stands for. */
  function CursorOf(token: string): (cursor: Result<Option<string>>)
    ensures cursor.Ok? && cursor.value.Some? ==> cursor.value.value != ""
  {
    if token == "" then Ok(None)
    else
      var id := DecodePageToken(token);
      if id.Err? then Err(id.error) else Ok(Some(id.value))
  }

  function TokenOf(cursor: Option<string>): string {
    if cursor.None? then "" else EncodePageToken(cursor.value)
  }

  predicate Convertible(identity: ManagedIdentity) {
    identity.identityType == UNSPECIFIED || IsIdentityType(identity.identityType)
  }

  function Response(page: ListResult): TokenPage {
    TokenPage(page.identities, TokenOf(page.nextCursor))
  }

  /** `storeFails` says whether the query does. */
  method ListManagedIdentities(store: Store, identityType: int, pageSize: int, pageToken: string, storeFails: bool)
    returns (response: Result<TokenPage>)
    requires StrictTotalOrder(store.rank) && Keyed(store.rows)
    ensures FilterOf(identityType).Err? || CursorOf(pageToken).Err? || storeFails ==> response.Err?
    ensures FilterOf(identityType).Ok? && CursorOf(pageToken).Ok? && !storeFails ==>
      exists page ::
        && IsPage(store.rank, store.rows, FilterOf(identityType).value, CursorOf(pageToken).value,
                  NormalizePageSize(pageSize), page)
        && (response.Ok? <==> forall i :: 0 <= i < |page.identities| ==> Convertible(page.identities[i]))
        && (response.Ok? ==> response.value == Response(page))
    ensures identityType !in {0, 1, 2, 5, 6, 7} ==> response.Err?
    ensures response.Ok? ==>
      forall row :: row in response.value.identities ==>
        && row.zitiIdentityId in store.rows && store.rows[row.zitiIdentityId] == row
        && (identityType == 0 || row.identityType == identityType) && row.identityType in {0, 1, 2, 5, 6, 7}
    ensures
      && !storeFails && identityType in {0, 1, 2, 5, 6, 7} && (pageToken == "" || DecodePageToken(pageToken).Ok?)
      && (forall id :: id in store.rows ==> store.rows[id].identityType in {0, 1, 2, 5, 6, 7}) ==>
      response.Ok?
  {
    var filter: Option<int> := None;
    if identityType != UNSPECIFIED {
      if !IsIdentityType(identityType) {
        return Err("identity_type");
      }
      filter := Some(identityType);
    }
    var cursor: Option<string> := None;
    if pageToken != "" {
      var id := DecodePageToken(pageToken);
      if id.Err? {
        return Err(id.error);
      }
      cursor := Some(id.value);
    }
    if storeFails {
      return Err("list managed identities");
    }
    var result := store.ListManagedIdentities(filter, pageSize, cursor);
    var converted := Convert(result.identities);
    if !converted {
      return Err("managed identity");
    }
    var token := "";
    if result.nextCursor.Some? {
      token := EncodePageToken(result.nextCursor.value);
    }
    return Ok(TokenPage(result.identities, token));
  }

  /** The loop over the rows of a page: whether each converts. */
  method Convert(identities: seq<ManagedIdentity>) returns (ok: bool)
    ensures ok <==> forall i :: 0 <= i < |identities| ==> Convertible(identities[i])
  {
    for i := 0 to |identities|
      invariant forall j :: 0 <= j < i ==> Convertible(identities[j])
    {
      if !Convertible(identities[i]) {
        return false;
      }
    }
    return true;
  }

  /** The token of a page leads back to the cursor it was made from, so a walk by
      tokens is a walk by cursors; it ends exactly when the cursors do. */
  lemma TokensCarryCursors(cursor: Option<string>)
    requires cursor.Some? ==> cursor.value != ""
    ensures CursorOf(TokenOf(cursor)) == Ok(cursor)
    ensures TokenOf(cursor) == "" <==> cursor.None?
  {
    if cursor.Some? {
      PageTokenRoundTrip(cursor.value);
    }
  }

  // ---------------------------------------------------------------- walks by tokens

  function TokenBefore(responses: seq<TokenPage>, i: nat): string
    requires i <= |responses|
  {
    if i == 0 then "" else responses[i - 1].nextPageToken
  }

  ghost predicate IsResponse(rank: Order, rows: Table, identityType: Option<int>, pageSize: int, token: string,
                             page: ListResult, response: TokenPage) {
    && CursorOf(token).Ok?
    && IsPage(rank, rows, identityType, CursorOf(token).value, NormalizePageSize(pageSize), page)
    && response == Response(page)
  }

  /** Calls that follow the tokens from "" on, each on the table as it is by then. */
  ghost predicate IsTokenWalk(rank: Order, tables: seq<Table>, identityType: Option<int>, sizes: seq<int>,
                              responses: seq<TokenPage>)
    decreases |responses|
  {
    && |responses| == |tables| == |sizes|
    && (responses == [] ||
        var n := |responses| - 1;
        && IsTokenWalk(rank, tables[..n], identityType, sizes[..n], responses[..n])
        && (n > 0 ==> TokenBefore(responses, n) != "")
        && exists page ::
             IsResponse(rank, tables[n], identityType, sizes[n], TokenBefore(responses, n), page, responses[n]))
  }

  function ReturnedIds(responses: seq<TokenPage>): seq<string> {
    if responses == [] then []
    else ReturnedIds(responses[..|responses| - 1]) + Ids(responses[|responses| - 1].identities)
  }

  /** Rows have an id. */
  ghost predicate Named(rows: Table) {
    forall id :: id in rows ==> id != ""
  }

  lemma PageTokenCarriesCursor(rank: Order, rows: Table, identityType: Option<int>, cursor: Option<string>,
                               limit: nat, page: ListResult)
    requires Named(rows) && IsPage(rank, rows, identityType, cursor, limit, page)
    ensures CursorOf(Response(page).nextPageToken) == Ok(page.nextCursor)
    ensures Response(page).nextPageToken == "" <==> page.nextCursor.None?
  {
    if page.nextCursor.Some? {
      assert Wanted(rank, rows, identityType, cursor, page.identities[limit - 1].zitiIdentityId);
    }
    TokensCarryCursors(page.nextCursor);
  }

  lemma WalkGrows(rank: Order, tables: seq<Table>, identityType: Option<int>, sizes: seq<int>,
                  pages: seq<ListResult>, page: ListResult)
    requires tables != [] && |tables| == |sizes|
    requires IsWalk(rank, tables[..|tables| - 1], identityType, sizes[..|sizes| - 1], pages)
    requires pages != [] ==> CursorBefore(pages, |pages|).Some?
    requires IsPage(rank, tables[|tables| - 1], identityType, CursorBefore(pages, |pages|),
                    NormalizePageSize(sizes[|sizes| - 1]), page)
    ensures IsWalk(rank, tables, identityType, sizes, pages + [page])
    ensures CursorBefore(pages + [page], |pages| + 1) == page.nextCursor
    ensures Returned(pages + [page]) == Returned(pages) + Ids(page.identities)
  {
    assert (pages + [page])[..|pages|] == pages;
    assert CursorBefore(pages + [page], |pages|) == CursorBefore(pages, |pages|);
  }

  /** The pages behind `responses`: the walk by cursors that the tokens stand for. */
  ghost predicate StandFor(rank: Order, tables: seq<Table>, identityType: Option<int>, sizes: seq<int>,
                           responses: seq<TokenPage>, pages: seq<ListResult>) {
    && IsWalk(rank, tables, identityType, sizes, pages)
    && Returned(pages) == ReturnedIds(responses)
    && |pages| == |responses|
    && CursorOf(TokenBefore(responses, |responses|)) == Ok(CursorBefore(pages, |pages|))
    && (responses != [] ==> (IsComplete(pages) <==> TokenBefore(responses, |responses|) == ""))
  }

  lemma OneMoreResponse(rank: Order, tables: seq<Table>, identityType: Option<int>, sizes: seq<int>,
                        responses: seq<TokenPage>, pages: seq<ListResult>, page: ListResult, n: nat)
    requires |responses| == |tables| == |sizes| == n + 1
    requires StandFor(rank, tables[..n], identityType, sizes[..n], responses[..n], pages)
    requires n > 0 ==> TokenBefore(responses[..n], n) != ""
    requires Named(tables[n])
    requires IsResponse(rank, tables[n], identityType, sizes[n], TokenBefore(responses[..n], n), page, responses[n])
    ensures StandFor(rank, tables, identityType, sizes, responses, pages + [page])
  {
    WalkGrows(rank, tables, identityType, sizes, pages, page);
    PageTokenCarriesCursor(rank, tables[n], identityType, CursorBefore(pages, n), NormalizePageSize(sizes[n]), page);
  }

  /** A walk by tokens is a walk by cursors. */
  lemma {:induction false} TokenWalkIsWalk(rank: Order, tables: seq<Table>, identityType: Option<int>,
                                           sizes: seq<int>, responses: seq<TokenPage>)
    returns (pages: seq<ListResult>)
    requires IsTokenWalk(rank, tables, identityType, sizes, responses)
    requires forall i :: 0 <= i < |tables| ==> Named(tables[i])
    ensures StandFor(rank, tables, identityType, sizes, responses, pages)
    decreases |responses|
  {
    if responses == [] {
      return [];
    }
    var n := |responses| - 1;
    var before := TokenWalkIsWalk(rank, tables[..n], identityType, sizes[..n], responses[..n]);
    assert TokenBefore(responses[..n], n) == TokenBefore(responses, n);
    var page :| IsResponse(rank, tables[n], identityType, sizes[n], TokenBefore(responses, n), page, responses[n]);
    OneMoreResponse(rank, tables, identityType, sizes, responses, before, page, n);
    pages := before + [page];
  }

  /** So a complete walk by tokens, with the table changing between pages, returns
      strictly increasing ids, and every row that matches throughout. */
  lemma TokenWalkUnderChange(rank: Order, tables: seq<Table>, identityType: Option<int>,
                             sizes: seq<int>, responses: seq<TokenPage>)
    requires IsTokenWalk(rank, tables, identityType, sizes, responses) && responses != []
    requires TokenBefore(responses, |responses|) == ""
    requires forall i :: 0 <= i < |tables| ==> Named(tables[i])
    ensures Increasing(rank, ReturnedIds(responses))
    ensures forall id :: (forall i :: 0 <= i < |tables| ==> HasType(tables[i], identityType, id)) ==>
      id in ReturnedIds(responses)
  {
    var pages := TokenWalkIsWalk(rank, tables, identityType, sizes, responses);
    WalkUnderChange(rank, tables, identityType, sizes, pages);
  }
}
