/** The pagination controller of the photo picker: the request `getPhotos`
    builds from the component state, and the state change `processPhotos`
    makes when a page of assets arrives from the media library. */
module Pagination {
  import opened Wrappers

  /** A photo asset from the media library; the picker only stores it and
      hands it back, so it is opaque apart from its identifier. */
  datatype Asset = Asset(id: string)

  /** One response of the media library's asset enumeration. */
  datatype Page = Page(totalCount: nat, assets: seq<Asset>, endCursor: Option<string>, hasNextPage: bool)

  /** The parameters of one asset enumeration request. */
  datatype Request = Request(first: int, assetType: string, sortBy: seq<string>, after: Option<string>)

  /** The part of the component state the pagination controller owns. */
  datatype Feed = Feed(photos: seq<Asset>, isEmpty: bool, after: Option<string>, hasNextPage: bool)

  /** The page size used when the `loadCount` prop is missing or zero. */
  const DefaultPageSize := 50

  /** The component state before the first page arrives. */
  const InitialFeed := Feed([], false, None, true)

  /** JavaScript truthiness of a cursor: `null` and the empty string are false. */
  predicate CursorSet(after: Option<string>) {
    after.Some? && after.value != ""
  }

  /** `loadCount || 50`: the prop when it is truthy (given and non-zero), 50 otherwise. */
  function PageSize(loadCount: Option<int>): (r: int)
    ensures r != 0
    ensures loadCount.Some? && loadCount.value != 0 ==> r == loadCount.value
    ensures loadCount == None || loadCount == Some(0) ==> r == DefaultPageSize
  {
    if loadCount.Some? && loadCount.value != 0 then loadCount.value else DefaultPageSize
  }

  /** The request `getPhotos` issues from state `f`, or `None` when it returns
      without fetching. */
  function PageRequest(loadCount: Option<int>, f: Feed): (r: Option<Request>)
    ensures r.None? <==> !f.hasNextPage
    ensures r.Some? ==> r.value.first == PageSize(loadCount) && r.value.first != 0
    ensures r.Some? ==> r.value.assetType == "Photos" && r.value.sortBy == ["creationTime"]
    ensures r.Some? ==> (r.value.after.Some? <==> CursorSet(f.after))
    ensures r.Some? && r.value.after.Some? ==> r.value.after == f.after
  {
    var after := if CursorSet(f.after) then f.after else None;
    if !f.hasNextPage then None
    else Some(Request(PageSize(loadCount), "Photos", ["creationTime"], after))
  }

  /** The state after `processPhotos(data)`: a page with a zero total only
      marks the feed empty, a page whose end cursor equals the stored one is
      discarded, and any other page is appended and advances the cursor. */
  function ApplyPage(f: Feed, data: Page): (r: Feed)
    ensures data.totalCount == 0 ==> r == f.(isEmpty := true)
    ensures data.totalCount != 0 && data.endCursor == f.after ==> r == f
    ensures data.totalCount != 0 && data.endCursor != f.after ==>
      r == Feed(f.photos + data.assets, f.isEmpty, data.endCursor, data.hasNextPage)
    ensures f.photos <= r.photos
    ensures f.isEmpty ==> r.isEmpty
  {
    if data.totalCount != 0 then
      if f.after == data.endCursor then f
      else f.(photos := f.photos + data.assets, after := data.endCursor, hasNextPage := data.hasNextPage)
    else
      f.(isEmpty := true)
  }

  /** The state after the responses `pages` are applied in order. */
  function ApplyPages(f: Feed, pages: seq<Page>): (r: Feed)
    decreases |pages|
  {
    if |pages| == 0 then f else ApplyPages(ApplyPage(f, pages[0]), pages[1..])
  }

  /** The state after a run of fetch cycles: each cycle calls `getPhotos` and,
      when it issues a request, applies the corresponding response. A cycle in
      which `getPhotos` returns early leaves the state alone. */
  function FetchCycles(loadCount: Option<int>, f: Feed, pages: seq<Page>): (r: Feed)
    decreases |pages|
  {
    if |pages| == 0 then f
    else
      var next := if PageRequest(loadCount, f).Some? then ApplyPage(f, pages[0]) else f;
      FetchCycles(loadCount, next, pages[1..])
  }

  // ---------------------------------------------------------------------------
  // Lemmas

  /** Receiving the same response twice has the effect of receiving it once:
      the second copy carries the cursor just stored and is discarded. */
  lemma ApplyPageIdempotent(f: Feed, data: Page)
    ensures ApplyPage(ApplyPage(f, data), data) == ApplyPage(f, data)
  {
  }

  /** The loaded photos only grow: the old list stays a prefix of the new one
      over any sequence of responses, and the empty flag never goes back. */
  lemma {:induction false} PhotosGrowAsPrefix(f: Feed, pages: seq<Page>)
    ensures f.photos <= ApplyPages(f, pages).photos
    ensures f.isEmpty ==> ApplyPages(f, pages).isEmpty
    decreases |pages|
  {
    if |pages| > 0 {
      PhotosGrowAsPrefix(ApplyPage(f, pages[0]), pages[1..]);
    }
  }

  /** Once the media library reports no next page, no further fetch is
      issued and no later cycle changes the state. */
  lemma {:induction false} NoFetchAfterLastPage(loadCount: Option<int>, f: Feed, pages: seq<Page>)
    requires !f.hasNextPage
    ensures PageRequest(loadCount, f) == None
    ensures FetchCycles(loadCount, f, pages) == f
    decreases |pages|
  {
    if |pages| > 0 {
      NoFetchAfterLastPage(loadCount, f, pages[1..]);
    }
  }

  /** An empty result sets only the empty flag: `hasNextPage` keeps its
      value, so the next `getPhotos` from the initial state still fetches. */
  lemma EmptyResultKeepsFetching(loadCount: Option<int>, data: Page)
    requires data.totalCount == 0
    ensures ApplyPage(InitialFeed, data) == Feed([], true, None, true)
    ensures PageRequest(loadCount, ApplyPage(InitialFeed, data)).Some?
  {
  }

  /** Two pages `[a, b]` (cursor "c1", more to come) and `[c]` (cursor "c2",
      last) load `[a, b, c]`, after which no further fetch is attempted. */
  lemma TwoPageScenario(a: Asset, b: Asset, c: Asset, loadCount: Option<int>)
    ensures var pages := [Page(2, [a, b], Some("c1"), true), Page(1, [c], Some("c2"), false)];
      FetchCycles(loadCount, InitialFeed, pages).photos == [a, b, c] &&
      PageRequest(loadCount, FetchCycles(loadCount, InitialFeed, pages)) == None
  {
    var p1 := Page(2, [a, b], Some("c1"), true);
    var p2 := Page(1, [c], Some("c2"), false);
    var f1 := ApplyPage(InitialFeed, p1);
    assert f1 == Feed([a, b], false, Some("c1"), true);
    var f2 := ApplyPage(f1, p2);
    assert f2 == Feed([a, b, c], false, Some("c2"), false);
    assert FetchCycles(loadCount, InitialFeed, [p1, p2]) == FetchCycles(loadCount, f1, [p2]);
    assert FetchCycles(loadCount, f1, [p2]) == FetchCycles(loadCount, f2, []);
  }
}
