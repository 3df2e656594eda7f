/** The photo picker component: its state record and the operations that
    read and update it. The pure parts of the behaviour are specified in the
    Selection and Pagination modules; each method here is proved to follow
    them. */
module ImageBrowserComponent {
  import opened Wrappers
  import opened Selection
  import opened Pagination

  /** The component. Its props (`max`, `loadCount`) are not state: the host
      may change them on any re-render and the component reads them afresh
      on every call, so the methods that use them take them as arguments. */
  class ImageBrowser {
    var photos: seq<Asset>
    var selected: seq<nat>
    var isEmpty: bool
    var after: Option<string>
    var hasNextPage: bool

    /** The selection is an ordered set. (It is not bounded by itself: a
        host that lowers `max` can leave it longer than the new maximum.) */
    ghost predicate Valid()
      reads this
    {
      NoDuplicates(selected)
    }

    /** Every selected index points at a loaded photo. */
    ghost predicate SelectionInRange()
      reads this
    {
      forall k :: 0 <= k < |selected| ==> selected[k] < |photos|
    }

    /** The pagination part of the state. */
    ghost function FeedState(): Feed
      reads this
    {
      Feed(photos, isEmpty, after, hasNextPage)
    }

    constructor ()
      ensures Valid() && SelectionInRange()
      ensures selected == [] && FeedState() == InitialFeed
    {
      photos := [];
      selected := [];
      isEmpty := false;
      after := None;
      hasNextPage := true;
    }

    /** `selectImage(index)` with the current `max` prop: toggles `index` in
        a copy of the selection and commits the copy unless it is longer than
        `max`. The result is the argument `onChange` receives (the new
        selection length), or `None` when the toggle is abandoned and
        `onChange` is not called. */
    method SelectImage(index: nat, max: nat) returns (onChange: Option<nat>)
      requires Valid()
      modifies this`selected
      ensures Valid()
      ensures |old(selected)| <= max ==> |selected| <= max
      ensures selected == SelectionAfter(old(selected), index, max)
      ensures onChange.Some? <==> Accepted(old(selected), index, max)
      ensures onChange.None? ==> selected == old(selected)
      ensures onChange.Some? ==> onChange.value == |selected|
      ensures old(SelectionInRange()) && index < |photos| ==> SelectionInRange()
    {
      var newSelected := selected;
      var deleteIndex := IndexOf(newSelected, index);
      if deleteIndex == -1 {
        newSelected := newSelected + [index];
      } else {
        newSelected := newSelected[..deleteIndex] + newSelected[deleteIndex + 1..];
      }
      if |newSelected| > max {
        return None;
      }
      forall k | 0 <= k < |newSelected|
        ensures newSelected[k] in old(selected) || newSelected[k] == index
      {
        ToggleMembership(old(selected), index, newSelected[k]);
      }
      selected := newSelected;
      onChange := Some(|newSelected|);
    }

    /** `getPhotos()` with the current `loadCount` prop: the request it hands
        to the media library, or `None` when there is no next page and it
        returns without fetching. */
    method GetPhotos(loadCount: Option<int>) returns (request: Option<Request>)
      ensures request == PageRequest(loadCount, FeedState())
    {
      var params := Request(PageSize(loadCount), "Photos", ["creationTime"], None);
      if CursorSet(after) {
        params := params.(after := after);
      }
      if !hasNextPage {
        return None;
      }
      request := Some(params);
    }

    /** `processPhotos(data)`: applies one response of the media library. */
    method ProcessPhotos(data: Page)
      modifies this`photos, this`isEmpty, this`after, this`hasNextPage
      ensures FeedState() == ApplyPage(old(FeedState()), data)
      ensures old(SelectionInRange()) ==> SelectionInRange()
    {
      if data.totalCount != 0 {
        if after == data.endCursor {
          return;
        }
        var uris := data.assets;
        photos, after, hasNextPage := photos + uris, data.endCursor, data.hasNextPage;
      } else {
        isEmpty := true;
      }
    }

    /** The photos `prepareCallback()` passes to the asset-info lookup: one
        per selected index, in selection order. */
    method PrepareCallback() returns (selectedPhotos: seq<Option<Asset>>)
      ensures selectedPhotos == SelectedPhotos(selected, photos)
      ensures SelectionInRange() ==> forall k :: 0 <= k < |selected| ==> selectedPhotos[k] == Some(photos[selected[k]])
    {
      selectedPhotos := SelectedPhotos(selected, photos);
    }

    /** What `renderImageTile` passes to the tile at `index`. */
    method RenderImageTile(index: nat) returns (tile: TileState)
      ensures tile == TileSelection(selected, index)
      ensures tile.selected ==> selected[tile.selectedItemCount - 1] == index
    {
      var selectedFlag := IndexOf(selected, index) != -1;
      var selectedItemCount := IndexOf(selected, index) + 1;
      tile := TileState(selectedFlag, selectedItemCount);
    }
  }
}
