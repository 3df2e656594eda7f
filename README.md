# ImageBrowser photo picker: selection and pagination model

This project models the state machine inside `ImageBrowser`, a React Native
multi-select photo picker. The component keeps five state fields. `photos`
holds the assets loaded so far. `selected` holds the selected photo indices in
the order they were picked. `isEmpty` records that the library reported no
photos. `after` is the pagination cursor, and `hasNextPage` says whether
another page exists.

The component has three groups of behaviour:

- **Selection tracker** (`selectImage`). It toggles an index in the ordered,
  duplicate-free selection. The toggle is abandoned, and `onChange` is not
  called, when the result would be longer than the `max` prop.
- **Pagination controller** (`getPhotos`, `processPhotos`). `getPhotos` builds
  the media-library request: page size `loadCount || 50`, the photo filter,
  creation-time order and the cursor when one is set. It fetches nothing once
  `hasNextPage` is false. `processPhotos` applies a response in one of three
  ways. A zero total marks the feed empty. A page whose end cursor equals the
  stored cursor is discarded. Any other page is appended and advances the
  cursor.
- **Tile and callback queries** (`renderImageTile`, `prepareCallback`). Each
  tile gets its "selected" flag and its 1-based rank in selection order (0
  when unselected). The selected indices are mapped to photos for the
  asset-info lookup.

Layout:

- `wrappers.dfy` defines `Option`, which stands for JavaScript's `null` and
  `undefined`.
- `selection.dfy` (module `Selection`) holds the selection functions and the
  lemmas about them.
- `pagination.dfy` (module `Pagination`) holds the request and response
  functions and the lemmas about runs of responses.
- `image_browser.dfy` (module `ImageBrowserComponent`) holds the class
  `ImageBrowser`. Its fields mirror the component state. Each method is proved
  to follow the specification functions. `Valid()` (no duplicate selections)
  is kept by every method.

Modelling choices that follow the code:

- The props `max` and `loadCount` are read afresh on every call, and the host
  may change them between calls. They are therefore arguments of
  `SelectImage` and `GetPhotos`, not fields. A call keeps the bound
  `|selected| <= max` when it held before with the same `max`. A host that
  lowers `max` can leave the selection longer than the new limit, and then
  even a deselect can be refused (`DeselectRefusedAboveMax`).

- A cursor is `Option<string>`. `getPhotos` adds `after` only when the cursor
  is truthy, so an empty-string cursor is not sent (`CursorSet`).
- `loadCount` is `Option<int>`. A missing or zero value gives the default of
  50. Any other value, negative ones included, is used as given.
- `totalCount` is a `nat`, and only 0 takes the empty branch.
- A zero-total response sets only `isEmpty`. It leaves `hasNextPage` as it was,
  so `getPhotos` keeps issuing requests after an empty result
  (`EmptyResultKeepsFetching`). The empty flag only switches the placeholder
  view; it does not stop fetching, and the model keeps it that way.
- `photos[i]` for an index past the end is `undefined` in JavaScript. In
  `SelectedPhotos` it is `None`.
- The `onChange(newLength, callback)` call is the result of `SelectImage`. It
  is `Some(newLength)` when `onChange` is called and `None` when the toggle is
  abandoned.

## Model

| member | source | states |
|---|---|---|
| Selection.IndexOf | src/ImageBrowser.js:31-34 | -1 exactly when the index is absent; otherwise the first position holding it |
| Selection.RemoveAt | src/ImageBrowser.js:35 | `splice(k, 1)` drops position k: one shorter, earlier entries in place, later entries shifted down by one |
| Selection.Toggle | src/ImageBrowser.js:30-36 | an absent index is appended at the end; a present one is removed at its first position, keeping the rest in order |
| Selection.SelectionAfter | src/ImageBrowser.js:29-41 | a toggle longer than `max` leaves the selection unchanged; the bound and the absence of duplicates are preserved; the selection stays the same exactly when an absent index is refused at the limit |
| Selection.TileSelection | src/ImageBrowser.js:82-84 | a tile is selected iff its index is in the selection; its count is 0 when unselected, otherwise the 1-based position of the index's first occurrence |
| Selection.SelectedPhotos | src/ImageBrowser.js:76-77 | one entry per selected index, in selection order: the photo at that index, or `undefined` past the end |
| Selection.RankIsPosition | src/ImageBrowser.js:83-84 | in a duplicate-free selection, the entry at position k is shown as selected with rank k + 1 |
| Selection.ToggleKeepsNoDuplicates | src/ImageBrowser.js:29-41 | toggling keeps the selection free of duplicates |
| Selection.ToggleMembership | src/ImageBrowser.js:30-36 | on a duplicate-free selection, toggling flips membership of the toggled index and no other |
| Selection.SelectAppends | src/ImageBrowser.js:31-32 | selecting an absent index below the limit appends it and keeps every earlier entry in place |
| Selection.DeselectRemovesOne | src/ImageBrowser.js:33-37 | within the limit, a deselect is never refused; it removes exactly that index at its position and keeps the others in order |
| Selection.SelectThenDeselect | src/ImageBrowser.js:29-41 | for any selection without the index, toggling it twice restores the exact prior selection (at the limit both toggles are refused) |
| Selection.DeselectThenSelectMovesToEnd | src/ImageBrowser.js:29-41 | the converse fails: within the limit, deselecting the entry at position k and reselecting it gives the selection without it followed by it at the end |
| Selection.DeselectRefusedAboveMax | src/ImageBrowser.js:33-37 | when the selection is longer than `max` by two or more, a deselect is refused and the selection is unchanged |
| Selection.ToggleAllKeepsBound | src/ImageBrowser.js:37-39 | over any run of toggles with the same `max` the selection stays within `max` and free of duplicates |
| Selection.SelectionScenario | src/ImageBrowser.js:29-41 | selecting 3, 1, 4 then deselecting 1 gives [3, 4], and 4 has rank 2 |
| Pagination.PageSize | src/ImageBrowser.js:45 | the `loadCount` prop when given and non-zero, 50 otherwise; never 0 |
| Pagination.PageRequest | src/ImageBrowser.js:43-50 | no request iff there is no next page; otherwise page size from `loadCount`, 50 by default (never 0), photos by creation time, and `after` present exactly when a truthy cursor is stored, equal to it |
| Pagination.ApplyPage | src/ImageBrowser.js:56-68 | zero total: only `isEmpty` becomes true; end cursor equal to the stored one: nothing changes; otherwise assets appended, cursor and next-page flag taken from the page; old photos always a prefix; `isEmpty` never reverts |
| Pagination.ApplyPageIdempotent | src/ImageBrowser.js:57-64 | the same response applied twice has the effect of applying it once |
| Pagination.PhotosGrowAsPrefix | src/ImageBrowser.js:56-68 | over any sequence of responses the old photo list stays a prefix and `isEmpty` stays set |
| Pagination.NoFetchAfterLastPage | src/ImageBrowser.js:50-53 | once `hasNextPage` is false no request is issued and no later fetch cycle changes the state |
| Pagination.EmptyResultKeepsFetching | src/ImageBrowser.js:65-66 | an empty first result sets only `isEmpty`; `hasNextPage` stays true, so the next `getPhotos` still fetches |
| Pagination.TwoPageScenario | src/ImageBrowser.js:43-68 | pages [a, b] (more to come) and [c] (last) load [a, b, c], after which no fetch is issued |
| ImageBrowserComponent.ImageBrowser.constructor | src/ImageBrowser.js:17-23 | initial state: no photos, no selection, not empty, no cursor, more pages expected |
| ImageBrowserComponent.ImageBrowser.SelectImage | src/ImageBrowser.js:29-41 | for the `max` given at the call, the new selection is `SelectionAfter` of the old one; `onChange` gets the new length iff the toggle fits `max`, and a refused toggle changes nothing; keeps `Valid()`, keeps the bound when it held before, and keeps selected indices within the loaded photos |
| ImageBrowserComponent.ImageBrowser.GetPhotos | src/ImageBrowser.js:43-54 | for the `loadCount` given at the call, the request issued is `PageRequest` of the current state |
| ImageBrowserComponent.ImageBrowser.ProcessPhotos | src/ImageBrowser.js:56-68 | the new pagination state is `ApplyPage` of the old one; selected indices stay within the loaded photos |
| ImageBrowserComponent.ImageBrowser.PrepareCallback | src/ImageBrowser.js:75-77 | the photos passed on are `SelectedPhotos` of the state, each a real photo when every selected index is loaded |
| ImageBrowserComponent.ImageBrowser.RenderImageTile | src/ImageBrowser.js:82-84 | the tile's flag and count are `TileSelection` of the state |

## Left out

- Rendering (`FlatList`, `ImageTile`, the preloader and empty-state views, `render`, styles): these are UI only.
- The media-library calls (`getAssetsAsync`, `getAssetInfoAsync`, `Promise.all`) are foreign asynchronous calls. `GetPhotos` returns the request it would send. A response is a `Page` passed to `ProcessPhotos`. `PrepareCallback` stops at the photos handed to the lookup.
- The `callback` prop and the deferred closure given to `onChange` are host wiring. Only the length passed to `onChange` is modelled.
- `getItemLayout` is floating-point arithmetic on the screen width.
- `componentDidMount` is lifecycle. The constructor gives the initial state, and `FetchCycles` models a run of `getPhotos` calls each followed by its response.
- Overlapping fetches, out-of-order responses and state updates after unmount are concurrency concerns. The code does not handle them, and the model applies responses one at a time.
- The `if (!newSelected)` line is dead code, since a copied array is always truthy.
- `max` is a natural number. The behaviour for a missing `max` prop (comparisons with `undefined` are always false) is not modelled.
- `keyExtractor` is a UI detail.
- Cursor equality uses `Option` equality. The difference between JavaScript's `null` and `undefined` under `===` is not modelled.
