/** The selection tracker of the photo picker and the per-tile queries over it.

    A selection is a sequence of photo indices in the order the user picked
    them. Toggling an index appends it when it is absent and removes it at
    its position when it is present; the toggle is abandoned when the result
    would be longer than the configured maximum. */
module Selection {
  import opened Wrappers

  /** The elements of `s` are pairwise distinct. */
  ghost predicate NoDuplicates<T>(s: seq<T>) {
    forall i, j :: 0 <= i < j < |s| ==> s[i] != s[j]
  }

  /** JavaScript's `Array.prototype.indexOf`: the position of the first
      occurrence of `x` in `s`, or -1 when `x` does not occur. */
  function IndexOf<T(==)>(s: seq<T>, x: T): (r: int)
    ensures -1 <= r < |s|
    ensures r == -1 <==> x !in s
    ensures 0 <= r ==> s[r] == x && x !in s[..r]
  {
    if |s| == 0 then -1
    else if s[0] == x then 0
    else
      var k := IndexOf(s[1..], x);
      assert s[1..][..k + 1] == s[..k + 2][1..] by { if k >= 0 {} }
      if k == -1 then -1 else k + 1
  }

  /** `splice(k, 1)`: `s` without its element at position `k`. */
  function RemoveAt<T>(s: seq<T>, k: nat): (r: seq<T>)
    requires k < |s|
    ensures |r| == |s| - 1
    ensures forall j :: 0 <= j < k ==> r[j] == s[j]
    ensures forall j :: k <= j < |r| ==> r[j] == s[j + 1]
  {
    s[..k] + s[k + 1..]
  }

  /** The sequence `selectImage` builds from a copy of the selection before
      checking it against the maximum: `index` pushed at the end when it is
      absent, spliced out at its position when it is present. */
  function Toggle(s: seq<nat>, index: nat): (r: seq<nat>)
    ensures index !in s ==> r == s + [index]
    ensures index in s ==> exists k :: 0 <= k < |s| && s[k] == index && index !in s[..k] && r == s[..k] + s[k + 1..]
  {
    var k := IndexOf(s, index);
    if k == -1 then s + [index] else RemoveAt(s, k)
  }

  /** The selection after `selectImage(index)` with maximum `max`: the toggled
      sequence when it fits, the old selection otherwise. */
  function SelectionAfter(s: seq<nat>, index: nat, max: nat): (r: seq<nat>)
    ensures |Toggle(s, index)| > max ==> r == s
    ensures |s| <= max ==> |r| <= max
    ensures NoDuplicates(s) ==> NoDuplicates(r)
    ensures NoDuplicates(s) && |s| <= max ==> (r == s <==> index !in s && |s| == max)
  {
    ToggleKeepsNoDuplicates(s, index);
    if |Toggle(s, index)| > max then s else Toggle(s, index)
  }

  /** Whether `selectImage(index)` is accepted, in which case `onChange` is
      called with the new selection length. */
  predicate Accepted(s: seq<nat>, index: nat, max: nat) {
    |Toggle(s, index)| <= max
  }

  /** What a tile shows about the selection: whether its index is selected
      and its 1-based rank in selection order (0 when not selected). */
  datatype TileState = TileState(selected: bool, selectedItemCount: int)

  /** The two values `renderImageTile` derives from the selection. */
  function TileSelection(s: seq<nat>, index: nat): (r: TileState)
    ensures r.selected <==> index in s
    ensures 0 <= r.selectedItemCount <= |s|
    ensures r.selectedItemCount == 0 <==> !r.selected
    ensures r.selected ==> s[r.selectedItemCount - 1] == index && index !in s[..r.selectedItemCount - 1]
  {
    TileState(IndexOf(s, index) != -1, IndexOf(s, index) + 1)
  }

  /** `selected.map(i => photos[i])`: the photo behind each selected index,
      in selection order; an index past the end of `photos` reads as
      `undefined`, here `None`. */
  function SelectedPhotos<A>(s: seq<nat>, photos: seq<A>): (r: seq<Option<A>>)
    ensures |r| == |s|
    ensures forall k :: 0 <= k < |s| && s[k] < |photos| ==> r[k] == Some(photos[s[k]])
    ensures forall k :: 0 <= k < |s| && s[k] >= |photos| ==> r[k] == None
  {
    if |s| == 0 then []
    else
      var head := if s[0] < |photos| then Some(photos[s[0]]) else None;
      [head] + SelectedPhotos(s[1..], photos)
  }

  /** The selection after a run of `selectImage` calls, one per element of
      `indices`, starting from `s`. */
  function ToggleAll(s: seq<nat>, indices: seq<nat>, max: nat): (r: seq<nat>)
    decreases |indices|
  {
    if |indices| == 0 then s
    else ToggleAll(SelectionAfter(s, indices[0], max), indices[1..], max)
  }

  // ---------------------------------------------------------------------------
  // Lemmas

  /** The rank of a selected index is its position plus one, because a
      selection without duplicates holds each index at one position only. */
  lemma RankIsPosition(s: seq<nat>, k: nat)
    requires NoDuplicates(s)
    requires k < |s|
    ensures TileSelection(s, s[k]) == TileState(true, k + 1)
  {
    var r := IndexOf(s, s[k]);
    assert s[k] !in s[..r];
  }

  /** Toggling keeps a selection free of duplicates. */
  lemma ToggleKeepsNoDuplicates(s: seq<nat>, index: nat)
    ensures NoDuplicates(s) ==> NoDuplicates(Toggle(s, index))
  {
    if NoDuplicates(s) && index in s {
      var k := IndexOf(s, index);
      var r := Toggle(s, index);
      forall i, j | 0 <= i < j < |r| ensures r[i] != r[j] {
        var i' := if i < k then i else i + 1;
        var j' := if j < k then j else j + 1;
        assert r[i] == s[i'] && r[j] == s[j'];
      }
    }
  }

  /** Toggling is a symmetric difference with `{index}` on the set of
      selected indices. */
  lemma ToggleMembership(s: seq<nat>, index: nat, x: nat)
    requires NoDuplicates(s)
    ensures x in Toggle(s, index) <==> (x in s) != (x == index)
  {
    if index in s {
      var k := IndexOf(s, index);
      var r := Toggle(s, index);
      if x in s && x != index {
        var p :| 0 <= p < |s| && s[p] == x;
        assert r[if p < k then p else p - 1] == x;
      }
      if x in r {
        var p :| 0 <= p < |r| && r[p] == x;
        var p' := if p < k then p else p + 1;
        assert s[p'] == x && p' != k;
      }
    }
  }

  /** Selecting an absent index appends it and keeps every earlier entry in
      place; the length grows by one. */
  lemma SelectAppends(s: seq<nat>, index: nat, max: nat)
    requires index !in s
    requires |s| < max
    ensures SelectionAfter(s, index, max) == s + [index]
    ensures SelectionAfter(s, index, max)[..|s|] == s
  {
  }

  /** Deselecting removes exactly the toggled element and keeps the others in
      their relative order; it is never rejected by the maximum. */
  lemma DeselectRemovesOne(s: seq<nat>, index: nat, max: nat)
    requires NoDuplicates(s)
    requires |s| <= max
    requires index in s
    ensures Accepted(s, index, max)
    ensures |SelectionAfter(s, index, max)| == |s| - 1
    ensures index !in SelectionAfter(s, index, max)
    ensures multiset(SelectionAfter(s, index, max)) == multiset(s) - multiset{index}
    ensures forall k :: 0 <= k < |s| && s[k] == index ==> SelectionAfter(s, index, max) == s[..k] + s[k + 1..]
  {
    var k := IndexOf(s, index);
    var r := SelectionAfter(s, index, max);
    assert s == s[..k] + [index] + s[k + 1..];
    assert r == s[..k] + s[k + 1..];
    ToggleMembership(s, index, index);
  }

  /** Selecting an absent index and toggling it again restores the exact
      prior selection; at the limit both toggles are refused, which restores
      it too. */
  lemma SelectThenDeselect(s: seq<nat>, index: nat, max: nat)
    requires index !in s
    ensures SelectionAfter(SelectionAfter(s, index, max), index, max) == s
  {
    if |s| < max {
      var t := s + [index];
      SelectAppends(s, index, max);
      assert IndexOf(t, index) == |s|;
      assert Toggle(t, index) == t[..|s|] + t[|s| + 1..];
      assert t[..|s|] == s;
    }
  }

  /** The converse fails: deselecting the index at position `k` and
      selecting it again moves it from its place to the end of the
      selection order. */
  lemma DeselectThenSelectMovesToEnd(s: seq<nat>, k: nat, max: nat)
    requires NoDuplicates(s)
    requires |s| <= max
    requires k < |s|
    ensures SelectionAfter(SelectionAfter(s, s[k], max), s[k], max) == s[..k] + s[k + 1..] + [s[k]]
  {
    DeselectRemovesOne(s, s[k], max);
    var r := SelectionAfter(s, s[k], max);
    assert r == s[..k] + s[k + 1..];
    SelectAppends(r, s[k], max);
  }

  /** When the selection is already longer than `max` by two or more (the
      host lowered the `max` prop), even a deselect is refused: its result is
      still over the limit. */
  lemma DeselectRefusedAboveMax(s: seq<nat>, index: nat, max: nat)
    requires index in s
    requires |s| > max + 1
    ensures !Accepted(s, index, max)
    ensures SelectionAfter(s, index, max) == s
  {
    var k := IndexOf(s, index);
    assert Toggle(s, index) == RemoveAt(s, k);
  }

  /** The selection keeps its bound and stays free of duplicates over any run
      of toggles. */
  lemma {:induction false} ToggleAllKeepsBound(s: seq<nat>, indices: seq<nat>, max: nat)
    requires NoDuplicates(s)
    requires |s| <= max
    ensures NoDuplicates(ToggleAll(s, indices, max))
    ensures |ToggleAll(s, indices, max)| <= max
    decreases |indices|
  {
    if |indices| > 0 {
      ToggleAllKeepsBound(SelectionAfter(s, indices[0], max), indices[1..], max);
    }
  }

  /** Selecting 3, 1 and 4 and then deselecting 1 leaves 3 and 4 in that
      order, and 4 is shown with rank 2. */
  lemma SelectionScenario()
    ensures ToggleAll([], [3, 1, 4, 1], 4) == [3, 4]
    ensures TileSelection(ToggleAll([], [3, 1, 4, 1], 4), 4).selectedItemCount == 2
  {
    assert SelectionAfter([], 3, 4) == [3];
    assert IndexOf([3], 1) == -1;
    assert SelectionAfter([3], 1, 4) == [3, 1];
    assert IndexOf([3, 1], 4) == -1;
    assert SelectionAfter([3, 1], 4, 4) == [3, 1, 4];
    assert IndexOf([3, 1, 4], 1) == 1;
    assert SelectionAfter([3, 1, 4], 1, 4) == [3, 4];
    assert ToggleAll([], [3, 1, 4, 1], 4) == ToggleAll([3], [1, 4, 1], 4);
    assert ToggleAll([3], [1, 4, 1], 4) == ToggleAll([3, 1], [4, 1], 4);
    assert ToggleAll([3, 1], [4, 1], 4) == ToggleAll([3, 1, 4], [1], 4);
    assert ToggleAll([3, 1, 4], [1], 4) == ToggleAll([3, 4], [], 4);
    assert IndexOf([3, 4], 4) == 1;
  }
}
