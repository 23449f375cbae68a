/**
 * The gallery visibility policy applied after each variant change: reset
 * every media item to visible, then prefer the variant's featured media,
 * then fall back to a filter on the selected colour, and never hide the
 * whole gallery.
 */
module Gallery {
  import opened Wrappers
  import opened Text
  import opened Variants

  /** A `[data-media-id]` element: its media id, its optional `data-media-color`
      tag, and whether it is displayed (`style.display` is not `none`). */
  datatype MediaItem = MediaItem(mediaId: string, colorTag: Option<string>, visible: bool)

  /** `(el.dataset.mediaColor || '').trim().toLowerCase()` */
  function ColorKey(m: MediaItem): string {
    Normalize(m.colorTag.GetOr(""))
  }

  /** The selected colour as the gallery compares it: the colour select's
      value trimmed and lower-cased, or empty when there is no colour select. */
  function SelectedColorKey(selected: Option<string>): string {
    Normalize(selected.GetOr(""))
  }

  /** `variant.featured_media && variant.featured_media.id`, as a string;
      an empty id counts as absent. */
  function FeaturedId(v: Variant): (r: Option<string>)
    ensures r.Some? <==> v.featuredMedia.Some? && v.featuredMedia.value != ""
    ensures r.Some? ==> r == v.featuredMedia
  {
    if v.featuredMedia.Some? && v.featuredMedia.value != "" then v.featuredMedia else None
  }

  /** `items.find(el => String(el.dataset.mediaId) === id)`, as an index. */
  function FirstWithId(items: seq<MediaItem>, id: string): (r: Option<nat>)
    ensures r.Some? ==> r.value < |items| && items[r.value].mediaId == id
    ensures r.Some? ==> forall j :: 0 <= j < r.value ==> items[j].mediaId != id
    ensures r.None? ==> forall j :: 0 <= j < |items| ==> items[j].mediaId != id
  {
    if items == [] then None
    else if items[0].mediaId == id then Some(0)
    else match FirstWithId(items[1..], id)
      case None => None
      case Some(k) => Some(k + 1)
  }

  /** The item the variant's featured media designates, if any. */
  function FeaturedMatch(items: seq<MediaItem>, v: Variant): Option<nat> {
    match FeaturedId(v)
    case None => None
    case Some(f) => FirstWithId(items, f)
  }

  predicate HasColor(items: seq<MediaItem>, c: string) {
    exists i :: 0 <= i < |items| && ColorKey(items[i]) == c
  }

  function WithVisibility(items: seq<MediaItem>, flags: seq<bool>): (r: seq<MediaItem>)
    requires |flags| == |items|
    ensures |r| == |items|
  {
    seq(|items|, i requires 0 <= i < |items| => items[i].(visible := flags[i]))
  }

  /** Step 1, `items.forEach(el => el.style.display = '')`. */
  function ShowAll(items: seq<MediaItem>): (r: seq<MediaItem>)
    ensures SameItems(r, items)
    ensures forall i :: 0 <= i < |r| ==> r[i].visible
  {
    WithVisibility(items, seq(|items|, i => true))
  }

  /** Step 2 when the featured media is found at `k`: hide all, show `k`. */
  function ShowOnlyAt(items: seq<MediaItem>, k: nat): (r: seq<MediaItem>)
    ensures SameItems(r, items)
    ensures forall i :: 0 <= i < |r| ==> (r[i].visible <==> i == k)
  {
    WithVisibility(items, seq(|items|, i => i == k))
  }

  /** Hide every item, then show those whose colour key is `c`. */
  function ShowOnlyColor(items: seq<MediaItem>, c: string): (r: seq<MediaItem>)
    ensures SameItems(r, items)
    ensures forall i :: 0 <= i < |r| ==> (r[i].visible <==> ColorKey(items[i]) == c)
  {
    WithVisibility(items, seq(|items|, i requires 0 <= i < |items| => ColorKey(items[i]) == c))
  }

  /** Step 3, the colour filter: with a colour option name and a non-empty
      selected colour that some item carries, show exactly the items with
      that colour; otherwise leave the items as they are. */
  function ColorFilter(items: seq<MediaItem>, colorOptionName: string, selected: Option<string>): (r: seq<MediaItem>)
    ensures SameItems(r, items)
  {
    var c := SelectedColorKey(selected);
    if colorOptionName != "" && c != "" && HasColor(items, c)
    then ShowOnlyColor(items, c)
    else items
  }

  /** The media items after `updateGalleryForVariant(root, v, colorOptionName)`,
      given the colour select's value. An empty gallery is left as it is. */
  function Update(items: seq<MediaItem>, v: Variant, colorOptionName: string, selected: Option<string>): (r: seq<MediaItem>)
    ensures |r| == |items|
    ensures forall i :: 0 <= i < |items| ==> r[i].mediaId == items[i].mediaId && r[i].colorTag == items[i].colorTag
  {
    if items == [] then items
    else
      var shown := ShowAll(items);
      match FeaturedMatch(shown, v)
      case Some(k) => ShowOnlyAt(shown, k)
      case None => ColorFilter(shown, colorOptionName, selected)
  }

  /** Two galleries with the same items, whatever they currently show. */
  predicate SameItems(a: seq<MediaItem>, b: seq<MediaItem>) {
    |a| == |b| && forall i :: 0 <= i < |a| ==> a[i].mediaId == b[i].mediaId && a[i].colorTag == b[i].colorTag
  }

  lemma FirstWithIdSameItems(a: seq<MediaItem>, b: seq<MediaItem>, id: string)
    requires SameItems(a, b)
    ensures FirstWithId(a, id) == FirstWithId(b, id)
  {
    assert forall j :: 0 <= j < |a| ==> (a[j].mediaId == id <==> b[j].mediaId == id);
  }

  lemma HasColorSameItems(a: seq<MediaItem>, b: seq<MediaItem>, c: string)
    requires SameItems(a, b)
    ensures HasColor(a, c) == HasColor(b, c)
  {
    assert forall i :: 0 <= i < |a| ==> ColorKey(a[i]) == ColorKey(b[i]);
  }

  /** Resetting to visible forgets what the items showed before. */
  lemma ShowAllSameItems(a: seq<MediaItem>, b: seq<MediaItem>)
    requires SameItems(a, b)
    ensures ShowAll(a) == ShowAll(b)
  {
    assert forall i :: 0 <= i < |a| ==> ShowAll(a)[i] == ShowAll(b)[i];
  }

  /** The featured item, when the variant has one that is in the gallery, is
      the only item shown: the first item with that id, all others hidden. */
  lemma FeaturedShowsOnlyMatch(items: seq<MediaItem>, v: Variant, colorOptionName: string, selected: Option<string>, k: nat)
    requires k < |items| && FeaturedId(v) == Some(items[k].mediaId)
    requires forall j :: 0 <= j < k ==> items[j].mediaId != items[k].mediaId
    ensures forall i :: 0 <= i < |items| ==> (Update(items, v, colorOptionName, selected)[i].visible <==> i == k)
  {
    var shown := ShowAll(items);
    FirstWithIdSameItems(shown, items, items[k].mediaId);
    assert FirstWithId(items, items[k].mediaId) == Some(k);
  }

  /** Without a featured match, what is shown is the colour filter applied
      to the reset gallery. */
  lemma {:induction false} NoFeaturedMatchFilters(items: seq<MediaItem>, v: Variant, colorOptionName: string, selected: Option<string>)
    requires items != []
    requires forall i :: 0 <= i < |items| ==> FeaturedId(v) != Some(items[i].mediaId)
    ensures Update(items, v, colorOptionName, selected) == ColorFilter(ShowAll(items), colorOptionName, selected)
    ensures SameItems(ShowAll(items), items)
  {
    var shown := ShowAll(items);
    assert SameItems(shown, items);
    if FeaturedId(v).Some? {
      FirstWithIdSameItems(shown, items, FeaturedId(v).value);
    }
    assert FeaturedMatch(shown, v).None?;
  }

  /** Without a featured match, a non-empty selected colour that some item
      carries shows exactly the items tagged with that colour. */
  lemma ColorFilterShowsExactlyMatches(items: seq<MediaItem>, v: Variant, colorOptionName: string, selected: Option<string>)
    requires forall i :: 0 <= i < |items| ==> FeaturedId(v) != Some(items[i].mediaId)
    requires colorOptionName != "" && SelectedColorKey(selected) != ""
    requires HasColor(items, SelectedColorKey(selected))
    ensures forall i :: 0 <= i < |items| ==>
              (Update(items, v, colorOptionName, selected)[i].visible <==> ColorKey(items[i]) == SelectedColorKey(selected))
  {
    var c := SelectedColorKey(selected);
    NoFeaturedMatchFilters(items, v, colorOptionName, selected);
    var shown := ShowAll(items);
    HasColorSameItems(shown, items, c);
    assert Update(items, v, colorOptionName, selected) == ShowOnlyColor(shown, c);
    assert forall i :: 0 <= i < |items| ==> ColorKey(shown[i]) == ColorKey(items[i]);
  }

  /** Without a featured match, a missing or empty selected colour, or one no
      item carries, leaves every item visible. */
  lemma FallbackShowsAll(items: seq<MediaItem>, v: Variant, colorOptionName: string, selected: Option<string>)
    requires forall i :: 0 <= i < |items| ==> FeaturedId(v) != Some(items[i].mediaId)
    requires colorOptionName == "" || SelectedColorKey(selected) == "" || !HasColor(items, SelectedColorKey(selected))
    ensures forall i :: 0 <= i < |items| ==> Update(items, v, colorOptionName, selected)[i].visible
  {
    if items != [] {
      NoFeaturedMatchFilters(items, v, colorOptionName, selected);
      var shown := ShowAll(items);
      HasColorSameItems(shown, items, SelectedColorKey(selected));
      assert Update(items, v, colorOptionName, selected) == shown;
    }
  }

  /** The policy never hides the whole gallery. */
  lemma NeverHidesAll(items: seq<MediaItem>, v: Variant, colorOptionName: string, selected: Option<string>)
    requires items != []
    ensures exists i :: 0 <= i < |items| && Update(items, v, colorOptionName, selected)[i].visible
  {
    var r := Update(items, v, colorOptionName, selected);
    var shown := ShowAll(items);
    match FeaturedMatch(shown, v)
    case Some(k) =>
      assert r == ShowOnlyAt(shown, k);
      assert r[k].visible;
    case None =>
      var c := SelectedColorKey(selected);
      if colorOptionName != "" && c != "" && HasColor(shown, c) {
        var i :| 0 <= i < |shown| && ColorKey(shown[i]) == c;
        assert r == ShowOnlyColor(shown, c);
        assert r[i].visible;
      } else {
        assert r == shown;
        assert r[0].visible;
      }
  }

  /** The result depends only on the items, not on what they showed before:
      the reset to visible comes first. */
  lemma UpdateIgnoresPriorVisibility(a: seq<MediaItem>, b: seq<MediaItem>, v: Variant, colorOptionName: string, selected: Option<string>)
    requires SameItems(a, b)
    ensures Update(a, v, colorOptionName, selected) == Update(b, v, colorOptionName, selected)
  {
    ShowAllSameItems(a, b);
  }

  /** Running the policy twice for the same variant and colour is the same as
      running it once. */
  lemma UpdateIdempotent(items: seq<MediaItem>, v: Variant, colorOptionName: string, selected: Option<string>)
    ensures Update(Update(items, v, colorOptionName, selected), v, colorOptionName, selected)
         == Update(items, v, colorOptionName, selected)
  {
    UpdateIgnoresPriorVisibility(Update(items, v, colorOptionName, selected), items, v, colorOptionName, selected);
  }
}
