/**
 * The variant picker as the page holds it: the option selects, the hidden
 * variant-id field, the gallery's media items and the colour swatches, with
 * the handlers that update them in place.
 */
module ProductPage {
  import opened Wrappers
  import opened Text
  import opened Variants
  import opened Gallery

  /** The colour option name `initVariantLogic` hands to the gallery update. */
  const ColorOptionName: string := "Color"

  /** A `[data-swatch]` button: the option index and value it stands for, and
      whether it carries the `is-active` class. */
  datatype Swatch = Swatch(optionIndex: int, value: string, active: bool)

  /** The hidden `[data-variant-id]` input after `setVariantId`: written
      when the input exists, absent otherwise. */
  function WithVariantId(field: Option<string>, id: string): (r: Option<string>)
    ensures r.Some? <==> field.Some?
    ensures r.Some? ==> r.value == id
  {
    if field.Some? then Some(id) else None
  }

  /** The id field and media items after one `onChange` pass, given the
      selected values and the colour select's value. */
  function ChangeEffect(variants: seq<Variant>, selected: seq<string>, colorValue: Option<string>,
                        idField: Option<string>, items: seq<MediaItem>): (r: (Option<string>, seq<MediaItem>))
    ensures SameItems(r.1, items)
  {
    match FindVariant(variants, selected)
    case None => (idField, items)
    case Some(v) => (WithVariantId(idField, v.id), Update(items, v, ColorOptionName, colorValue))
  }

  /** When no variant agrees with the selection, the id field and the gallery
      keep their previous state. */
  lemma NoMatchChangesNothing(variants: seq<Variant>, selected: seq<string>, colorValue: Option<string>,
                              idField: Option<string>, items: seq<MediaItem>)
    requires forall j :: 0 <= j < |variants| ==> !Matches(variants[j], selected)
    ensures ChangeEffect(variants, selected, colorValue, idField, items) == (idField, items)
  {
  }

  /** When a variant agrees, the id field (if present) holds the id of the
      first agreeing variant, and the gallery shows what the policy gives for
      that variant. */
  lemma MatchSetsFirstVariant(variants: seq<Variant>, selected: seq<string>, colorValue: Option<string>,
                              idField: Option<string>, items: seq<MediaItem>, k: nat)
    requires k < |variants| && Matches(variants[k], selected)
    requires forall j :: 0 <= j < k ==> !Matches(variants[j], selected)
    ensures var (id, shown) := ChangeEffect(variants, selected, colorValue, idField, items);
            && (idField.Some? ==> id == Some(variants[k].id))
            && (idField.None? ==> id.None?)
            && shown == Update(items, variants[k], ColorOptionName, colorValue)
  {
    var r := FindVariant(variants, selected);
    assert r.Some?;
    var m :| 0 <= m < |variants| && variants[m] == r.value && Matches(variants[m], selected)
             && forall j :: 0 <= j < m ==> !Matches(variants[j], selected);
    assert m == k;
  }

  /** A swatch `initSwatches` marks active: its value is the colour select's
      non-empty value. */
  predicate MarkedOnInit(s: Swatch, colorValue: Option<string>) {
    colorValue.Some? && colorValue.value != "" && s.value == colorValue.value
  }

  class Page {
    const product: Product
    /** The `[data-option-select]` values; the one at position i carries
        `data-option-index` i. */
    const selects: array<string>
    /** Which select sits inside `[data-color-option]`, if any. */
    const colorSelect: Option<nat>
    /** The hidden `[data-variant-id]` input's value, `None` if there is none. */
    var idField: Option<string>
    const media: array<MediaItem>
    const swatches: array<Swatch>

    ghost predicate Valid()
      reads this
    {
      colorSelect.Some? ==> colorSelect.value < selects.Length
    }

    constructor (product: Product, selectValues: seq<string>, colorSelect: Option<nat>, idField: Option<string>,
                 items: seq<MediaItem>, buttons: seq<Swatch>)
      requires colorSelect.Some? ==> colorSelect.value < |selectValues|
      ensures Valid()
      ensures this.product == product && this.colorSelect == colorSelect && this.idField == idField
      ensures selects[..] == selectValues && media[..] == items && swatches[..] == buttons
      ensures fresh(selects) && fresh(media) && fresh(swatches)
    {
      this.product := product;
      this.colorSelect := colorSelect;
      this.idField := idField;
      selects := new string[|selectValues|](i requires 0 <= i < |selectValues| => selectValues[i]);
      media := new MediaItem[|items|](i requires 0 <= i < |items| => items[i]);
      swatches := new Swatch[|buttons|](i requires 0 <= i < |buttons| => buttons[i]);
    }

    /** The colour select's current value, `None` without a colour select. */
    function ColorValue(): Option<string>
      reads this, selects
      requires Valid()
    {
      if colorSelect.Some? then Some(selects[colorSelect.value]) else None
    }

    /** `setVariantId(root, id)` */
    method SetVariantId(id: string)
      modifies this`idField
      ensures idField == WithVariantId(old(idField), id)
    {
      if idField.Some? {
        idField := Some(id);
      }
    }

    /** `items.forEach(el => el.style.display = ...)` */
    method SetAllVisible(visible: bool)
      modifies media
      ensures forall i :: 0 <= i < media.Length ==> media[i] == old(media[i]).(visible := visible)
    {
      var i := 0;
      while i < media.Length
        invariant 0 <= i <= media.Length
        invariant forall j :: 0 <= j < i ==> media[j] == old(media[j]).(visible := visible)
        invariant forall j :: i <= j < media.Length ==> media[j] == old(media[j])
      {
        media[i] := media[i].(visible := visible);
        i := i + 1;
      }
    }

    /** `items.find(el => String(el.dataset.mediaId) === String(id))`: the first
        media item with that id. */
    method FindMedia(id: string) returns (r: Option<nat>)
      ensures r == FirstWithId(media[..], id)
    {
      var i := 0;
      while i < media.Length
        invariant 0 <= i <= media.Length
        invariant forall j :: 0 <= j < i ==> media[j].mediaId != id
      {
        if media[i].mediaId == id {
          assert media[..][i].mediaId == id;
          return Some(i);
        }
        i := i + 1;
      }
      return None;
    }

    /** `filtered.length` is non-zero: some media item carries colour key `c`. */
    method AnyWithColor(c: string) returns (found: bool)
      ensures found <==> HasColor(media[..], c)
    {
      var i := 0;
      while i < media.Length
        invariant 0 <= i <= media.Length
        invariant forall j :: 0 <= j < i ==> ColorKey(media[j]) != c
      {
        if ColorKey(media[i]) == c {
          assert ColorKey(media[..][i]) == c;
          return true;
        }
        i := i + 1;
      }
      return false;
    }

    /** `filtered.forEach(el => el.style.display = '')` */
    method ShowColor(c: string)
      modifies media
      ensures forall i :: 0 <= i < media.Length ==>
                media[i] == old(media[i]).(visible := old(media[i]).visible || ColorKey(old(media[i])) == c)
    {
      var i := 0;
      while i < media.Length
        invariant 0 <= i <= media.Length
        invariant forall j :: 0 <= j < i ==>
                    media[j] == old(media[j]).(visible := old(media[j]).visible || ColorKey(old(media[j])) == c)
        invariant forall j :: i <= j < media.Length ==> media[j] == old(media[j])
      {
        if ColorKey(media[i]) == c {
          media[i] := media[i].(visible := true);
        }
        i := i + 1;
      }
    }

    /** `updateGalleryForVariant(root, v, colorOptionName)`: the media items
        end up as the gallery policy prescribes. */
    method UpdateGalleryForVariant(v: Variant, colorOptionName: string)
      requires Valid()
      modifies media
      ensures media[..] == Update(old(media[..]), v, colorOptionName, ColorValue())
    {
      if media.Length == 0 {
        return;
      }
      ghost var items := media[..];
      SetAllVisible(true);
      assert media[..] == ShowAll(items);
      var featured := FeaturedId(v);
      if featured.Some? {
        var m := FindMedia(featured.value);
        if m.Some? {
          ShowOnly(m.value);
          return;
        }
      }
      FilterByColor(colorOptionName);
    }

    /** The colour step of `updateGalleryForVariant`: with a colour option
        name, a non-empty selected colour and at least one item carrying it,
        show exactly the items with that colour; otherwise change nothing. */
    method FilterByColor(colorOptionName: string)
      requires Valid()
      modifies media
      ensures media[..] == ColorFilter(old(media[..]), colorOptionName, ColorValue())
    {
      if colorOptionName != "" {
        var selectedColor := if colorSelect.Some? then Normalize(selects[colorSelect.value]) else "";
        assert selectedColor == SelectedColorKey(ColorValue());
        if selectedColor != "" {
          var any := AnyWithColor(selectedColor);
          if any {
            ShowOnlyColor(selectedColor);
          }
        }
      }
    }

    /** Hide every item, then show item `k` again. */
    method ShowOnly(k: nat)
      requires k < media.Length
      modifies media
      ensures media[..] == ShowOnlyAt(old(media[..]), k)
    {
      SetAllVisible(false);
      media[k] := media[k].(visible := true);
    }

    /** Hide every item, then show those whose colour key is `c`. */
    method ShowOnlyColor(c: string)
      modifies media
      ensures media[..] == Gallery.ShowOnlyColor(old(media[..]), c)
    {
      SetAllVisible(false);
      ShowColor(c);
    }

    /** `onChange`: resolve the variant from the current selection; when one
        is found, write its id and update the gallery, otherwise change nothing. */
    method OnChange()
      requires Valid()
      modifies this`idField, media
      ensures (idField, media[..]) == ChangeEffect(product.variants, selects[..], ColorValue(), old(idField), old(media[..]))
    {
      var selected := selects[..];
      var variant := FindVariant(product.variants, selected);
      if variant.None? {
        return;
      }
      SetVariantId(variant.value.id);
      UpdateGalleryForVariant(variant.value, ColorOptionName);
    }

    /** The initial pass of `initSwatches`: every swatch whose value is the
        colour select's non-empty value gains `is-active`; none loses it. */
    method InitSwatches()
      requires Valid()
      modifies swatches
      ensures forall i :: 0 <= i < swatches.Length ==>
                swatches[i] == old(swatches[i]).(active := old(swatches[i]).active || MarkedOnInit(old(swatches[i]), ColorValue()))
    {
      var activeValue := ColorValue();
      var i := 0;
      while i < swatches.Length
        invariant 0 <= i <= swatches.Length
        invariant forall j :: 0 <= j < i ==>
                    swatches[j] == old(swatches[j]).(active := old(swatches[j]).active || MarkedOnInit(old(swatches[j]), activeValue))
        invariant forall j :: i <= j < swatches.Length ==> swatches[j] == old(swatches[j])
      {
        if activeValue.Some? && activeValue.value != "" && swatches[i].value == activeValue.value {
          swatches[i] := swatches[i].(active := true);
        }
        i := i + 1;
      }
    }

    /** The click handler of swatch `k`: when a select has the swatch's option
        index, set it to the swatch's value, run `onChange`, and make the
        clicked swatch the only active one; otherwise do nothing. */
    method ClickSwatch(k: nat)
      requires Valid() && k < swatches.Length
      modifies selects, this`idField, media, swatches
      ensures var s := old(swatches[k]);
              !(0 <= s.optionIndex < selects.Length) ==>
                && selects[..] == old(selects[..]) && idField == old(idField)
                && media[..] == old(media[..]) && swatches[..] == old(swatches[..])
      ensures var s := old(swatches[k]);
              0 <= s.optionIndex < selects.Length ==>
                && selects[..] == old(selects[..])[s.optionIndex := s.value]
                && (idField, media[..]) == ChangeEffect(product.variants, selects[..], ColorValue(), old(idField), old(media[..]))
                && (forall i :: 0 <= i < swatches.Length ==> swatches[i] == old(swatches[i]).(active := i == k))
                && swatches[k].active && selects[s.optionIndex] == swatches[k].value
    {
      var optionIndex := swatches[k].optionIndex;
      var optionValue := swatches[k].value;
      if !(0 <= optionIndex < selects.Length) {
        return;
      }
      selects[optionIndex] := optionValue;
      OnChange();
      DeactivateAll();
      swatches[k] := swatches[k].(active := true);
    }

    /** `$all('[data-swatch]', swatchesWrap).forEach(b => b.classList.remove('is-active'))` */
    method DeactivateAll()
      modifies swatches
      ensures forall i :: 0 <= i < swatches.Length ==> swatches[i] == old(swatches[i]).(active := false)
    {
      var i := 0;
      while i < swatches.Length
        invariant 0 <= i <= swatches.Length
        invariant forall j :: 0 <= j < i ==> swatches[j] == old(swatches[j]).(active := false)
        invariant forall j :: i <= j < swatches.Length ==> swatches[j] == old(swatches[j])
      {
        swatches[i] := swatches[i].(active := false);
        i := i + 1;
      }
    }

    /** `initVariantLogic` once the product JSON is found: one resolution
        pass for the preselected options, then the swatches' initial state. */
    method InitVariantLogic()
      requires Valid()
      modifies this`idField, media, swatches
      ensures (idField, media[..]) == ChangeEffect(product.variants, selects[..], ColorValue(), old(idField), old(media[..]))
      ensures forall i :: 0 <= i < swatches.Length ==>
                swatches[i] == old(swatches[i]).(active := old(swatches[i]).active || MarkedOnInit(old(swatches[i]), ColorValue()))
    {
      OnChange();
      InitSwatches();
    }
  }
}
