/**
 * Variant resolution: the product catalogue embedded in the page and the
 * search that maps the option values currently selected to a variant.
 */
module Variants {
  import opened Wrappers

  /** One purchasable combination of option values. `featuredMedia` is the
      string form of `featured_media.id`, `None` when the variant has none. */
  datatype Variant = Variant(id: string, options: seq<string>, featuredMedia: Option<string>)

  datatype Product = Product(id: string, variants: seq<Variant>)

  /** `selected.every((val, idx) => v.options[idx] === val)`: only the selected
      positions are compared, and a position the variant lacks is `undefined`,
      which equals no selected (string) value. */
  predicate Matches(v: Variant, selected: seq<string>) {
    forall i :: 0 <= i < |selected| ==> i < |v.options| && v.options[i] == selected[i]
  }

  /** Index of the first variant at or after `from` that matches `selected`. */
  function FirstMatchFrom(variants: seq<Variant>, selected: seq<string>, from: nat): (r: Option<nat>)
    requires from <= |variants|
    decreases |variants| - from
    ensures r.Some? ==> from <= r.value < |variants| && Matches(variants[r.value], selected)
    ensures r.Some? ==> forall j :: from <= j < r.value ==> !Matches(variants[j], selected)
    ensures r.None? ==> forall j :: from <= j < |variants| ==> !Matches(variants[j], selected)
  {
    if from == |variants| then None
    else if Matches(variants[from], selected) then Some(from)
    else FirstMatchFrom(variants, selected, from + 1)
  }

  /** `productJson.variants.find(...)`: the first variant, in declaration
      order, that agrees with every selected value; `None` if none does. */
  function FindVariant(variants: seq<Variant>, selected: seq<string>): (r: Option<Variant>)
    ensures r.None? <==> forall j :: 0 <= j < |variants| ==> !Matches(variants[j], selected)
    ensures r.Some? ==>
              exists k :: && 0 <= k < |variants| && variants[k] == r.value
                          && Matches(variants[k], selected)
                          && forall j :: 0 <= j < k ==> !Matches(variants[j], selected)
  {
    match FirstMatchFrom(variants, selected, 0)
    case None => None
    case Some(k) => Some(variants[k])
  }

  /** A variant matches exactly when the selection is a prefix of its option
      values: trailing options the selection does not cover are ignored. */
  lemma MatchesIffPrefix(v: Variant, selected: seq<string>)
    ensures Matches(v, selected) <==> |selected| <= |v.options| && v.options[..|selected|] == selected
  {
    if Matches(v, selected) {
      if selected != [] {
        var last := |selected| - 1;
        assert 0 <= last < |selected| && selected[last] == selected[last];
        assert last < |v.options|;
      }
      assert v.options[..|selected|] == selected;
    }
    if |selected| <= |v.options| && v.options[..|selected|] == selected {
      forall i | 0 <= i < |selected| ensures i < |v.options| && v.options[i] == selected[i] {
        assert v.options[..|selected|][i] == selected[i];
      }
    }
  }

  /** With nothing selected, the first declared variant is the one found. */
  lemma {:induction false} EmptySelectionFindsFirst(variants: seq<Variant>)
    requires variants != []
    ensures FindVariant(variants, []) == Some(variants[0])
  {
    assert Matches(variants[0], []);
  }

  /** When exactly one variant agrees with the selection, that variant is found. */
  lemma {:induction false} UniqueMatchIsFound(variants: seq<Variant>, selected: seq<string>, k: nat)
    requires k < |variants| && Matches(variants[k], selected)
    requires forall j :: 0 <= j < |variants| && j != k ==> !Matches(variants[j], selected)
    ensures FindVariant(variants, selected) == Some(variants[k])
  {
    var r := FirstMatchFrom(variants, selected, 0);
    assert r.Some?;
    assert r.value == k;
  }
}
