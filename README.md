# Product detail page script, modelled in Dafny

This project models the behaviour of `assets/pdp-nomad.js`, the script of a
product detail page. The script does four things:

- **Accordion.** It splits the product description at its `h2` headings
  into collapsible `<details>` sections. Only the first section starts open.
- **Variant picker.** It resolves the selected option values to the first
  matching variant of the product. It then writes that variant's id into
  the hidden id field and updates the gallery.
- **Gallery.** It shows the variant's featured media when the gallery has
  it. Otherwise it filters the media by the selected colour. It never hides
  every item.
- **Swatches and "also bought".** Colour swatches drive the option selects
  and keep an `is-active` mark in sync. An "also bought" strip appends up to
  two available products, with HTML-escaped titles and prices shown in pence
  divided by 100.

Files, one module each:

- `wrappers.dfy`: `Option`.
- `text.dfy`: `trim`, ASCII `toLowerCase`, and decimal rendering of a
  natural number with its parser.
- `variants.dfy`: `findVariant`.
- `gallery.dfy`: the gallery visibility policy as functions on a sequence
  of media items, with the lemmas that state what it shows.
- `accordion.dfy`: the sectioning, as a specification (`Sections`) and as
  the loop the script runs (`BuildDetailsAccordion`).
- `html.dfy`: `escapeHtml`, with a decoder that undoes it.
- `also_bought.dfy`: filter, pick and render of the strip.
- `product_page.dfy`: class `Page`. It holds the option selects, the hidden
  id field, the media items and the swatches, all updated in place by
  `OnChange`, `UpdateGalleryForVariant`, `InitSwatches` and `ClickSwatch`.

`getSelectedOptions` is the array of select values (`selects[..]`). The
select at position i is the one tagged `data-option-index` i. The colour
select is an optional position in that array.

On load, `initSwatches` compares every swatch with the colour select's
value, whatever the swatch's own option index. It only adds `is-active` and
never removes it, so swatches marked before stay marked. `Page.InitSwatches`
states exactly that. Only a click leaves exactly one swatch active
(`Page.ClickSwatch`).

## Model

| member | source | states |
|---|---|---|
| Variants.Matches | assets/pdp-nomad.js:60 | a variant agrees with the selection when every selected position holds the same value in the variant; a position the variant lacks agrees with no value |
| Variants.FirstMatchFrom | assets/pdp-nomad.js:59-61 | the result is the first index at or after `from` whose variant agrees with every selected value; `None` exactly when none agrees |
| Variants.FindVariant | assets/pdp-nomad.js:58-62 | `None` iff no variant matches; otherwise a matching variant with no matching variant declared before it |
| Variants.MatchesIffPrefix | assets/pdp-nomad.js:60 | a variant matches iff the selection is a prefix of its option values (extra trailing options are ignored) |
| Variants.EmptySelectionFindsFirst | assets/pdp-nomad.js:58-62 | with nothing selected, the first declared variant is found |
| Variants.UniqueMatchIsFound | assets/pdp-nomad.js:58-62 | when exactly one variant matches, that variant is found |
| Gallery.FeaturedId | assets/pdp-nomad.js:78 | a featured id is present iff the variant has a non-empty featured media id, and it is that id |
| Gallery.FirstWithId | assets/pdp-nomad.js:79 | the index of the first item with that media id, or `None` iff no item has it |
| Gallery.ShowAll | assets/pdp-nomad.js:75 | every item becomes visible; ids and colour tags are kept |
| Gallery.ShowOnlyAt | assets/pdp-nomad.js:82-83 | exactly item `k` is visible; ids and colour tags are kept |
| Gallery.ShowOnlyColor | assets/pdp-nomad.js:102-103 | exactly the items whose colour key is `c` are visible; ids and colour tags are kept |
| Gallery.ColorFilter | assets/pdp-nomad.js:89-106 | the colour step keeps ids and colour tags; what it shows is stated by `ColorFilterShowsExactlyMatches` and `FallbackShowsAll` |
| Gallery.Update | assets/pdp-nomad.js:70-107 | the policy keeps every item's id and colour tag and changes only display flags |
| Gallery.FirstWithIdSameItems | assets/pdp-nomad.js:79 | the featured lookup depends only on ids, not on display flags |
| Gallery.HasColorSameItems | assets/pdp-nomad.js:100-101 | whether the colour filter matches anything depends only on colour tags |
| Gallery.ShowAllSameItems | assets/pdp-nomad.js:74-75 | after the reset to visible, the previous display flags are forgotten |
| Gallery.FeaturedShowsOnlyMatch | assets/pdp-nomad.js:78-85 | when the featured id is in the gallery, exactly its first occurrence is visible |
| Gallery.NoFeaturedMatchFilters | assets/pdp-nomad.js:77-106 | with no featured match, the result is the colour filter applied to the reset gallery |
| Gallery.ColorFilterShowsExactlyMatches | assets/pdp-nomad.js:89-105 | with no featured match, a colour option, and a non-empty selected colour that some item carries, the visible items are exactly those whose trimmed, lower-cased tag equals it |
| Gallery.FallbackShowsAll | assets/pdp-nomad.js:74-75 | with no featured match and no usable colour (no colour option, empty value, or no item carrying it), every item stays visible |
| Gallery.NeverHidesAll | assets/pdp-nomad.js:70-107 | a non-empty gallery always keeps at least one visible item |
| Gallery.UpdateIgnoresPriorVisibility | assets/pdp-nomad.js:74-75 | two galleries with the same items end up identical, whatever they showed before |
| Gallery.UpdateIdempotent | assets/pdp-nomad.js:70-107 | running the policy twice for the same variant and colour equals running it once |
| ProductPage.WithVariantId | assets/pdp-nomad.js:64-67 | the id field receives the id iff the field exists |
| ProductPage.ChangeEffect | assets/pdp-nomad.js:147-154 | the id field and media after one change pass; the gallery keeps its items (ids and colour tags) |
| ProductPage.NoMatchChangesNothing | assets/pdp-nomad.js:147-150 | when no variant matches the selection, the id field and the gallery are unchanged |
| ProductPage.MatchSetsFirstVariant | assets/pdp-nomad.js:147-154 | when variant k is the first match, an existing id field holds its id and the gallery is the policy's result for it |
| ProductPage.Page.SetVariantId | assets/pdp-nomad.js:64-67 | the id field, if present, now holds the id; nothing else changes |
| ProductPage.Page.SetAllVisible | assets/pdp-nomad.js:75 | every item's display flag is set, ids and tags untouched |
| ProductPage.Page.FindMedia | assets/pdp-nomad.js:79 | the loop returns `FirstWithId` of the media array: the first index holding the id, `None` iff there is none |
| ProductPage.Page.AnyWithColor | assets/pdp-nomad.js:100-101 | true iff some media item's colour key equals `c` |
| ProductPage.Page.ShowColor | assets/pdp-nomad.js:103 | items with colour key `c` become visible, others keep their flag |
| ProductPage.Page.ShowOnly | assets/pdp-nomad.js:82-83 | only item `k` is visible afterwards |
| ProductPage.Page.ShowOnlyColor | assets/pdp-nomad.js:102-103 | exactly the items with colour key `c` are visible afterwards |
| ProductPage.Page.FilterByColor | assets/pdp-nomad.js:89-106 | the media array becomes the colour step of the policy for the colour select's current value |
| ProductPage.Page.UpdateGalleryForVariant | assets/pdp-nomad.js:70-107 | the media array becomes `Gallery.Update` of its old contents for the variant and the colour select's value |
| ProductPage.Page.OnChange | assets/pdp-nomad.js:147-154 | id field and media become `ChangeEffect` of the current selection: unchanged without a match, otherwise the first match's id and gallery |
| ProductPage.Page.InitSwatches | assets/pdp-nomad.js:113-118 | a swatch gains `is-active` iff its value equals the colour select's non-empty value; none loses it |
| ProductPage.Page.ClickSwatch | assets/pdp-nomad.js:119-131 | without a select at the swatch's index nothing changes; otherwise that select takes the swatch's value, the change handler's effect follows, and the clicked swatch is the only active one, its value equal to its select's value |
| ProductPage.Page.DeactivateAll | assets/pdp-nomad.js:129 | every swatch loses `is-active` |
| ProductPage.Page.InitVariantLogic | assets/pdp-nomad.js:156-158 | one change pass for the preselected options, then the swatches' initial marking |
| Accordion.Headings | assets/pdp-nomad.js:17 | every listed position of the description holds an `h2` |
| Accordion.HeadingsFrom | assets/pdp-nomad.js:17 | every listed position holds an `h2` |
| Accordion.HeadingsIncreasing | assets/pdp-nomad.js:17 | heading positions are in strictly increasing document order |
| Accordion.HeadingsListEvery | assets/pdp-nomad.js:17 | every `h2` is listed |
| Accordion.HeadingsEmptyIff | assets/pdp-nomad.js:17-18 | no headings are found iff the description holds no `h2` |
| Accordion.TitleFor | assets/pdp-nomad.js:31 | a section title is never empty |
| Accordion.Sections | assets/pdp-nomad.js:18-50 | the sections of a non-blank description: one "Description" section holding everything without headings, otherwise one per heading; their shape is stated by `SectionShape`, `TitlesFollowHeadings` and `BodyBetweenHeadings` |
| Accordion.NextHeading | assets/pdp-nomad.js:33-38 | the sibling walk stops at the first `h2` at or after `i`, or at the end |
| Accordion.CollectBody | assets/pdp-nomad.js:32-38 | the collected nodes are exactly those after the heading, up to the next `h2` |
| Accordion.BuildDetailsAccordion | assets/pdp-nomad.js:6-51 | nothing is rendered iff the description or the container is missing or the description is blank; otherwise the sections are `Sections` of the description |
| Accordion.BuildSections | assets/pdp-nomad.js:29-50 | the heading loop yields `Sections` of the description |
| Accordion.SectionShape | assets/pdp-nomad.js:45-50 | one section per heading (one if there are none), and only the first is open |
| Accordion.NoHeadingsWholeDescription | assets/pdp-nomad.js:18-27 | without `h2`, the single section is "Description" holding the whole description |
| Accordion.TitlesFollowHeadings | assets/pdp-nomad.js:31 | a section's title is its heading's trimmed text, or "Section i+1" when that is empty |
| Accordion.NoHeadingBeforeBodyEnd | assets/pdp-nomad.js:33-38 | no `h2` lies between a heading and the next listed heading |
| Accordion.BodyEndsAtNextHeading | assets/pdp-nomad.js:33-38 | the walk from heading i stops at heading i+1, or at the end after the last heading |
| Accordion.BodyBetweenHeadings | assets/pdp-nomad.js:30-43 | section i's body is the nodes strictly between heading i and the next heading (or the end), and holds no `h2` |
| Accordion.RejoinedStep | assets/pdp-nomad.js:30-43 | heading i, its body, and the rest rejoined cover the description from heading i on |
| Accordion.RejoinedFrom | assets/pdp-nomad.js:30-43 | headings with their bodies, rejoined from heading i, reproduce the description from heading i on |
| Accordion.SectionsCoverFromFirstHeading | assets/pdp-nomad.js:30-43 | the sections lose and duplicate nothing after the first heading; only content before it is dropped |
| Html.EscapeChar | assets/pdp-nomad.js:195-197 | the replacement is non-empty and holds none of `<`, `>`, `"`, `'`; a character is kept as it is iff it is none of the five special characters |
| Html.EscapeHtml | assets/pdp-nomad.js:194-198 | the output is at least as long as the input and contains none of `<`, `>`, `"`, `'` |
| Html.UnescapeEscapedChar | assets/pdp-nomad.js:195-197 | decoding one escaped character followed by any text yields the character, then the decoded text |
| Html.UnescapeEscape | assets/pdp-nomad.js:194-198 | decoding the escaped text gives back the original text |
| Html.EscapeKeepsPlainText | assets/pdp-nomad.js:194-198 | text without the five special characters is unchanged |
| AlsoBought.Available | assets/pdp-nomad.js:173 | every non-null entry not flagged `available: false` is kept, and every kept product is such an entry |
| AlsoBought.AvailableKeepsListedInOrder | assets/pdp-nomad.js:173 | the kept products are exactly the listed entries, one per listed position, in input order: an entry listed twice is kept twice |
| AlsoBought.AvailableFromKept | assets/pdp-nomad.js:173 | from any position on, the filter keeps exactly the listed entries there, in order |
| AlsoBought.KeptCons | assets/pdp-nomad.js:173 | a listed entry goes in front of the entries kept after it |
| AlsoBought.Picks | assets/pdp-nomad.js:172-175 | the first two products of the reordered list, or all of them when fewer; counted and placed by `PicksAreDistinctListed` |
| AlsoBought.PicksAreDistinctListed | assets/pdp-nomad.js:172-175 | min(2, n) products are picked, all listed and none picked twice |
| AlsoBought.PriceText | assets/pdp-nomad.js:179 | empty iff the price is absent or zero; otherwise digits, a point and two digits |
| AlsoBought.PriceRoundTrip | assets/pdp-nomad.js:179 | the price text read back gives the price in pence |
| AlsoBought.PriceOf1999 | assets/pdp-nomad.js:179 | 1999 pence render as "19.99" |
| AlsoBought.RenderCard | assets/pdp-nomad.js:177-189 | the card links to the url; its title is the escaped product title and decodes back to it; it has an image iff the first image is non-empty, with that src and the same escaped title as alt; its price text starts with "£" and reads back to the price |
| AlsoBought.CardOf | assets/pdp-nomad.js:177-189 | the card's fields as the template fills them; what they mean is stated by `RenderCard` |
| AlsoBought.Cards | assets/pdp-nomad.js:177-189 | one card per picked product, in pick order; counted by `CardsRenderListed` |
| AlsoBought.CardsRenderListed | assets/pdp-nomad.js:172-189 | min(2, n) cards are made, and each renders a listed product |
| AlsoBought.InitRandomAlsoBought | assets/pdp-nomad.js:161-192 | the strip is only appended to, by at most two cards; nothing happens without data; otherwise min(2, listed) cards are added, each rendering a listed product |
| Text.Trim | assets/pdp-nomad.js:97 | white space removed from both ends; stated by `TrimSpec` and `TrimIsInfix` |
| Text.Normalize | assets/pdp-nomad.js:97-100 | a colour key: trimmed, then lower-cased; idempotent by `NormalizeIdempotent` |
| Text.TrimStartSpec | assets/pdp-nomad.js:97 | removes exactly a white-space prefix; the rest does not start with white space |
| Text.TrimEndSpec | assets/pdp-nomad.js:97 | removes exactly a white-space suffix; the rest does not end with white space |
| Text.TrimSpec | assets/pdp-nomad.js:31 | the trimmed text is no longer than the input and neither starts nor ends with white space |
| Text.TrimIsInfix | assets/pdp-nomad.js:11 | the trimmed text is an infix of the input, and everything cut on either side is white space |
| Text.TrimOfTrimmed | assets/pdp-nomad.js:97 | text without white space at either end is unchanged by trimming |
| Text.Lower | assets/pdp-nomad.js:100 | lower-casing keeps the length |
| Text.LowerAt | assets/pdp-nomad.js:100 | lower-casing maps each character independently |
| Text.LowerTwice | assets/pdp-nomad.js:100 | lower-casing is idempotent |
| Text.NormalizeIdempotent | assets/pdp-nomad.js:97-100 | trimming and lower-casing a colour key again changes nothing |
| Text.NatToString | assets/pdp-nomad.js:31 | the rendering is non-empty decimal digits without a leading zero |
| Text.NatToStringRoundTrip | assets/pdp-nomad.js:31 | reading the rendering back gives the number |
| Text.NatToStringInjective | assets/pdp-nomad.js:31 | distinct section numbers render differently |

## Left out

- DOM querying, `innerHTML` parsing and template rendering are not modelled. The description is a flat sequence of top-level nodes (`h2` text, or other markup). The accordion's output is a sequence of `Section` values rather than HTML. `h2` elements nested inside other elements are not seen, whereas `$all('h2', temp)` would find them.
- The trimming of each section's body markup (`wrap.innerHTML.trim()`) is not modelled: a section's body is its node sequence.
- Accordion.NoHeadingsWholeDescription: without headings the source renders the trimmed description markup (lines 11 and 23). The model's single section holds the description's nodes, so leading and trailing white space is not removed.
- Text.Trim: removes ASCII white space, NBSP and BOM only, not every Unicode space character `String.prototype.trim` removes.
- Text.Lower: lower-cases ASCII letters only, not every character `toLowerCase` maps.
- Event wiring is not modelled. `addEventListener` and `dispatchEvent` are replaced by direct calls: `ClickSwatch` calls `OnChange`, and `InitVariantLogic` runs one change pass. The page-load listener is not modelled.
- `JSON.parse` is not modelled. The product list arrives already parsed: `None` when its element is missing or the JSON is malformed or not an array. Entries are `None` for null. Truthy non-object entries, non-numeric prices and `images` values that are not arrays are not represented.
- AlsoBought.InitRandomAlsoBought: `sort(() => Math.random() - 0.5)` is a caller-supplied permutation `order`. The model covers every possible outcome, not their (biased) probabilities.
- AlsoBought.PriceText: `(p.price / 100).toFixed(2)` is exact integer division of whole pence. Fractional prices and values large enough for exponent notation are not represented.
- The card's "£" prefix is kept even when the price text is empty, as in the source.
- `style.display` is a boolean `visible`. The `is-active` class is a boolean `active`.
- The unused `colorValue` computation in `updateGalleryForVariant` (lines 90-93) has no effect and is not modelled.
- Gallery.FeaturedId: the featured media id is the string `String(id)`. Only the empty string counts as missing, so a numeric id `0`, which the source treats as missing, is not represented.
- ProductPage.Page.ClickSwatch: the model writes the swatch's value into its select unconditionally. A browser `<select>` that has no option with that value would instead take the value "", so the ensures `selects[s.optionIndex] == swatches[k].value` holds only when the select offers the swatch's value.
- Malformed product JSON is not modelled. `JSON.parse` at line 142 is outside any `try`, so it throws: `initVariantLogic` stops before `initSwatches`, and the page-load handler (lines 200-203) never reaches `initRandomAlsoBought`. The model only covers well-formed product JSON.
- ProductPage.Page.ClickSwatch: `Number(btn.dataset.optionIndex)` is an integer. An index that is not a number is an index no select has. Two spellings of the same number that differ as attribute text (such as "01" and "1") are not distinguished.
- A missing swatch wrapper is modelled as an empty swatch array. A missing `.pdp-nomad` root or product JSON element means `InitVariantLogic` is never called.
- Aliasing between the page's arrays is excluded: selects, media and swatches are distinct arrays created by the constructor.
