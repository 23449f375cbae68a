/**
 * The "customers also bought" strip: keep the listed products, reorder them
 * at random, take at most two and append a card for each to the strip.
 */
module AlsoBought {
  import opened Wrappers
  import opened Text
  import opened Html

  /** One entry of the embedded product list. `price` is in pence, `None`
      when missing; `available` is `None` when the field is absent. */
  datatype RecProduct = RecProduct(title: string, price: Option<nat>, images: seq<string>, url: string, available: Option<bool>)

  datatype Image = Image(src: string, alt: string)

  /** A rendered `mini-card`: its link, optional image, title text and price text. */
  datatype MiniCard = MiniCard(href: string, image: Option<Image>, title: string, price: string)

  /** `p && p.available !== false`: a non-null entry not marked unavailable
      (an absent flag counts as available). */
  predicate IsListed(p: Option<RecProduct>) {
    p.Some? && p.value.available != Some(false)
  }

  /** `products.filter(p => p && p.available !== false)` */
  function Available(ps: seq<Option<RecProduct>>): (r: seq<RecProduct>)
    ensures |r| <= |ps|
    ensures forall q :: q in r ==> Some(q) in ps && q.available != Some(false)
    ensures forall i :: 0 <= i < |ps| && IsListed(ps[i]) ==> ps[i].value in r
  {
    if ps == [] then []
    else if IsListed(ps[0]) then [ps[0].value] + Available(ps[1..])
    else Available(ps[1..])
  }

  /** `pos` holds, in increasing order, exactly the positions from `lo` on
      whose entry is listed, and `r` is those entries in that order. */
  predicate KeptFrom(ps: seq<Option<RecProduct>>, lo: nat, pos: seq<nat>, r: seq<RecProduct>) {
    && |pos| == |r|
    && (forall k :: 0 <= k < |pos| ==> lo <= pos[k] < |ps| && IsListed(ps[pos[k]]) && r[k] == ps[pos[k]].value)
    && (forall k, l :: 0 <= k < l < |pos| ==> pos[k] < pos[l])
    && (forall i :: lo <= i < |ps| && IsListed(ps[i]) ==> i in pos)
  }

  /** `pos` is exactly the listed positions of `ps`, in order, and `r` their entries. */
  predicate KeptAt(ps: seq<Option<RecProduct>>, pos: seq<nat>, r: seq<RecProduct>) {
    KeptFrom(ps, 0, pos, r)
  }

  /** The filter keeps each listed entry once, in input order, and nothing
      else: an entry listed twice is kept twice, a missing one never. */
  lemma AvailableKeepsListedInOrder(ps: seq<Option<RecProduct>>)
    ensures exists pos :: KeptAt(ps, pos, Available(ps))
  {
    AvailableFromKept(ps, 0);
    assert ps[0..] == ps;
    assert KeptAt(ps, ListedFrom(ps, 0), Available(ps));
  }

  /** The positions from `lo` on whose entry is listed, in increasing order. */
  function ListedFrom(ps: seq<Option<RecProduct>>, lo: nat): seq<nat>
    requires lo <= |ps|
    decreases |ps| - lo
  {
    if lo == |ps| then []
    else if IsListed(ps[lo]) then [lo] + ListedFrom(ps, lo + 1)
    else ListedFrom(ps, lo + 1)
  }

  /** The filter applied to the entries from `lo` on keeps exactly the
      listed ones among them, in order. */
  lemma {:induction false} AvailableFromKept(ps: seq<Option<RecProduct>>, lo: nat)
    requires lo <= |ps|
    ensures KeptFrom(ps, lo, ListedFrom(ps, lo), Available(ps[lo..]))
    decreases |ps| - lo
  {
    if lo < |ps| {
      AvailableFromKept(ps, lo + 1);
      assert ps[lo..][1..] == ps[lo + 1..];
      var tail := ListedFrom(ps, lo + 1);
      if IsListed(ps[lo]) {
        KeptCons(ps, lo, tail, Available(ps[lo + 1..]));
      }
    }
  }

  /** A listed entry at `lo` goes in front of the positions kept after it. */
  lemma KeptCons(ps: seq<Option<RecProduct>>, lo: nat, tail: seq<nat>, r': seq<RecProduct>)
    requires lo < |ps| && IsListed(ps[lo]) && KeptFrom(ps, lo + 1, tail, r')
    ensures KeptFrom(ps, lo, [lo] + tail, [ps[lo].value] + r')
  {
    var pos := [lo] + tail;
    var r := [ps[lo].value] + r';
    forall k | 0 <= k < |pos| ensures lo <= pos[k] < |ps| && IsListed(ps[pos[k]]) && r[k] == ps[pos[k]].value {
      if k > 0 {
        assert pos[k] == tail[k - 1] && r[k] == r'[k - 1];
      }
    }
    forall k, l | 0 <= k < l < |pos| ensures pos[k] < pos[l] {
      assert pos[l] == tail[l - 1];
      if k > 0 {
        assert pos[k] == tail[k - 1];
      }
    }
    forall i | lo <= i < |ps| && IsListed(ps[i]) ensures i in pos {
      if i > lo {
        var k :| 0 <= k < |tail| && tail[k] == i;
        assert pos[k + 1] == i;
      } else {
        assert pos[0] == i;
      }
    }
  }

  /** `order` lists each of `0..n` exactly once: the outcome of the random sort. */
  predicate IsPermutation(order: seq<nat>, n: nat) {
    && |order| == n
    && (forall i :: 0 <= i < n ==> order[i] < n)
    && (forall i, j :: 0 <= i < j < n ==> order[i] != order[j])
  }

  function Min(a: nat, b: nat): nat {
    if a < b then a else b
  }

  /** `.sort(random).slice(0, 2)`, the reorder being `order`. */
  function Picks(listed: seq<RecProduct>, order: seq<nat>): seq<RecProduct>
    requires IsPermutation(order, |listed|)
  {
    var k := Min(2, |listed|);
    seq(k, i requires 0 <= i < k => listed[order[i]])
  }

  lemma PairIsSubMultiset<T>(s: seq<T>, a: nat, b: nat)
    requires a < |s| && b < |s| && a != b
    ensures multiset{s[a], s[b]} <= multiset(s)
  {
    var lo, hi := if a < b then a else b, if a < b then b else a;
    assert s == s[..hi] + [s[hi]] + s[hi + 1..];
    assert s[lo] in s[..hi];
    assert multiset{s[lo]} <= multiset(s[..hi]);
    assert multiset{s[a], s[b]} == multiset{s[lo]} + multiset{s[hi]};
  }

  /** At most two products are picked, as many as there are listed up to two,
      each a listed product and none picked twice. */
  lemma PicksAreDistinctListed(listed: seq<RecProduct>, order: seq<nat>)
    requires IsPermutation(order, |listed|)
    ensures |Picks(listed, order)| == Min(2, |listed|) <= 2
    ensures multiset(Picks(listed, order)) <= multiset(listed)
  {
    var r := Picks(listed, order);
    if |r| == 1 {
      assert r == [listed[order[0]]];
    } else if |r| == 2 {
      assert r == [listed[order[0]], listed[order[1]]];
      PairIsSubMultiset(listed, order[0], order[1]);
    }
  }

  /** `p.price ? (p.price / 100).toFixed(2) : ''` on whole pence. */
  function PriceText(price: Option<nat>): (r: string)
    ensures r == "" <==> price.None? || price.value == 0
    ensures r != "" ==> |r| >= 4 && r[|r| - 3] == '.' && AllDigits(r[..|r| - 3]) && IsDigit(r[|r| - 2]) && IsDigit(r[|r| - 1])
  {
    match price
    case None => ""
    case Some(c) =>
      if c == 0 then ""
      else NatToString(c / 100) + "." + [DigitChar(c % 100 / 10), DigitChar(c % 100 % 10)]
  }

  /** Reads a price text back into pence: digits, a point, two digits. */
  function ParsePrice(s: string): Option<nat> {
    if |s| >= 4 && s[|s| - 3] == '.' && AllDigits(s[..|s| - 3]) && IsDigit(s[|s| - 2]) && IsDigit(s[|s| - 1])
    then Some(100 * DigitsValue(s[..|s| - 3]) + 10 * DigitValue(s[|s| - 2]) + DigitValue(s[|s| - 1]))
    else None
  }

  /** The price text states the price exactly: pounds, then two digits of pence. */
  lemma PriceRoundTrip(c: nat)
    requires c > 0
    ensures ParsePrice(PriceText(Some(c))) == Some(c)
  {
    var s := PriceText(Some(c));
    var w := NatToString(c / 100);
    var tens, units := c % 100 / 10, c % 100 % 10;
    assert s == w + "." + [DigitChar(tens), DigitChar(units)];
    assert s[..|s| - 3] == w;
    assert DigitValue(s[|s| - 2]) == tens && DigitValue(s[|s| - 1]) == units;
    NatToStringRoundTrip(c / 100);
    PenceSplit(c);
  }

  lemma PenceSplit(c: nat)
    ensures 100 * (c / 100) + 10 * (c % 100 / 10) + c % 100 % 10 == c
  {
    var r := c % 100;
    assert c == 100 * (c / 100) + r;
    assert r == 10 * (r / 10) + r % 10;
  }

  /** 1999 pence show as "19.99". */
  lemma PriceOf1999()
    ensures PriceText(Some(1999)) == "19.99"
  {
    assert NatToString(1) == "1";
    assert NatToString(19) == "19";
  }

  /** One card of the strip. */
  function RenderCard(p: RecProduct): (c: MiniCard)
    ensures c.href == p.url
    ensures c.image.Some? <==> |p.images| > 0 && p.images[0] != ""
    ensures c.title == EscapeHtml(p.title) && UnescapeHtml(c.title) == p.title
    ensures c.image.Some? ==> c.image.value.src == p.images[0] && c.image.value.alt == c.title
    ensures c.price != [] && c.price[0] == '£'
    ensures ParsePrice(c.price[1..]) == if p.price.Some? && p.price.value > 0 then p.price else None
  {
    UnescapeEscape(p.title);
    if p.price.Some? && p.price.value > 0 then PriceRoundTrip(p.price.value); CardOf(p) else CardOf(p)
  }

  function CardOf(p: RecProduct): MiniCard {
    var title := EscapeHtml(p.title);
    var image := if |p.images| > 0 && p.images[0] != "" then Some(Image(p.images[0], title)) else None;
    MiniCard(p.url, image, title, "£" + PriceText(p.price))
  }

  /** The mini cards of the picked products, in pick order. */
  function Cards(listed: seq<RecProduct>, order: seq<nat>): seq<MiniCard>
    requires IsPermutation(order, |listed|)
  {
    var picks := Picks(listed, order);
    seq(|picks|, i requires 0 <= i < |picks| => RenderCard(picks[i]))
  }

  /** `card` is the mini card of one of the `listed` products. */
  predicate RendersListed(card: MiniCard, listed: seq<RecProduct>) {
    exists q :: q in listed && card == RenderCard(q)
  }

  /** Every card appended after `strip` renders one of the listed products,
      and there are as many cards as products listed, up to two. */
  lemma CardsRenderListed(strip: seq<MiniCard>, listed: seq<RecProduct>, order: seq<nat>)
    requires IsPermutation(order, |listed|)
    ensures |Cards(listed, order)| == Min(2, |listed|)
    ensures forall i :: |strip| <= i < |strip + Cards(listed, order)| ==> RendersListed((strip + Cards(listed, order))[i], listed)
  {
    var picks := Picks(listed, order);
    var cards := Cards(listed, order);
    var r := strip + cards;
    PicksAreDistinctListed(listed, order);
    assert |cards| == |picks|;
    forall i | |strip| <= i < |r| ensures RendersListed(r[i], listed) {
      var q := picks[i - |strip|];
      assert q in multiset(picks);
      assert q in listed && r[i] == RenderCard(q);
    }
  }

  /** `initRandomAlsoBought`: the strip after the cards are appended. `data`
      is the parsed product list, `None` when its element is missing or its
      JSON is malformed or not an array. */
  function InitRandomAlsoBought(strip: seq<MiniCard>, data: Option<seq<Option<RecProduct>>>, order: seq<nat>): (r: seq<MiniCard>)
    requires IsPermutation(order, |Available(data.GetOr([]))|)
    ensures |strip| <= |r| <= |strip| + 2 && r[..|strip|] == strip
    ensures data.None? ==> r == strip
    ensures data.Some? ==> |r| == |strip| + Min(2, |Available(data.value)|)
    ensures forall i :: |strip| <= i < |r| ==> RendersListed(r[i], Available(data.GetOr([])))
  {
    if data.None? || data.value == [] then strip
    else
      assert data.GetOr([]) == data.value;
      CardsRenderListed(strip, Available(data.value), order);
      strip + Cards(Available(data.value), order)
  }
}
