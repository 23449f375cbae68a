/**
 * The details accordion: the product description, as a flat sequence of
 * nodes, is split at `h2` headings into titled sections, of which only the
 * first starts open.
 */
module Accordion {
  import opened Wrappers
  import opened Text

  /** A top-level node of the description: an `h2` heading with its text
      content, or any other node with its markup. */
  datatype Node = H2(text: string) | Other(markup: string)

  /** One `<details>` panel: its summary, its body nodes and whether it is open. */
  datatype Section = Section(title: string, body: seq<Node>, open: bool)

  /** `descEl.innerHTML.trim()` is empty: nothing but white space. */
  predicate IsBlank(nodes: seq<Node>) {
    forall i :: 0 <= i < |nodes| ==> nodes[i].Other? && Trim(nodes[i].markup) == ""
  }

  /** Positions of the `h2` nodes at or after `from`, in document order. */
  function HeadingsFrom(nodes: seq<Node>, from: nat): (hs: seq<nat>)
    requires from <= |nodes|
    decreases |nodes| - from
    ensures forall k :: 0 <= k < |hs| ==> from <= hs[k] < |nodes| && nodes[hs[k]].H2?
  {
    if from == |nodes| then []
    else if nodes[from].H2? then [from] + HeadingsFrom(nodes, from + 1)
    else HeadingsFrom(nodes, from + 1)
  }

  predicate Increasing(hs: seq<nat>) {
    forall k, l :: 0 <= k < l < |hs| ==> hs[k] < hs[l]
  }

  /** Every `h2` at or after `from` is listed in `hs`. */
  predicate ListsEveryHeading(nodes: seq<Node>, from: nat, hs: seq<nat>) {
    forall p :: from <= p < |nodes| && nodes[p].H2? ==> p in hs
  }

  predicate NoHeadingFrom(nodes: seq<Node>, from: nat) {
    forall p :: from <= p < |nodes| ==> !nodes[p].H2?
  }

  /** The heading positions are strictly increasing. */
  lemma {:induction false} HeadingsIncreasing(nodes: seq<Node>, from: nat)
    requires from <= |nodes|
    decreases |nodes| - from
    ensures Increasing(HeadingsFrom(nodes, from))
  {
    if from < |nodes| && nodes[from].H2? {
      HeadingsIncreasing(nodes, from + 1);
      var rest := HeadingsFrom(nodes, from + 1);
      var hs := HeadingsFrom(nodes, from);
      assert hs == [from] + rest;
      forall k, l | 0 <= k < l < |hs| ensures hs[k] < hs[l] {
        assert hs[l] == rest[l - 1];
        if k > 0 {
          assert hs[k] == rest[k - 1];
        }
      }
    } else if from < |nodes| {
      HeadingsIncreasing(nodes, from + 1);
    }
  }

  /** Every `h2` at or after `from` is among the heading positions. */
  lemma {:induction false} HeadingsListEvery(nodes: seq<Node>, from: nat)
    requires from <= |nodes|
    decreases |nodes| - from
    ensures ListsEveryHeading(nodes, from, HeadingsFrom(nodes, from))
  {
    if from < |nodes| {
      HeadingsListEvery(nodes, from + 1);
      var rest := HeadingsFrom(nodes, from + 1);
      var hs := HeadingsFrom(nodes, from);
      assert forall p :: p in rest ==> p in hs;
      if nodes[from].H2? {
        assert from in hs;
      }
    }
  }

  /** There are no heading positions exactly when the nodes hold no `h2`. */
  lemma {:induction false} HeadingsEmptyIff(nodes: seq<Node>, from: nat)
    requires from <= |nodes|
    decreases |nodes| - from
    ensures HeadingsFrom(nodes, from) == [] <==> NoHeadingFrom(nodes, from)
  {
    if from < |nodes| && !nodes[from].H2? {
      HeadingsEmptyIff(nodes, from + 1);
    }
  }

  /** `$all('h2', temp)` over the flat node sequence. */
  function Headings(nodes: seq<Node>): (hs: seq<nat>)
    ensures forall k :: 0 <= k < |hs| ==> hs[k] < |nodes| && nodes[hs[k]].H2?
  {
    HeadingsFrom(nodes, 0)
  }

  /** Where the sibling walk starting at `i` stops: the next `h2`, or the end. */
  function NextHeading(nodes: seq<Node>, i: nat): (r: nat)
    requires i <= |nodes|
    decreases |nodes| - i
    ensures i <= r <= |nodes|
    ensures forall j :: i <= j < r ==> !nodes[j].H2?
    ensures r < |nodes| ==> nodes[r].H2?
  {
    if i == |nodes| || nodes[i].H2? then i else NextHeading(nodes, i + 1)
  }

  /** `h.textContent.trim() || `Section ${idx + 1}`` */
  function TitleFor(text: string, idx: nat): (r: string)
    ensures r != ""
  {
    var t := Trim(text);
    if t != "" then t else "Section " + NatToString(idx + 1)
  }

  /** The section headed by the i-th heading: its title, the siblings up to
      the next heading, open only for the first. */
  function SectionAt(nodes: seq<Node>, i: nat): Section
    requires i < |Headings(nodes)|
  {
    Section(TitleFor(nodes[Headings(nodes)[i]].text, i), BodyAt(nodes, i), i == 0)
  }

  /** The siblings after the i-th heading, up to the next `h2`. */
  function BodyAt(nodes: seq<Node>, i: nat): seq<Node>
    requires i < |Headings(nodes)|
  {
    var h := Headings(nodes)[i];
    nodes[h + 1..NextHeading(nodes, h + 1)]
  }

  /** The sections the accordion shows for a non-blank description. */
  function Sections(nodes: seq<Node>): seq<Section> {
    var hs := Headings(nodes);
    if |hs| == 0 then [Section("Description", nodes, true)]
    else seq(|hs|, i requires 0 <= i < |hs| => SectionAt(nodes, i))
  }

  /** The `nextSibling` walk from heading position `h`: the siblings after it
      up to, not including, the next `h2`. */
  method CollectBody(nodes: seq<Node>, h: nat) returns (contentNodes: seq<Node>)
    requires h < |nodes|
    ensures contentNodes == nodes[h + 1..NextHeading(nodes, h + 1)]
  {
    contentNodes := [];
    var n := h + 1;
    while n < |nodes| && !nodes[n].H2?
      invariant h + 1 <= n <= |nodes|
      invariant contentNodes == nodes[h + 1..n]
      invariant forall j :: h + 1 <= j < n ==> !nodes[j].H2?
    {
      contentNodes := contentNodes + [nodes[n]];
      n := n + 1;
    }
    assert n == NextHeading(nodes, h + 1);
  }

  /** `buildDetailsAccordion`: `None` when the container is left untouched
      (no description element, no container, or a blank description),
      otherwise the sections that replace the container's contents. */
  method BuildDetailsAccordion(desc: Option<seq<Node>>, hasContainer: bool) returns (r: Option<seq<Section>>)
    ensures r.None? <==> desc.None? || !hasContainer || IsBlank(desc.value)
    ensures r.Some? ==> r.value == Sections(desc.value)
  {
    if desc.None? || !hasContainer {
      return None;
    }
    var nodes := desc.value;
    if IsBlank(nodes) {
      return None;
    }
    var headings := Headings(nodes);
    if |headings| == 0 {
      return Some([Section("Description", nodes, true)]);
    }
    var items := BuildSections(nodes, headings);
    return Some(items);
  }

  /** The `headings.forEach` loop: one section per heading, titled by it and
      holding the siblings up to the next heading. */
  method BuildSections(nodes: seq<Node>, headings: seq<nat>) returns (items: seq<Section>)
    requires headings == Headings(nodes) && |headings| > 0
    ensures items == Sections(nodes)
  {
    items := [];
    var idx := 0;
    while idx < |headings|
      invariant 0 <= idx <= |headings|
      invariant |items| == idx
      invariant forall i :: 0 <= i < idx ==> items[i] == SectionAt(nodes, i)
    {
      var h := headings[idx];
      var title := TitleFor(nodes[h].text, idx);
      var contentNodes := CollectBody(nodes, h);
      items := items + [Section(title, contentNodes, idx == 0)];
      idx := idx + 1;
    }
  }

  /** With k headings there are k sections, and without any there is one;
      only the first section is open. */
  lemma SectionShape(nodes: seq<Node>)
    ensures |Sections(nodes)| == if |Headings(nodes)| == 0 then 1 else |Headings(nodes)|
    ensures forall i :: 0 <= i < |Sections(nodes)| ==> (Sections(nodes)[i].open <==> i == 0)
  {
  }

  /** Without headings the one section is "Description" and holds everything. */
  lemma NoHeadingsWholeDescription(nodes: seq<Node>)
    requires forall i :: 0 <= i < |nodes| ==> !nodes[i].H2?
    ensures Sections(nodes) == [Section("Description", nodes, true)]
  {
    HeadingsEmptyIff(nodes, 0);
  }

  /** A heading without text is titled "Section i+1" after its 1-based place;
      a heading with text keeps its trimmed text. */
  lemma TitlesFollowHeadings(nodes: seq<Node>, i: nat)
    requires i < |Headings(nodes)|
    ensures var t := Trim(nodes[Headings(nodes)[i]].text);
            Sections(nodes)[i].title == if t == "" then "Section " + NatToString(i + 1) else t
  {
  }

  /** Where section i's body ends: at the next heading, or at the end. */
  function BodyEnd(nodes: seq<Node>, i: nat): nat
    requires i < |Headings(nodes)|
  {
    var hs := Headings(nodes);
    if i + 1 < |hs| then hs[i + 1] else |nodes|
  }

  lemma {:induction false} NoHeadingBeforeBodyEnd(nodes: seq<Node>, i: nat)
    requires i < |Headings(nodes)|
    ensures Headings(nodes)[i] < BodyEnd(nodes, i) <= |nodes|
    ensures forall j :: Headings(nodes)[i] < j < BodyEnd(nodes, i) ==> !nodes[j].H2?
  {
    var hs := Headings(nodes);
    var end := BodyEnd(nodes, i);
    HeadingsIncreasing(nodes, 0);
    HeadingsListEvery(nodes, 0);
    assert forall m :: 0 <= m < |hs| ==> hs[m] <= hs[i] || end <= hs[m];
  }

  /** The walk from a heading stops at the next heading, or at the end of
      the description after the last one. */
  lemma {:induction false} BodyEndsAtNextHeading(nodes: seq<Node>, i: nat)
    requires i < |Headings(nodes)|
    ensures NextHeading(nodes, Headings(nodes)[i] + 1) == BodyEnd(nodes, i)
  {
    var hs := Headings(nodes);
    var end := BodyEnd(nodes, i);
    var r := NextHeading(nodes, hs[i] + 1);
    NoHeadingBeforeBodyEnd(nodes, i);
    assert r < |nodes| ==> nodes[r].H2?;
    assert end < |nodes| ==> nodes[end].H2?;
  }

  /** Section i's body is exactly the nodes strictly between heading i and the
      next heading (or the end), and it holds no heading. */
  lemma BodyBetweenHeadings(nodes: seq<Node>, i: nat)
    requires i < |Headings(nodes)|
    ensures var hs := Headings(nodes);
            var end := if i + 1 < |hs| then hs[i + 1] else |nodes|;
            hs[i] < end && Sections(nodes)[i].body == nodes[hs[i] + 1..end]
    ensures forall j :: 0 <= j < |Sections(nodes)[i].body| ==> !Sections(nodes)[i].body[j].H2?
  {
    BodyEndsAtNextHeading(nodes, i);
    NoHeadingBeforeBodyEnd(nodes, i);
    assert Sections(nodes)[i] == SectionAt(nodes, i);
  }

  /** Each heading followed by its section's body, section after section. */
  ghost function Rejoined(nodes: seq<Node>, i: nat): seq<Node>
    requires i <= |Headings(nodes)|
    decreases |Headings(nodes)| - i
  {
    if i == |Headings(nodes)| then []
    else [nodes[Headings(nodes)[i]]] + BodyAt(nodes, i) + Rejoined(nodes, i + 1)
  }

  /** Nothing from heading i onwards is lost or repeated by the split. */
  lemma RejoinedStep(nodes: seq<Node>, i: nat)
    requires i < |Headings(nodes)|
    ensures Headings(nodes)[i] < BodyEnd(nodes, i) <= |nodes|
    ensures Rejoined(nodes, i)
         == [nodes[Headings(nodes)[i]]] + nodes[Headings(nodes)[i] + 1..BodyEnd(nodes, i)] + Rejoined(nodes, i + 1)
  {
    NoHeadingBeforeBodyEnd(nodes, i);
    BodyEndsAtNextHeading(nodes, i);
  }

  lemma {:induction false} RejoinedFrom(nodes: seq<Node>, i: nat)
    requires i < |Headings(nodes)|
    decreases |Headings(nodes)| - i
    ensures Rejoined(nodes, i) == nodes[Headings(nodes)[i]..]
  {
    var hs := Headings(nodes);
    var h, end := hs[i], BodyEnd(nodes, i);
    RejoinedStep(nodes, i);
    if i + 1 < |hs| {
      RejoinedFrom(nodes, i + 1);
    }
    assert Rejoined(nodes, i + 1) == nodes[end..];
    assert nodes[h..] == [nodes[h]] + nodes[h + 1..end] + nodes[end..];
  }

  /** The sections, headings put back, reproduce the description from its
      first heading on; whatever precedes the first heading is in no section. */
  lemma SectionsCoverFromFirstHeading(nodes: seq<Node>)
    requires Headings(nodes) != []
    ensures Rejoined(nodes, 0) == nodes[Headings(nodes)[0]..]
  {
    RejoinedFrom(nodes, 0);
  }
}
