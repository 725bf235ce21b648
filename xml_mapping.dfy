/** The importer's mapping from parsed XML to records:
    `convert_interaction_from_xml_to_object` and
    `convert_drug_from_xml_to_object`, with the `Drug` object the latter fills in. */
module XmlMapping {
  import opened Records

  // ---------------------------------------------------------------------------
  // Interactions
  // ---------------------------------------------------------------------------

  /** A freshly constructed `Interaction()`: every field empty. */
  const NoInteraction := Interaction("", "", "")

  /** What one child element does to the interaction being built: a `name`
      child sets `interactsWith`, a `description` child sets `description`,
      any other tag is ignored. */
  function InteractionField(acc: Interaction, prop: Element): Interaction
  {
    if prop.tag == NameTag then acc.(interactsWith := prop.text)
    else if prop.tag == DescriptionTag then acc.(description := prop.text)
    else acc
  }

  /** The interaction built by visiting `props` in document order, starting
      from an empty one; it never carries a drug name. */
  function InteractionFromChildren(props: seq<Element>): (it: Interaction)
    ensures it.drugName == ""
  {
    if props == [] then NoInteraction
    else InteractionField(InteractionFromChildren(props[..|props| - 1]), props[|props| - 1])
  }

  /** The interaction an element maps to: built from its children, or, for a
      childless element, from the element's own tag and text. */
  function InteractionOf(e: Element): (it: Interaction)
    ensures it.drugName == ""
  {
    if e.children == [] then InteractionField(NoInteraction, e)
    else InteractionFromChildren(e.children)
  }

  /** The field of an interaction that children tagged `tag` set. */
  function InteractionFieldFor(it: Interaction, tag: string): string
    requires tag == NameTag || tag == DescriptionTag
  {
    if tag == NameTag then it.interactsWith else it.description
  }

  /** When a tag repeats, its last occurrence decides the field. */
  lemma {:induction false} InteractionLastChildWins(props: seq<Element>, tag: string, k: nat)
    requires tag == NameTag || tag == DescriptionTag
    requires k < |props| && props[k].tag == tag
    requires forall j :: k < j < |props| ==> props[j].tag != tag
    ensures InteractionFieldFor(InteractionFromChildren(props), tag) == props[k].text
  {
    var n := |props|;
    if k < n - 1 {
      InteractionLastChildWins(props[..n - 1], tag, k);
    }
  }

  /** A field no child sets stays empty. */
  lemma {:induction false} InteractionAbsentChildLeavesEmpty(props: seq<Element>, tag: string)
    requires tag == NameTag || tag == DescriptionTag
    requires forall j :: 0 <= j < |props| ==> props[j].tag != tag
    ensures InteractionFieldFor(InteractionFromChildren(props), tag) == ""
  {
    if props != [] {
      InteractionAbsentChildLeavesEmpty(props[..|props| - 1], tag);
    }
  }

  /** `convert_interaction_from_xml_to_object`: overwrite a fresh interaction
      child by child, then apply the childless fallback. */
  method ConvertInteractionFromXml(xml: Element) returns (it: Interaction)
    ensures it == InteractionOf(xml)
    ensures it.drugName == ""
  {
    it := NoInteraction;
    var props := xml.children;
    for i := 0 to |props|
      invariant it == InteractionFromChildren(props[..i])
    {
      var prop := props[i];
      if prop.tag == NameTag {
        it := it.(interactsWith := prop.text);
      } else if prop.tag == DescriptionTag {
        it := it.(description := prop.text);
      }
      assert props[..i + 1][..i] == props[..i];
    }
    assert props[..|props|] == props;
    if |props| == 0 {
      if xml.tag == NameTag {
        it := it.(interactsWith := xml.text);
      } else if xml.tag == DescriptionTag {
        it := it.(description := xml.text);
      }
    }
  }

  // ---------------------------------------------------------------------------
  // Drugs
  // ---------------------------------------------------------------------------

  /** The value of a `Drug` object's fields. */
  datatype DrugRecord = DrugRecord(
    name: string,
    mechanism: string,
    indication: string,
    pharmacodynamics: string,
    halfLife: string,
    interactions: seq<Interaction>)
  {
    /** The row this drug contributes to the `drugs` table. */
    function Row(): DrugRow
    {
      DrugRow(name, mechanism, indication, halfLife, pharmacodynamics)
    }
  }

  /** A freshly constructed `Drug()`. */
  const EmptyDrug := DrugRecord("", "", "", "", "", [])

  /** The `Drug` object `convert_drug_from_xml_to_object` fills in. */
  class Drug {
    var name: string
    var mechanism: string
    var indication: string
    var pharmacodynamics: string
    var halfLife: string
    var interactions: seq<Interaction>

    function Fields(): DrugRecord
      reads this
    {
      DrugRecord(name, mechanism, indication, pharmacodynamics, halfLife, interactions)
    }

    constructor ()
      ensures Fields() == EmptyDrug
    {
      name, mechanism, indication, pharmacodynamics, halfLife := "", "", "", "", "";
      interactions := [];
    }
  }

  /** The interactions of a `drug-interactions` element, each stamped with `name`. */
  function Stamped(interactionElements: seq<Element>, name: string): (r: seq<Interaction>)
  {
    seq(|interactionElements|, k requires 0 <= k < |interactionElements| =>
      InteractionOf(interactionElements[k]).(drugName := name))
  }

  /** What one child of a drug element does to the drug being built: the five
      text fields are set by their tags; a `drug-interactions` child appends
      its interactions, stamped with the drug's name as it stands now. */
  function DrugField(acc: DrugRecord, prop: Element): DrugRecord
  {
    if prop.tag == NameTag then acc.(name := prop.text)
    else if prop.tag == MechanismTag then acc.(mechanism := prop.text)
    else if prop.tag == IndicationTag then acc.(indication := prop.text)
    else if prop.tag == HalfLifeTag then acc.(halfLife := prop.text)
    else if prop.tag == PharmacodynamicsTag then acc.(pharmacodynamics := prop.text)
    else if prop.tag == DrugInteractionsTag then
      acc.(interactions := acc.interactions + Stamped(prop.children, acc.name))
    else acc
  }

  /** The drug built by visiting `props` in document order from `start`. */
  function DrugFromChildren(props: seq<Element>, start: DrugRecord): DrugRecord
  {
    if props == [] then start
    else DrugField(DrugFromChildren(props[..|props| - 1], start), props[|props| - 1])
  }

  /** `convert_drug_from_xml_to_object`: overwrite the drug's fields child by
      child and append the stamped interactions of every `drug-interactions` child. */
  method ConvertDrugFromXml(xml: Element, drug: Drug)
    modifies drug
    ensures drug.Fields() == DrugFromChildren(xml.children, old(drug.Fields()))
  {
    var props := xml.children;
    for i := 0 to |props|
      invariant drug.Fields() == DrugFromChildren(props[..i], old(drug.Fields()))
    {
      var prop := props[i];
      assert props[..i + 1][..i] == props[..i];
      if prop.tag == NameTag {
        drug.name := prop.text;
      } else if prop.tag == MechanismTag {
        drug.mechanism := prop.text;
      } else if prop.tag == IndicationTag {
        drug.indication := prop.text;
      } else if prop.tag == HalfLifeTag {
        drug.halfLife := prop.text;
      } else if prop.tag == PharmacodynamicsTag {
        drug.pharmacodynamics := prop.text;
      } else if prop.tag == DrugInteractionsTag {
        ghost var before := drug.interactions;
        var intrxns := prop.children;
        for j := 0 to |intrxns|
          invariant drug.interactions == before + Stamped(intrxns[..j], drug.name)
          invariant drug.Fields().(interactions := before)
                    == DrugFromChildren(props[..i], old(drug.Fields()))
        {
          var myIntrxn := ConvertInteractionFromXml(intrxns[j]);
          myIntrxn := myIntrxn.(drugName := drug.name);
          drug.interactions := drug.interactions + [myIntrxn];
          assert Stamped(intrxns[..j + 1], drug.name) == Stamped(intrxns[..j], drug.name) + [myIntrxn];
        }
        assert intrxns[..|intrxns|] == intrxns;
      }
    }
    assert props[..|props|] == props;
  }

  /** The tags that set one of a drug's five text fields. */
  predicate IsDrugTextTag(tag: string)
  {
    tag == NameTag || tag == MechanismTag || tag == IndicationTag
    || tag == HalfLifeTag || tag == PharmacodynamicsTag
  }

  /** The text field of a drug that children tagged `tag` set. */
  function DrugFieldFor(d: DrugRecord, tag: string): string
    requires IsDrugTextTag(tag)
  {
    if tag == NameTag then d.name
    else if tag == MechanismTag then d.mechanism
    else if tag == IndicationTag then d.indication
    else if tag == HalfLifeTag then d.halfLife
    else d.pharmacodynamics
  }

  /** When a text tag repeats among a drug's children, its last occurrence decides the field. */
  lemma {:induction false} DrugLastChildWins(props: seq<Element>, start: DrugRecord, tag: string, k: nat)
    requires IsDrugTextTag(tag)
    requires k < |props| && props[k].tag == tag
    requires forall j :: k < j < |props| ==> props[j].tag != tag
    ensures DrugFieldFor(DrugFromChildren(props, start), tag) == props[k].text
  {
    var n := |props|;
    if k < n - 1 {
      DrugLastChildWins(props[..n - 1], start, tag, k);
    }
  }

  /** A text field no child sets keeps the value it had. */
  lemma {:induction false} DrugAbsentChildKeepsField(props: seq<Element>, start: DrugRecord, tag: string)
    requires IsDrugTextTag(tag)
    requires forall j :: 0 <= j < |props| ==> props[j].tag != tag
    ensures DrugFieldFor(DrugFromChildren(props, start), tag) == DrugFieldFor(start, tag)
  {
    if props != [] {
      DrugAbsentChildKeepsField(props[..|props| - 1], start, tag);
    }
  }

  /** The interaction elements under a drug's `drug-interactions` children,
      in document order. */
  function InteractionElements(props: seq<Element>): seq<Element>
  {
    if props == [] then []
    else
      var last := props[|props| - 1];
      InteractionElements(props[..|props| - 1])
        + (if last.tag == DrugInteractionsTag then last.children else [])
  }

  /** The drug's interaction list only grows, and what is appended is one
      interaction per interaction element, in document order. */
  lemma {:induction false} DrugInteractionsInDocumentOrder(props: seq<Element>, start: DrugRecord)
    ensures var r := DrugFromChildren(props, start).interactions;
            var els := InteractionElements(props);
            var n0 := |start.interactions|;
            && |r| == n0 + |els|
            && r[..n0] == start.interactions
            && forall k :: 0 <= k < |els| ==> r[n0 + k].(drugName := "") == InteractionOf(els[k])
  {
    if props != [] {
      var n := |props|;
      var pre := props[..n - 1];
      var last := props[n - 1];
      DrugInteractionsInDocumentOrder(pre, start);
      var acc := DrugFromChildren(pre, start);
      var r := DrugFromChildren(props, start).interactions;
      var elsPre := InteractionElements(pre);
      var els := InteractionElements(props);
      var n0 := |start.interactions|;
      if last.tag == DrugInteractionsTag {
        var added := Stamped(last.children, acc.name);
        assert r == acc.interactions + added;
        assert els == elsPre + last.children;
        forall k | 0 <= k < |els|
          ensures r[n0 + k].(drugName := "") == InteractionOf(els[k])
        {
          if k >= |elsPre| {
            assert r[n0 + k] == added[k - |elsPre|];
          }
        }
      } else {
        assert r == acc.interactions;
        assert els == elsPre;
      }
    }
  }

  /** Without a `drug-interactions` child the interaction list is unchanged. */
  lemma {:induction false} DrugWithoutInteractionsChild(props: seq<Element>, start: DrugRecord)
    requires forall j :: 0 <= j < |props| ==> props[j].tag != DrugInteractionsTag
    ensures DrugFromChildren(props, start).interactions == start.interactions
  {
    if props != [] {
      DrugWithoutInteractionsChild(props[..|props| - 1], start);
    }
  }

  /** Each interaction is stamped with the drug's name as it stands when its
      `drug-interactions` child is visited: when the last `name` child comes
      before every `drug-interactions` child, every appended interaction
      carries that name. */
  lemma {:induction false} DrugInteractionsStampedWithName(props: seq<Element>, start: DrugRecord, k: nat)
    requires k < |props| && props[k].tag == NameTag
    requires forall j :: k < j < |props| ==> props[j].tag != NameTag
    requires forall j :: 0 <= j < k ==> props[j].tag != DrugInteractionsTag
    ensures var r := DrugFromChildren(props, start).interactions;
            forall i :: |start.interactions| <= i < |r| ==> r[i].drugName == props[k].text
  {
    var n := |props|;
    var pre := props[..n - 1];
    if k == n - 1 {
      DrugWithoutInteractionsChild(pre, start);
    } else {
      DrugInteractionsStampedWithName(pre, start, k);
      DrugLastChildWins(pre, start, NameTag, k);
      DrugInteractionsInDocumentOrder(pre, start);
    }
  }

  /** Visiting `a` and then `b` is visiting `a + b`. */
  lemma {:induction false} DrugFromChildrenAppend(a: seq<Element>, b: seq<Element>, start: DrugRecord)
    ensures DrugFromChildren(a + b, start) == DrugFromChildren(b, DrugFromChildren(a, start))
  {
    if b == [] {
      assert a + b == a;
    } else {
      var n := |b|;
      DrugFromChildrenAppend(a, b[..n - 1], start);
      assert (a + b)[..|a + b| - 1] == a + b[..n - 1];
    }
  }

  /** Each interaction is stamped with the drug's name as it stands when its
      `drug-interactions` child is visited: the interactions the child at `k`
      appends carry the name set by the children before it, whatever `name`
      children come later. */
  lemma DrugInteractionsStampedAtVisit(props: seq<Element>, start: DrugRecord, k: nat)
    requires k < |props| && props[k].tag == DrugInteractionsTag
    ensures var before := DrugFromChildren(props[..k], start);
            var lo := |before.interactions|;
            var r := DrugFromChildren(props, start).interactions;
            && lo + |props[k].children| <= |r|
            && forall m :: lo <= m < lo + |props[k].children| ==> r[m].drugName == before.name
  {
    var before := DrugFromChildren(props[..k], start);
    assert props[..k + 1][..k] == props[..k];
    var after := DrugFromChildren(props[..k + 1], start);
    assert after.interactions == before.interactions + Stamped(props[k].children, before.name);
    assert props == props[..k + 1] + props[k + 1..];
    DrugFromChildrenAppend(props[..k + 1], props[k + 1..], start);
    DrugInteractionsInDocumentOrder(props[k + 1..], after);
  }

  /** A `name` child that comes after the `drug-interactions` child does not
      reach the interactions already appended: they keep the name the drug had
      then, here the empty name of a fresh `Drug()`. */
  lemma NameAfterInteractionsIsNotStamped()
    ensures var warfarin := Element("drug-interaction", "", [Element(NameTag, "Warfarin", [])]);
            var props := [Element(DrugInteractionsTag, "", [warfarin]), Element(NameTag, "Aspirin", [])];
            var d := DrugFromChildren(props, EmptyDrug);
            d.name == "Aspirin" && d.interactions == [Interaction("", "Warfarin", "")]
  {
    var c := Element(NameTag, "Warfarin", []);
    var warfarin := Element("drug-interaction", "", [c]);
    var props := [Element(DrugInteractionsTag, "", [warfarin]), Element(NameTag, "Aspirin", [])];
    assert [c][..0] == [];
    assert InteractionFromChildren([c]) == InteractionField(NoInteraction, c);
    assert InteractionOf(warfarin) == Interaction("", "Warfarin", "");
    assert props[..1] == [props[0]];
    assert props[..1][..0] == [];
    assert DrugFromChildren(props[..1][..0], EmptyDrug) == EmptyDrug;
    assert DrugField(EmptyDrug, props[0]).interactions == Stamped([warfarin], "");
    var afterFirst := DrugFromChildren(props[..1], EmptyDrug);
    assert afterFirst.interactions == Stamped([warfarin], "");
    assert Stamped([warfarin], "") == [Interaction("", "Warfarin", "")];
  }
}
