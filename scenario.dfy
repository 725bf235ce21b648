/** A client of the importer and the query engine: import a drug that
    records an interaction, import its counterpart, then query both. */
module Scenario {
  import opened Text
  import opened Names
  import opened Records
  import opened XmlMapping
  import opened Store
  import opened Query

  const AspirinRow := DrugRow("Aspirin", "", "", "", "")
  const WarfarinRow := DrugRow("Warfarin", "", "", "", "")
  const Bleeding := Interaction("Aspirin", "Warfarin", "Increases bleeding risk")

  /** The drug element of Aspirin, with one interaction naming Warfarin. */
  function AspirinXml(): Element
  {
    Element("drug", "", [
      Element(NameTag, "Aspirin", []),
      Element(DrugInteractionsTag, "", [
        Element("drug-interaction", "", [
          Element(NameTag, "Warfarin", []),
          Element(DescriptionTag, "Increases bleeding risk", [])])])])
  }

  /** The drug element of Warfarin, with no interactions. */
  function WarfarinXml(): Element
  {
    Element("drug", "", [Element(NameTag, "Warfarin", [])])
  }

  lemma AspirinMapsToRows()
    ensures DrugFromChildren(AspirinXml().children, EmptyDrug).Row() == AspirinRow
    ensures DrugFromChildren(AspirinXml().children, EmptyDrug).interactions == [Bleeding]
  {
    var props := AspirinXml().children;
    var interaction := props[1].children[0];
    var ch := interaction.children;
    assert ch[..1][..0] == [] && ch[..1] == [ch[0]];
    assert InteractionFromChildren(ch[..1]) == NoInteraction.(interactsWith := "Warfarin");
    assert InteractionFromChildren(ch) == InteractionField(InteractionFromChildren(ch[..1]), ch[1]);
    assert InteractionOf(interaction) == Interaction("", "Warfarin", "Increases bleeding risk");
    assert props[..1][..0] == [] && props[..1] == [props[0]];
    assert DrugFromChildren(props[..1], EmptyDrug) == EmptyDrug.(name := "Aspirin");
    assert Stamped(props[1].children, "Aspirin") == [Bleeding];
  }

  lemma WarfarinMapsToRows()
    ensures DrugFromChildren(WarfarinXml().children, EmptyDrug).Row() == WarfarinRow
    ensures DrugFromChildren(WarfarinXml().children, EmptyDrug).interactions == []
  {
    assert WarfarinXml().children[..0] == [];
  }

  lemma AspirinWarfarinSplit()
    ensures Split("Aspirin,Warfarin", ',') == ["Aspirin", "Warfarin"]
  {
    var names := ["Aspirin", "Warfarin"];
    assert Join(names, ',') == "Aspirin,Warfarin" by {
      assert Join(names[1..], ',') == "Warfarin";
    }
    SplitJoin(names, ',');
  }

  lemma AspirinWarfarinNames()
    ensures QueryNames("Aspirin,Warfarin") == ["Aspirin", "Warfarin"]
  {
    AspirinWarfarinSplit();
    AspirinWarfarinCapitalized(Split("Aspirin,Warfarin", ','));
    QueryNamesOfCanonical("Aspirin,Warfarin");
  }

  lemma AspirinWarfarinCapitalized(parts: seq<string>)
    requires parts == ["Aspirin", "Warfarin"]
    ensures forall part :: part in parts ==> IsCapitalized(part)
  {
    LowerTail("Aspirin");
    var w := "Warfarin";
    assert forall i :: 1 <= i < |w| ==> 'a' <= w[i] <= 'z';
    LowerTail(w);
  }

  lemma LowerTail(s: string)
    requires |s| > 0 && 'A' <= s[0] <= 'Z'
    requires forall i :: 1 <= i < |s| ==> 'a' <= s[i] <= 'z'
    ensures IsCapitalized(s)
  {
  }

  lemma AspirinWarfarinKnown()
    ensures FirstMissing(["Aspirin", "Warfarin"], [AspirinRow, WarfarinRow]) == None
  {
    var drugs := [AspirinRow, WarfarinRow];
    assert drugs[..1][..0] == [] && drugs[..1] == [AspirinRow];
    assert CountNamed(drugs, "Aspirin") == 1;
    assert CountNamed(drugs, "Warfarin") == 1;
  }

  lemma AspirinWarfarinSweep()
    ensures Sweep(["Aspirin", "Warfarin"], [Bleeding]) == [Bleeding]
  {
    assert [Bleeding][..0] == [];
    assert Filter([Bleeding], "Aspirin", ["Warfarin"]) == [Bleeding];
  }

  lemma BleedingPrinted()
    ensures Split(Report([Bleeding]), '\n') == ["Aspirin interacts with Warfarin", "Increases bleeding risk", ""]
  {
    assert [Bleeding][..0] == [];
    assert Report([Bleeding]) == PrintInteraction(Bleeding);
    BleedingHeading();
    BleedingOneLineEach();
    PrintInteractionLines(Bleeding);
  }

  lemma BleedingHeading()
    ensures Heading(Bleeding) == "Aspirin interacts with Warfarin"
  {
  }

  lemma BleedingOneLineEach()
    ensures '\n' !in Heading(Bleeding) && '\n' !in Bleeding.description
  {
    NoNewline("Aspirin");
    NoNewline(" interacts with ");
    NoNewline("Warfarin");
    NoNewline("Increases bleeding risk");
  }

  lemma NoNewline(s: string)
    requires forall i :: 0 <= i < |s| ==> ' ' <= s[i] <= 'z'
    ensures '\n' !in s
  {
  }

  /** Querying the two imported drugs reports the recorded interaction:
      the heading line, then the description line. */
  lemma AspirinWarfarinReported()
    ensures Split(QueryResult("Aspirin,Warfarin", [AspirinRow, WarfarinRow], [Bleeding]), '\n')
            == ["Aspirin interacts with Warfarin", "Increases bleeding risk", ""]
  {
    AspirinWarfarinNames();
    AspirinWarfarinKnown();
    AspirinWarfarinSweep();
    BleedingPrinted();
  }

  /** The end-to-end run: import, import, query. */
  method ImportThenQuery() returns (report: string)
    ensures Split(report, '\n') == ["Aspirin interacts with Warfarin", "Increases bleeding risk", ""]
  {
    var db := new Database();
    AspirinMapsToRows();
    WarfarinMapsToRows();
    var ok := AddDrug(AspirinXml(), db);
    assert ok;
    ok := AddDrug(WarfarinXml(), db);
    assert ok by {
      assert !HasDrug([AspirinRow], "Warfarin");
    }
    assert db.drugs == [AspirinRow, WarfarinRow];
    assert db.interactions == [Bleeding];
    report := QueryInteractions("Aspirin,Warfarin", db.drugs, db.interactions);
    AspirinWarfarinReported();
  }
}
