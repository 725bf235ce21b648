/** The relational store the importer writes, with the tables held as
    sequences: `add_drug_to_db`, `add_interaction_to_db` and `add_drug`.
    Every insert is committed on its own, so the store also keeps the order in
    which rows were committed. */
module Store {
  import opened Records
  import opened XmlMapping

  /** Whether the `drugs` table holds a row with this primary key. */
  predicate HasDrug(drugs: seq<DrugRow>, name: string)
  {
    exists i :: 0 <= i < |drugs| && drugs[i].name == name
  }

  /** The primary-key constraint of the `drugs` table. */
  predicate UniqueNames(drugs: seq<DrugRow>)
  {
    forall i, j :: 0 <= i < j < |drugs| ==> drugs[i].name != drugs[j].name
  }

  /** One committed insert. */
  datatype Commit = DrugCommit(row: DrugRow) | InteractionCommit(interaction: Interaction)

  /** The `drugs` table that a sequence of commits leaves behind. */
  function DrugsCommitted(log: seq<Commit>): seq<DrugRow>
  {
    if log == [] then []
    else
      var last := log[|log| - 1];
      DrugsCommitted(log[..|log| - 1]) + (if last.DrugCommit? then [last.row] else [])
  }

  /** The `interactions` table that a sequence of commits leaves behind. */
  function InteractionsCommitted(log: seq<Commit>): seq<Interaction>
  {
    if log == [] then []
    else
      var last := log[|log| - 1];
      InteractionsCommitted(log[..|log| - 1]) + (if last.InteractionCommit? then [last.interaction] else [])
  }

  /** The commits of a list of interaction rows, in list order. */
  function InteractionCommits(its: seq<Interaction>): seq<Commit>
  {
    seq(|its|, k requires 0 <= k < |its| => InteractionCommit(its[k]))
  }

  lemma InteractionCommitsAppend(its: seq<Interaction>, it: Interaction)
    ensures InteractionCommits(its + [it]) == InteractionCommits(its) + [InteractionCommit(it)]
  {
  }

  /** The two tables, both created empty. */
  class Database {
    var drugs: seq<DrugRow>
    var interactions: seq<Interaction>
    ghost var log: seq<Commit>

    ghost predicate Valid()
      reads this
    {
      && UniqueNames(drugs)
      && drugs == DrugsCommitted(log)
      && interactions == InteractionsCommitted(log)
    }

    /** `create_drugs_table` and `create_interactions_table` on a fresh store. */
    constructor ()
      ensures Valid()
      ensures drugs == [] && interactions == [] && log == []
    {
      drugs, interactions, log := [], [], [];
    }

    /** `add_drug_to_db`: insert and commit one drug row. An insert whose name
        is already taken violates the primary key: it writes nothing and
        reports failure (`ok == false`), where the program raises. */
    method AddDrugToDb(row: DrugRow) returns (ok: bool)
      requires Valid()
      modifies this
      ensures Valid()
      ensures ok <==> !HasDrug(old(drugs), row.name)
      ensures drugs == if ok then old(drugs) + [row] else old(drugs)
      ensures interactions == old(interactions)
      ensures log == if ok then old(log) + [DrugCommit(row)] else old(log)
    {
      ok := !HasDrug(drugs, row.name);
      if ok {
        drugs := drugs + [row];
        log := log + [DrugCommit(row)];
        assert log[..|log| - 1] == old(log);
      }
    }

    /** `add_interaction_to_db`: insert and commit one interaction row; the
        table has no key, so duplicates are kept. */
    method AddInteractionToDb(interaction: Interaction)
      requires Valid()
      modifies this
      ensures Valid()
      ensures interactions == old(interactions) + [interaction]
      ensures drugs == old(drugs)
      ensures log == old(log) + [InteractionCommit(interaction)]
    {
      interactions := interactions + [interaction];
      log := log + [InteractionCommit(interaction)];
      assert log[..|log| - 1] == old(log);
    }
  }

  /** The loop of `add_drug` over the drug's interaction list: insert and
      commit each row in list order. */
  method AddInteractionsToDb(its: seq<Interaction>, db: Database)
    requires db.Valid()
    modifies db
    ensures db.Valid()
    ensures db.drugs == old(db.drugs)
    ensures db.interactions == old(db.interactions) + its
    ensures db.log == old(db.log) + InteractionCommits(its)
  {
    for i := 0 to |its|
      invariant db.Valid()
      invariant db.drugs == old(db.drugs)
      invariant db.interactions == old(db.interactions) + its[..i]
      invariant db.log == old(db.log) + InteractionCommits(its[..i])
    {
      db.AddInteractionToDb(its[i]);
      InteractionCommitsAppend(its[..i], its[i]);
      assert its[..i + 1] == its[..i] + [its[i]];
    }
    assert its[..|its|] == its;
  }

  /** `add_drug`: map a drug element onto a fresh `Drug`, commit its row, then
      commit its interaction rows one by one in document order. When the row
      is refused by the primary key nothing is written (`ok == false`). */
  method AddDrug(xmlOfDrug: Element, db: Database) returns (ok: bool)
    requires db.Valid()
    modifies db
    ensures db.Valid()
    ensures var d := DrugFromChildren(xmlOfDrug.children, EmptyDrug);
            ok <==> !HasDrug(old(db.drugs), d.name)
    ensures var d := DrugFromChildren(xmlOfDrug.children, EmptyDrug);
            ok ==> && db.log == old(db.log) + [DrugCommit(d.Row())] + InteractionCommits(d.interactions)
                   && db.drugs == old(db.drugs) + [d.Row()]
                   && db.interactions == old(db.interactions) + d.interactions
    ensures !ok ==> db.log == old(db.log) && db.drugs == old(db.drugs) && db.interactions == old(db.interactions)
  {
    var myDrug := new Drug();
    ConvertDrugFromXml(xmlOfDrug, myDrug);
    var d := myDrug.Fields();
    assert d == DrugFromChildren(xmlOfDrug.children, EmptyDrug);
    ok := db.AddDrugToDb(d.Row());
    if ok {
      AddInteractionsToDb(d.interactions, db);
    }
  }
}
