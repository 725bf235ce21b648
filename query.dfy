/** The query engine: `check_drug_in_db`, `get_interactions`,
    `print_interaction` and `main`, over a snapshot of the two tables. */
module Query {
  import opened Text
  import opened Names
  import opened Records
  import opened Store

  // ---------------------------------------------------------------------------
  // Validation
  // ---------------------------------------------------------------------------

  /** `SELECT COUNT(*) FROM drugs WHERE name = ?`. */
  function CountNamed(drugs: seq<DrugRow>, name: string): (n: nat)
    ensures n <= |drugs|
    ensures n == 0 <==> !HasDrug(drugs, name)
  {
    if drugs == [] then 0
    else
      CountNamed(drugs[..|drugs| - 1], name)
        + (if drugs[|drugs| - 1].name == name then 1 else 0)
  }

  /** `check_drug_in_db`: the count is exactly one. */
  function CheckDrugInDb(drugName: string, drugs: seq<DrugRow>): bool
  {
    CountNamed(drugs, drugName) == 1
  }

  /** Under the primary key, a name passes the check exactly when it is in the table. */
  lemma {:induction false} CheckDrugInDbMeansPresent(drugName: string, drugs: seq<DrugRow>)
    requires UniqueNames(drugs)
    ensures CheckDrugInDb(drugName, drugs) <==> HasDrug(drugs, drugName)
  {
    CountNamedUnique(drugName, drugs);
  }

  lemma {:induction false} CountNamedUnique(name: string, drugs: seq<DrugRow>)
    requires UniqueNames(drugs)
    ensures CountNamed(drugs, name) <= 1
  {
    if drugs != [] {
      var pre := drugs[..|drugs| - 1];
      CountNamedUnique(name, pre);
    }
  }

  /** The index of the first name that fails the check, if any. */
  function FirstMissing(names: seq<string>, drugs: seq<DrugRow>): (k: Option<nat>)
    ensures k.Some? ==> && k.value < |names|
                        && !CheckDrugInDb(names[k.value], drugs)
                        && forall j :: 0 <= j < k.value ==> CheckDrugInDb(names[j], drugs)
    ensures k.None? ==> forall j :: 0 <= j < |names| ==> CheckDrugInDb(names[j], drugs)
  {
    if names == [] then None
    else if !CheckDrugInDb(names[0], drugs) then Some(0)
    else match FirstMissing(names[1..], drugs)
      case None => None
      case Some(k) => Some(k + 1)
  }

  /** The message `main` returns for a name that fails the check. */
  function NotInDatabase(drugName: string): string
  {
    drugName + " is not in database. Remove it/fix spelling and try again."
  }

  // ---------------------------------------------------------------------------
  // Retrieval
  // ---------------------------------------------------------------------------

  /** The `WHERE` clause of `get_interactions`: the row is recorded by
      `drugName` and names one of `drugsToCheck`. */
  predicate Matches(row: Interaction, drugName: string, drugsToCheck: seq<string>)
  {
    row.drugName == drugName && row.interactsWith in drugsToCheck
  }

  /** The rows of `table` that match, in table order. */
  function Filter(table: seq<Interaction>, drugName: string, drugsToCheck: seq<string>): (rows: seq<Interaction>)
    ensures |rows| <= |table|
  {
    if table == [] then []
    else
      var last := table[|table| - 1];
      Filter(table[..|table| - 1], drugName, drugsToCheck)
        + (if Matches(last, drugName, drugsToCheck) then [last] else [])
  }

  /** A row is kept exactly when the table holds it and it matches. */
  lemma {:induction false} FilterMembers(table: seq<Interaction>, drugName: string, drugsToCheck: seq<string>, r: Interaction)
    ensures r in Filter(table, drugName, drugsToCheck) <==> r in table && Matches(r, drugName, drugsToCheck)
  {
    if table != [] {
      var pre := table[..|table| - 1];
      FilterMembers(pre, drugName, drugsToCheck, r);
      assert table == pre + [table[|table| - 1]];
    }
  }

  /** Filtering keeps the order of the table: it distributes over concatenation. */
  lemma {:induction false} FilterAppend(a: seq<Interaction>, b: seq<Interaction>, drugName: string, drugsToCheck: seq<string>)
    ensures Filter(a + b, drugName, drugsToCheck) == Filter(a, drugName, drugsToCheck) + Filter(b, drugName, drugsToCheck)
  {
    if b != [] {
      var pre := b[..|b| - 1];
      FilterAppend(a, pre, drugName, drugsToCheck);
      assert (a + b)[..|a + b| - 1] == a + pre;
    } else {
      assert a + b == a;
    }
  }

  /** Filtering neither drops nor duplicates a matching row: each is kept as
      many times as the table holds it, and no other row is kept. */
  lemma {:induction false} FilterCount(table: seq<Interaction>, drugName: string, drugsToCheck: seq<string>, r: Interaction)
    ensures multiset(Filter(table, drugName, drugsToCheck))[r]
            == if Matches(r, drugName, drugsToCheck) then multiset(table)[r] else 0
  {
    if table != [] {
      var pre := table[..|table| - 1];
      FilterCount(pre, drugName, drugsToCheck, r);
      assert table == pre + [table[|table| - 1]];
    }
  }

  /** `get_interactions`: nothing (`None`) for an empty list of drugs to
      check, otherwise the matching rows in table order. */
  method GetInteractions(drugName: string, table: seq<Interaction>, drugsToCheck: seq<string>)
    returns (rows: Option<seq<Interaction>>)
    ensures rows.None? <==> drugsToCheck == []
    ensures rows.Some? ==> rows.value == Filter(table, drugName, drugsToCheck)
  {
    if drugsToCheck == [] {
      return None;
    }
    var interactionsList := [];
    for i := 0 to |table|
      invariant interactionsList == Filter(table[..i], drugName, drugsToCheck)
    {
      var intxn := table[i];
      if intxn.drugName == drugName && intxn.interactsWith in drugsToCheck {
        interactionsList := interactionsList + [intxn];
      }
      assert table[..i + 1][..i] == table[..i];
    }
    assert table[..|table|] == table;
    return Some(interactionsList);
  }

  // ---------------------------------------------------------------------------
  // The pairwise sweep
  // ---------------------------------------------------------------------------

  /** The rows the triangular sweep retrieves: the first drug against every
      later one, then the sweep over the remaining drugs. */
  function Sweep(names: seq<string>, table: seq<Interaction>): seq<Interaction>
  {
    if |names| <= 1 then []
    else Filter(table, names[0], names[1..]) + Sweep(names[1..], table)
  }

  /** The sweep from index `i` on looks up the drug at `i`, then sweeps from `i + 1`. */
  lemma SweepFrom(names: seq<string>, table: seq<Interaction>, i: nat)
    requires i + 1 < |names|
    ensures Sweep(names[i..], table) == Filter(table, names[i], names[i + 1..]) + Sweep(names[i + 1..], table)
  {
    assert names[i..][1..] == names[i + 1..];
  }

  /** The row records an interaction of the drug at some index with a drug at a strictly later index. */
  predicate PairedLater(r: Interaction, names: seq<string>)
  {
    exists i, j :: 0 <= i < j < |names| && r.drugName == names[i] && r.interactsWith == names[j]
  }

  /** The sweep retrieves a row exactly when the table holds it and it names
      a pair of listed drugs, the recording drug listed first. */
  lemma {:induction false} SweepMembers(names: seq<string>, table: seq<Interaction>, r: Interaction)
    ensures r in Sweep(names, table) <==> r in table && PairedLater(r, names)
  {
    if |names| > 1 {
      var rest := names[1..];
      SweepMembers(rest, table, r);
      FilterMembers(table, names[0], rest, r);
      if PairedLater(r, rest) {
        var i, j :| 0 <= i < j < |rest| && r.drugName == rest[i] && r.interactsWith == rest[j];
        assert r.drugName == names[i + 1] && r.interactsWith == names[j + 1];
      }
      if PairedLater(r, names) {
        var i, j :| 0 <= i < j < |names| && r.drugName == names[i] && r.interactsWith == names[j];
        if i == 0 {
          assert r.interactsWith == rest[j - 1];
        } else {
          assert r.drugName == rest[i - 1] && r.interactsWith == rest[j - 1];
        }
      }
    }
  }

  predicate Distinct(names: seq<string>)
  {
    forall i, j :: 0 <= i < j < |names| ==> names[i] != names[j]
  }

  /** A pair in a list of at least two names either starts at the first
      name or lies wholly in the rest; for distinct names, not both. */
  lemma {:induction false} PairedLaterSplit(r: Interaction, names: seq<string>)
    requires |names| > 1 && Distinct(names)
    ensures PairedLater(r, names)
            <==> (r.drugName == names[0] && r.interactsWith in names[1..]) || PairedLater(r, names[1..])
    ensures r.drugName == names[0] ==> !PairedLater(r, names[1..])
  {
    var rest := names[1..];
    if PairedLater(r, names) {
      var i, j :| 0 <= i < j < |names| && r.drugName == names[i] && r.interactsWith == names[j];
      if i == 0 {
        assert r.interactsWith == rest[j - 1];
      } else {
        assert r.drugName == rest[i - 1] && r.interactsWith == rest[j - 1];
      }
    }
    if r.drugName == names[0] && r.interactsWith in rest {
      var j :| 0 <= j < |rest| && rest[j] == r.interactsWith;
      assert r.interactsWith == names[j + 1];
    }
    if PairedLater(r, rest) {
      var i, j :| 0 <= i < j < |rest| && r.drugName == rest[i] && r.interactsWith == rest[j];
      assert r.drugName == names[i + 1] && r.interactsWith == names[j + 1];
      assert r.drugName != names[0];
    }
  }

  /** For distinct names the sweep retrieves every stored row of a listed pair
      exactly as often as the table holds it: no pair is looked up twice. */
  lemma {:induction false} SweepCount(names: seq<string>, table: seq<Interaction>, r: Interaction)
    requires Distinct(names)
    ensures multiset(Sweep(names, table))[r] == if PairedLater(r, names) then multiset(table)[r] else 0
  {
    if |names| > 1 {
      var rest := names[1..];
      assert Distinct(rest);
      SweepCount(rest, table, r);
      FilterCount(table, names[0], rest, r);
      PairedLaterSplit(r, names);
      assert multiset(Sweep(names, table))[r]
             == multiset(Filter(table, names[0], rest))[r] + multiset(Sweep(rest, table))[r];
    }
  }

  /** For distinct names the sweep never pairs a drug with itself: a row
      that records a drug interacting with itself is never retrieved. */
  lemma SweepNoSelfPair(names: seq<string>, table: seq<Interaction>, r: Interaction)
    requires Distinct(names)
    requires r.drugName == r.interactsWith
    ensures r !in Sweep(names, table)
  {
    SweepMembers(names, table, r);
  }

  /** The sweep only looks forward: a row recorded by a later drug about an
      earlier one is not retrieved, unless the two names also occur the other
      way round in the list. */
  lemma SweepMissesBackwardRow(names: seq<string>, table: seq<Interaction>, r: Interaction, i: nat, j: nat)
    requires Distinct(names)
    requires i < j < |names| && r.drugName == names[j] && r.interactsWith == names[i]
    ensures r !in Sweep(names, table)
  {
    SweepMembers(names, table, r);
  }

  // ---------------------------------------------------------------------------
  // The report
  // ---------------------------------------------------------------------------

  /** The first line `print_interaction` writes for a row. */
  function Heading(it: Interaction): string
  {
    it.drugName + " interacts with " + it.interactsWith
  }

  /** `print_interaction`: the heading, a newline, the description, a newline. */
  function PrintInteraction(it: Interaction): string
  {
    Heading(it) + "\n" + it.description + "\n"
  }

  /** Read back line by line, a printed row is its heading, then its
      description, then the empty rest after the last newline. */
  lemma PrintInteractionLines(it: Interaction)
    requires '\n' !in Heading(it) && '\n' !in it.description
    ensures Split(PrintInteraction(it), '\n') == [Heading(it), it.description, ""]
  {
    var lines := [Heading(it), it.description, ""];
    assert Join(lines, '\n') == PrintInteraction(it) by {
      assert Join(lines[2..], '\n') == "";
      assert Join(lines[1..], '\n') == it.description + "\n" + "";
    }
    SplitJoin(lines, '\n');
  }

  /** The printed rows, concatenated in row order. */
  function Report(rows: seq<Interaction>): string
  {
    if rows == [] then ""
    else Report(rows[..|rows| - 1]) + PrintInteraction(rows[|rows| - 1])
  }

  /** The report of one more row is the report so far followed by that row. */
  lemma ReportPrefix(rows: seq<Interaction>, k: nat)
    requires k < |rows|
    ensures Report(rows[..k + 1]) == Report(rows[..k]) + PrintInteraction(rows[k])
  {
    assert rows[..k + 1][..k] == rows[..k];
  }

  /** The report of two runs of rows is the report of the first followed by
      that of the second: nothing is sorted or merged. */
  lemma {:induction false} ReportAppend(a: seq<Interaction>, b: seq<Interaction>)
    ensures Report(a + b) == Report(a) + Report(b)
  {
    if b != [] {
      var pre := b[..|b| - 1];
      ReportAppend(a, pre);
      assert (a + b)[..|a + b| - 1] == a + pre;
    } else {
      assert a + b == a;
    }
  }

  // ---------------------------------------------------------------------------
  // main
  // ---------------------------------------------------------------------------

  /** The names of a query: the input split on `,`, each one normalised. */
  function QueryNames(commaSeparatedDrugList: string): (names: seq<string>)
    ensures |names| >= 1
  {
    var parts := Split(commaSeparatedDrugList, ',');
    seq(|parts|, k requires 0 <= k < |parts| => CapitalizeName(parts[k]))
  }

  /** A query whose names are already in canonical case is used as written. */
  lemma QueryNamesOfCanonical(commaSeparatedDrugList: string)
    requires forall part :: part in Split(commaSeparatedDrugList, ',') ==> IsCapitalized(part)
    ensures QueryNames(commaSeparatedDrugList) == Split(commaSeparatedDrugList, ',')
  {
    var parts := Split(commaSeparatedDrugList, ',');
    forall k | 0 <= k < |parts|
      ensures CapitalizeName(parts[k]) == parts[k]
    {
      CapitalizedIsFixpoint(parts[k]);
    }
  }

  /** What `main` returns: the message for the first name that fails the
      check, or else the report of the sweep. */
  function QueryResult(commaSeparatedDrugList: string, drugs: seq<DrugRow>, table: seq<Interaction>): string
  {
    var names := QueryNames(commaSeparatedDrugList);
    match FirstMissing(names, drugs)
    case Some(k) => NotInDatabase(names[k])
    case None => Report(Sweep(names, table))
  }

  /** `main`, given the contents of the two tables instead of a connection. */
  method QueryInteractions(commaSeparatedDrugList: string, drugs: seq<DrugRow>, table: seq<Interaction>)
    returns (report: string)
    ensures report == QueryResult(commaSeparatedDrugList, drugs, table)
  {
    var drugList := Split(commaSeparatedDrugList, ',');
    drugList := StandardizeCapitalizationInList(drugList);
    ghost var names := QueryNames(commaSeparatedDrugList);
    assert drugList == names;
    for idx := 0 to |drugList|
      invariant forall j :: 0 <= j < idx ==> CheckDrugInDb(drugList[j], drugs)
    {
      if !CheckDrugInDb(drugList[idx], drugs) {
        FirstMissingIs(names, drugs, idx);
        return NotInDatabase(drugList[idx]);
      }
    }
    var relevantInteractions := SweepInteractions(drugList, table);
    report := PrintReport(relevantInteractions);
  }

  /** The triangular sweep of `main`: each drug against the drugs listed
      after it, one `get_interactions` per drug, the rows concatenated in
      sweep order; an empty or missing answer adds nothing. */
  method SweepInteractions(drugList: seq<string>, table: seq<Interaction>)
    returns (relevantInteractions: seq<Interaction>)
    ensures relevantInteractions == Sweep(drugList, table)
  {
    relevantInteractions := [];
    if |drugList| == 0 {
      return;
    }
    var n := |drugList|;
    assert drugList[0..] == drugList;
    for i := 0 to n - 1
      invariant relevantInteractions + Sweep(drugList[i..], table) == Sweep(drugList, table)
    {
      var intxns := GetInteractions(drugList[i], table, drugList[i + 1..]);
      SweepFrom(drugList, table, i);
      ghost var before := relevantInteractions;
      ghost var found := Filter(table, drugList[i], drugList[i + 1..]);
      ghost var later := Sweep(drugList[i + 1..], table);
      if intxns.Some? && intxns.value != [] {
        relevantInteractions := relevantInteractions + intxns.value;
      }
      assert relevantInteractions == before + found;
      assert relevantInteractions + later == before + (found + later);
    }
    assert Sweep(drugList[n - 1..], table) == [];
  }

  /** The report loop of `main`: the printed rows, concatenated in order. */
  method PrintReport(relevantInteractions: seq<Interaction>) returns (interactionsReport: string)
    ensures interactionsReport == Report(relevantInteractions)
  {
    interactionsReport := "";
    for k := 0 to |relevantInteractions|
      invariant interactionsReport == Report(relevantInteractions[..k])
    {
      ReportPrefix(relevantInteractions, k);
      interactionsReport := interactionsReport + PrintInteraction(relevantInteractions[k]);
    }
    assert relevantInteractions[..|relevantInteractions|] == relevantInteractions;
  }

  /** The first failing name is the one `FirstMissing` finds. */
  lemma FirstMissingIs(names: seq<string>, drugs: seq<DrugRow>, k: nat)
    requires k < |names| && !CheckDrugInDb(names[k], drugs)
    requires forall j :: 0 <= j < k ==> CheckDrugInDb(names[j], drugs)
    ensures FirstMissing(names, drugs) == Some(k)
  {
    match FirstMissing(names, drugs)
    case None =>
    case Some(m) =>
      if m < k {
      } else if m > k {
      }
  }

  /** Validation short-circuits: the answer names the first name, in list
      order, that fails the check, and no interaction is looked up. */
  lemma QueryReportsFirstMissing(commaSeparatedDrugList: string, drugs: seq<DrugRow>, table: seq<Interaction>, k: nat)
    requires var names := QueryNames(commaSeparatedDrugList);
             && k < |names| && !CheckDrugInDb(names[k], drugs)
             && forall j :: 0 <= j < k ==> CheckDrugInDb(names[j], drugs)
    ensures QueryResult(commaSeparatedDrugList, drugs, table)
            == NotInDatabase(QueryNames(commaSeparatedDrugList)[k])
  {
    FirstMissingIs(QueryNames(commaSeparatedDrugList), drugs, k);
  }

  /** When every name passes, the answer is the report of the sweep. */
  lemma QueryReportsSweep(commaSeparatedDrugList: string, drugs: seq<DrugRow>, table: seq<Interaction>)
    requires var names := QueryNames(commaSeparatedDrugList);
             forall j :: 0 <= j < |names| ==> CheckDrugInDb(names[j], drugs)
    ensures QueryResult(commaSeparatedDrugList, drugs, table)
            == Report(Sweep(QueryNames(commaSeparatedDrugList), table))
  {
  }

  /** A single known drug has nobody to interact with: the report is empty. */
  lemma QuerySingleDrug(drugName: string, drugs: seq<DrugRow>, table: seq<Interaction>)
    requires ',' !in drugName
    requires CheckDrugInDb(CapitalizeName(drugName), drugs)
    ensures QueryResult(drugName, drugs, table) == ""
  {
    SplitJoin([drugName], ',');
    assert QueryNames(drugName) == [CapitalizeName(drugName)];
  }

  /** An empty query is one empty name: when no drug row is keyed `''` it is
      reported as missing. */
  lemma QueryEmptyInput(drugs: seq<DrugRow>, table: seq<Interaction>)
    requires !CheckDrugInDb("", drugs)
    ensures QueryResult("", drugs, table) == NotInDatabase("")
  {
    assert QueryNames("") == [""];
    FirstMissingIs([""], drugs, 0);
  }

  /** An empty query is one empty name: when a drug row is keyed `''` (a drug
      element without a `name` child is stored so), it passes the check and
      the report is empty. */
  lemma QueryEmptyInputKnown(drugs: seq<DrugRow>, table: seq<Interaction>)
    requires CheckDrugInDb("", drugs)
    ensures QueryResult("", drugs, table) == ""
  {
    assert Split("", ',') == [""];
    CapitalizeNameIsCanonicalCase("");
    assert QueryNames("") == [""];
    assert FirstMissing([""], drugs) == None;
  }
}
