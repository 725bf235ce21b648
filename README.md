# DrugQry in Dafny

A verified model of DrugQry, a small tool that imports a DrugBank XML export
into two relational tables and answers one query: given a comma-separated
list of drug names, report every documented interaction among them.

What is modelled:

- **Name normalisation** (`names.dfy`, `text.dfy`): `capitalize_name`
  lower-cases a name and upper-cases its first character;
  `standardize_capitalization_in_list` applies it to each element of a list.
  Case mapping covers the ASCII letters only.
- **Query engine** (`query.dfy`): `main` splits its argument on `,`,
  normalises every name and checks each one against the `drugs` table. It
  stops at the first name that does not have exactly one row. Otherwise it
  runs the triangular sweep: the drug at index `i` is looked up, with one
  `get_interactions` call, against all drugs at indices greater than `i`. The
  rows found are concatenated in sweep order and printed, two lines each.
  The tables are passed in as sequences: `drugs` as `seq<DrugRow>` and
  `interactions` as `seq<Interaction>`. A SQL `SELECT` is a filter over the
  sequence that keeps table order. SQL promises no order for a `SELECT`
  without `ORDER BY`. The model assumes that SQLite scans the unindexed
  `interactions` table in rowid order, which is insertion order.
- **XML mapping** (`xml_mapping.dfy`, `records.dfy`): an element is an
  already-parsed tree (tag, text, children). `convert_interaction_from_xml_to_object`
  and `convert_drug_from_xml_to_object` are methods that overwrite fields
  child by child. Each has a fold over the children as its specification. The
  `Drug` object is a class, because the program fills in an object handed to
  it. An `Interaction` is a datatype: each one is freshly built, filled in
  and appended, and never shared.
- **Import persistence** (`store.dfy`): the store is a class holding the two
  tables and a ghost log of committed inserts. `add_drug` commits the drug row
  first, then each interaction row in document order.
- `scenario.dfy` is a client of both flows. It imports Aspirin, which records
  an interaction with Warfarin, then imports Warfarin, then queries
  `"Aspirin,Warfarin"`.

The two sides normalise names differently. Query input is normalised.
Imported `name` and `interacts_with` values are stored as they appear in the
document. The model keeps this asymmetry.

## Model

| member | source | states |
|---|---|---|
| `Names.CapitalizeNameIsCanonicalCase` | drugqry.py:142-145 | the normalised name has the input's length, is in canonical case (first character not lower-case, no later character upper-case), spells the input up to ASCII case, and is `""` for `""` |
| `Names.CapitalizedIsFixpoint` | drugqry.py:142-145 | a name already in canonical case is returned unchanged |
| `Names.CapitalizeIdempotent` | drugqry.py:142-145 | normalising twice equals normalising once |
| `Names.CapitalizeIsCanonical` | drugqry.py:142-145 | `t` is the normalised form of `s` if and only if `t` is in canonical case and equals `s` up to case |
| `Names.StandardizeCapitalizationInList` | drugqry.py:147-151 | the new list has the same length, and element `k` is the normalised element `k` of the input, in the same order |
| `Text.Split` | drugqry.py:189 | `str.split(',')` yields at least one part, and no part contains the separator |
| `Text.JoinSplit` | drugqry.py:189 | joining the parts with the separator gives back the input |
| `Text.SplitJoin` | drugqry.py:189 | splitting a join of separator-free parts gives back the parts |
| `Query.CountNamed` | drugqry.py:154-157 | the `COUNT(*)` of rows with a name is at most the table size, and is zero exactly when no row has that name |
| `Query.CheckDrugInDbMeansPresent` | drugqry.py:153-161 | under the primary key, a name passes `check_drug_in_db` if and only if the `drugs` table holds it |
| `Query.FirstMissing` | drugqry.py:193-196 | returns the index of a name that fails the check, with every earlier name passing; returns none only when every name passes |
| `Query.FirstMissingIs` | drugqry.py:193-196 | the first failing name, in list order, is the one reported |
| `Query.FilterMembers` | drugqry.py:166-174 | a row is retrieved if and only if the table holds it, its `drug_name` is the left drug and its `interacts_with` is in the check list |
| `Query.FilterCount` | drugqry.py:166-174 | each matching row is retrieved exactly as many times as the table holds it (duplicates kept), and no other row is retrieved |
| `Query.FilterAppend` | drugqry.py:173-180 | retrieval keeps table order: filtering distributes over concatenation |
| `Query.GetInteractions` | drugqry.py:163-181 | returns nothing exactly when the check list is empty, and otherwise the matching rows in table order |
| `Query.SweepMembers` | drugqry.py:201-207 | the sweep retrieves a row if and only if the table holds it and it records the drug at some index `i` against the drug at a later index `j > i` |
| `Query.PairedLaterSplit` | drugqry.py:201-207 | a pair of listed drugs either starts at the first drug or lies wholly among the later ones, and for distinct names never both: the split the sweep's first step makes |
| `Query.SweepCount` | drugqry.py:201-207 | for distinct names, each such row is retrieved exactly as often as the table holds it: no pair of indices is looked up twice |
| `Query.SweepNoSelfPair` | drugqry.py:201-207 | for distinct names, no drug is paired with itself |
| `Query.SweepMissesBackwardRow` | drugqry.py:201-207 | for distinct names, a row recorded only by the later drug about the earlier one is not retrieved |
| `Query.SweepInteractions` | drugqry.py:201-207 | the accumulated rows are the sweep's rows in sweep order; an empty or missing answer adds nothing |
| `Query.PrintInteractionLines` | drugqry.py:183-186 | a printed row read back line by line is `<drug_name> interacts with <interacts_with>`, then the description, then an empty rest |
| `Query.ReportAppend` | drugqry.py:208-211 | the report of two runs of rows is the first report followed by the second: nothing is sorted or merged |
| `Query.PrintReport` | drugqry.py:208-211 | the report is the printed rows concatenated in row order |
| `Query.QueryNames` | drugqry.py:189-190 | a query always has at least one name |
| `Query.QueryNamesOfCanonical` | drugqry.py:189-190 | a query whose names are already in canonical case is used exactly as split |
| `Query.QueryInteractions` | drugqry.py:188-211 | `main` returns the message for the first failing name, or else the printed report of the sweep |
| `Query.QueryReportsFirstMissing` | drugqry.py:193-196 | when name `k` is the first one to fail, the answer is `<name> is not in database. Remove it/fix spelling and try again.`, whatever the tables' interactions |
| `Query.QueryReportsSweep` | drugqry.py:197-211 | when every name passes, the answer is the report of the sweep |
| `Query.QuerySingleDrug` | drugqry.py:201-211 | a single known drug yields the empty report |
| `Query.QueryEmptyInput` | drugqry.py:189-196 | an empty query is one empty name; when no drug row is keyed `''`, it is reported as missing |
| `Query.QueryEmptyInputKnown` | drugqry.py:189-211 | when a drug row is keyed `''` (a drug element without a `name` child is stored so), an empty query passes the check and the report is empty |
| `XmlMapping.InteractionFromChildren` | drugqry.py:100-106 | an interaction built from child elements carries no drug name: `''` stands for the `drug_name` attribute that `Interaction()` lacks until the drug conversion sets it |
| `XmlMapping.InteractionOf` | drugqry.py:100-112 | a converted interaction carries no drug name (`''`, standing for the attribute not yet set), with or without children |
| `XmlMapping.InteractionLastChildWins` | drugqry.py:102-106 | when `name` or `description` repeats among the children, the last occurrence sets the field |
| `XmlMapping.InteractionAbsentChildLeavesEmpty` | drugqry.py:101-106 | a field that no child sets stays `''` |
| `XmlMapping.ConvertInteractionFromXml` | drugqry.py:100-112 | the result is the fold over the children, or, for a childless element, the element's own tag and text; the drug name is `''` |
| `XmlMapping.Drug.constructor` | drugqry.py:25-32 | a new drug has every field empty |
| `XmlMapping.ConvertDrugFromXml` | drugqry.py:81-98 | the drug's new fields are the fold of its old fields over the children |
| `XmlMapping.DrugLastChildWins` | drugqry.py:82-92 | when a text tag repeats, its last occurrence sets the field |
| `XmlMapping.DrugAbsentChildKeepsField` | drugqry.py:82-92 | a text field no child sets keeps its value |
| `XmlMapping.DrugInteractionsInDocumentOrder` | drugqry.py:93-97 | the interaction list only grows; what is appended is one converted interaction per interaction element, in document order |
| `XmlMapping.DrugWithoutInteractionsChild` | drugqry.py:93-97 | without a `drug-interactions` child, the interaction list is unchanged |
| `XmlMapping.DrugInteractionsStampedWithName` | drugqry.py:93-97 | when the last `name` child precedes every `drug-interactions` child, every appended interaction carries that name |
| `XmlMapping.DrugInteractionsStampedAtVisit` | drugqry.py:82-97 | the interactions a `drug-interactions` child appends all carry the drug name set by the children before it, whatever `name` children follow |
| `XmlMapping.NameAfterInteractionsIsNotStamped` | drugqry.py:93-97 | an example: a `name` child after `drug-interactions` does not reach the interaction appended before it, which keeps the empty name |
| `Store.Database.constructor` | drugqry.py:34-59 | both tables start empty, with nothing committed |
| `Store.Database.AddDrugToDb` | drugqry.py:71-79 | a row with a new name is appended and committed; a taken name writes nothing; the interactions table is unchanged |
| `Store.Database.AddInteractionToDb` | drugqry.py:61-68 | the row is appended and committed, duplicates kept; the drugs table is unchanged |
| `Store.AddInteractionsToDb` | drugqry.py:121-123 | the interaction rows are appended and committed one by one in list order; the drugs table is unchanged |
| `Store.AddDrug` | drugqry.py:114-123 | commits the converted drug row, then its interaction rows in document order, and nothing else; a taken name commits nothing |
| `Scenario.AspirinWarfarinReported` | drugqry.py:188-211 | querying Aspirin and Warfarin reports `Aspirin interacts with Warfarin`, then `Increases bleeding risk` |
| `Scenario.ImportThenQuery` | drugqry.py:114-123 | importing Aspirin (with its Warfarin interaction) and then Warfarin, and querying both, reports that interaction |

## Left out

- SQLite itself: connections, `CREATE TABLE`, `commit` and the `SELECT` text with its repeated `OR interacts_with = (?)`. Tables are sequences; an insert is an append; a `SELECT` is a filter in insertion order, which assumes SQLite's rowid scan of an unindexed table (SQL itself promises no order without `ORDER BY`).
- Creating tables that already exist (`create_drugs_table` on a populated store): `Store.Database.constructor` always starts from a fresh, empty store.
- Store.Database.AddDrugToDb: a duplicate primary key raises in the program; here it returns `false` and writes nothing, and `Store.AddDrug` then commits no interaction rows, as the raised exception would.
- `ET.parse` and the `{http://www.drugbank.ca}` namespace prefix: elements arrive already parsed, with tags written without the prefix.
- XML elements whose text is `None`: text is always a string.
- The unused `drugbank_id` field of `Interaction`, the unused `prefix_len` in `add_drug`, and the unused `pdb` import.
- `convert_drug_from_xml_to_object` also returns the drug it was given. That return value is not modelled, because the caller ignores it.
- `count_drugs` progress printing, the `setup_sql_db` driver loop and the command line in `__main__`. These are I/O glue. `setup_sql_db` also ignores its `path_to_xml` argument and always opens `full_database.xml`.
- The connection to `db_file` that `main` opens: the tables' contents are parameters of `Query.QueryInteractions`.
- Names.CapitalizeNameIsCanonicalCase: covers ASCII case mapping only, not Python's full Unicode `lower()`/`upper()`.
- The sweep loop and the report loop of `main` are the methods `Query.SweepInteractions` and `Query.PrintReport`, which `Query.QueryInteractions` calls. This keeps each proof small.
- The loop of `add_drug` over the interaction list is the method `Store.AddInteractionsToDb`, which `Store.AddDrug` calls, for the same reason.
