/** The values the program passes around: an already-parsed XML element, an
    interaction record (also the shape of a row of the `interactions` table)
    and a row of the `drugs` table. */
module Records {

  /** An XML element: its tag without the namespace prefix, its text and its
      child elements in document order. */
  datatype Element = Element(tag: string, text: string, children: seq<Element>)

  /** An `Interaction` object and an `interactions` row: the drug that
      records the interaction, the drug it interacts with and a description. */
  datatype Interaction = Interaction(drugName: string, interactsWith: string, description: string)

  /** A row of the `drugs` table; `name` is its primary key. */
  datatype DrugRow = DrugRow(
    name: string,
    mechanism: string,
    indication: string,
    halfLife: string,
    pharmacodynamics: string)

  datatype Option<T> = None | Some(value: T)

  // Local names of the tags the importer recognises.
  const NameTag := "name"
  const DescriptionTag := "description"
  const MechanismTag := "mechanism"
  const IndicationTag := "indication"
  const HalfLifeTag := "half-life"
  const PharmacodynamicsTag := "pharmacodynamics"
  const DrugInteractionsTag := "drug-interactions"
}
