/** The records the import page passes between its stages: analysed columns,
    (column, caption, confidence) suggestions and the caption slots of the
    mapping table. */
module Domain {
  import opened Common

  /** The inferred kind of a column. */
  datatype ColumnType = NumberType | EmailType | DateType | TextType

  /** An analysed import column: its display name, its 0-based position,
      up to three non-empty sample values and its inferred kind. */
  datatype Column = Column(name: string, index: nat, sample: seq<string>, kind: ColumnType)

  /** A proposed assignment of an import column to a caption. */
  datatype Suggestion = Suggestion(csvColumn: string, targetCaption: string, confidence: real)

  /** One slot of the mapping table. `confidence` is absent until a
      suggestion or confirmation fills the slot; `suggested` and `confirmed`
      are false where the page leaves them undefined. */
  datatype MappingRow = MappingRow(
    id: string,
    order: int,
    header: string,
    sample: string,
    caption: string,
    keyField: bool,
    matchById: bool,
    confidence: Option<real>,
    suggested: bool,
    confirmed: bool)

  /** Placeholder shown for an unassigned slot. */
  const Unassigned: string := "N/A"
}
