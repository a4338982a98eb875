/** The row dictionary before and after the per-row normalisation. */
module Records {
  import opened Wrappers
  import opened Fields

  /**
   * One CSV row as `pd.read_csv(..., dtype=str).fillna("")` yields it: every
   * column present in the file maps to a string; absent columns are absent.
   */
  type RawRow = map<string, string>

  /** `row.get(col)`. */
  function Cell(raw: RawRow, col: string): Option<string> {
    if col in raw then Some(raw[col]) else None
  }

  /** `row.get(col, default)`. */
  function CellOr(raw: RawRow, col: string, default: string): string {
    if col in raw then raw[col] else default
  }

  /** Python truthiness of an optional string: present and non-empty. */
  predicate Truthy(o: Option<string>) {
    o.Some? && o.value != ""
  }

  /**
   * `row.get(col, default)` is `row.get(col)` with the default in place of
   * `None`, and a cell is truthy exactly when the column is present and not
   * the empty string.
   */
  lemma CellDefault(raw: RawRow, col: string, default: string)
    ensures CellOr(raw, col, default) == if Cell(raw, col).Some? then Cell(raw, col).value else default
    ensures Truthy(Cell(raw, col)) <==> col in raw && raw[col] != ""
    ensures Truthy(Cell(raw, col)) ==> CellOr(raw, col, default) == Text(Cell(raw, col)) != ""
  {
  }

  /** The text of a truthy cell. */
  function Text(o: Option<string>): string {
    if o.Some? then o.value else ""
  }

  /**
   * The row after normalisation: list columns are lists, vitals a dict, the two
   * free-text columns de-identified, and `gold_response` always a string. The
   * untouched columns keep their optional raw text.
   */
  datatype Row = Row(
    id: Option<string>,
    source: Option<string>,
    age: Option<string>,
    sex: Option<string>,
    medicalHistory: seq<string>,
    medications: seq<string>,
    allergies: Option<string>,
    vitals: Dict,
    presentingComplaint: string,
    clinicianNote: string,
    goldResponse: string)
}
