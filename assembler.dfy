/** `row_to_example`: the training record built from one normalised row. */
module Assembler {
  import opened Wrappers
  import opened Strings
  import opened Fields
  import opened Records
  import opened Prompts

  /**
   * The example dictionary, field by field. `demographics` holds `age` and
   * `sex`; `metadata` holds `anonymized`.
   */
  datatype Example = Example(
    id: string,
    source: string,
    age: Option<string>,
    sex: Option<string>,
    medicalHistory: seq<string>,
    medications: seq<string>,
    allergies: Option<string>,
    vitals: Dict,
    presentingComplaint: string,
    instruction: string,
    response: string,
    anonymized: bool)

  /** `row_to_example`. The row's `id` cell is a string already, so `str(...)` keeps it. */
  function RowToExample(row: Row): Example {
    Example(
      Text(row.id),
      if row.source.Some? then row.source.value else "clinic",
      row.age,
      row.sex,
      row.medicalHistory,
      row.medications,
      row.allergies,
      row.vitals,
      row.presentingComplaint,
      Prompt(row),
      row.goldResponse,
      true)
  }

  /**
   * The defaults: a row without an id gets the empty id, a row without a
   * `_source` column comes from "clinic", and every example is marked anonymized.
   */
  lemma ExampleDefaults(row: Row)
    ensures var ex := RowToExample(row);
      && ex.anonymized
      && (row.id.None? ==> ex.id == "")
      && (row.source.None? ==> ex.source == "clinic")
      && (row.source.Some? ==> ex.source == row.source.value)
  {
  }

  /** The instruction is the prompt of the row, so it ends with the response marker and is never blank. */
  lemma ExampleInstruction(row: Row)
    ensures var p := RowToExample(row).instruction;
      && p == Prompt(row)
      && |p| >= |Closing| && p[|p| - |Closing|..] == Closing
      && Strip(p) != []
  {
    PromptNotBlank(row);
  }

  /**
   * The clinician note has no field of its own: two rows that differ only in
   * their note give examples that differ only in their instruction.
   */
  lemma NoteOnlyInInstruction(r1: Row, r2: Row)
    requires r1.(clinicianNote := r2.clinicianNote) == r2
    ensures RowToExample(r1).(instruction := "") == RowToExample(r2).(instruction := "")
  {
  }

  /**
   * The other row fields are copied as they are: the example determines the
   * row apart from the note, given whether `id` and `_source` were present.
   */
  lemma ExampleCopiesRow(r1: Row, r2: Row)
    requires r1.id.Some? && r2.id.Some? && r1.source.Some? && r2.source.Some?
    requires RowToExample(r1) == RowToExample(r2)
    ensures r1.(clinicianNote := r2.clinicianNote) == r2
  {
  }
}
