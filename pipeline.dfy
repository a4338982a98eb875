/**
 * The notebook from the schema check to the validation export: the
 * conversion loop, the quality report and the three random draws.
 */
module Pipeline {
  import opened Wrappers
  import opened Selection
  import opened Fields
  import opened Records
  import opened Redactor
  import opened Assembler
  import opened Audit
  import opened Converter
  import opened Sampler

  const ExpectedColumns: seq<string> := [
    "id", "age", "sex", "medical_history", "medications", "allergies", "vitals",
    "presenting_complaint", "clinician_note"
  ]

  /** Each expected column, flagged by whether the table lacks it. */
  function ColumnSlots(columns: seq<string>): seq<(bool, string)> {
    seq(|ExpectedColumns|, m requires 0 <= m < |ExpectedColumns| => (ExpectedColumns[m] !in columns, ExpectedColumns[m]))
  }

  /** `[c for c in EXPECTED_COLUMNS if c not in raw_df.columns]`. */
  function MissingColumns(columns: seq<string>): seq<string> {
    Keep(ColumnSlots(columns))
  }

  /** A column is reported missing exactly when it is expected and absent. */
  lemma MissingColumnsSpec(columns: seq<string>, c: string)
    ensures c in MissingColumns(columns) <==> c in ExpectedColumns && c !in columns
  {
    var slots := ColumnSlots(columns);
    KeepMember(slots, c);
    if c in ExpectedColumns && c !in columns {
      var m :| 0 <= m < |ExpectedColumns| && ExpectedColumns[m] == c;
      assert slots[m] == (true, c);
    }
  }

  /** The numbers `quality_report.json` holds. */
  datatype Report = Report(
    numInputRows: nat,
    numOutputExamples: nat,
    missingDemographics: nat,
    phiFoundAfterDeid: nat,
    emptyInstruction: nat)

  /**
   * Cell 5 and the report of Cell 7: every row gives one example, and the
   * counters count their conditions over the rows.
   */
  method ConvertTable(rules: seq<Rule>, json: string -> Option<Dict>, table: seq<RawRow>)
    returns (processed: seq<Example>, report: Report)
    ensures processed == Examples(rules, json, table)
    ensures report.numInputRows == |table| && report.numOutputExamples == |table|
    ensures report.missingDemographics == Count(table, MissingDemographics)
    ensures report.phiFoundAfterDeid == Count(processed, PhiFound)
    ensures report.emptyInstruction == 0
  {
    var converter := new Converter(rules, json);
    converter.ProcessAll(table);
    assert converter.rows == table;
    ConverterState(converter);
    processed := converter.processed;
    report := Report(|table|, |processed|, converter.missingDemographics,
                     converter.phiFoundAfterDeid, converter.emptyInstruction);
  }

  /**
   * The draws of Cells 6, 8 and 9, in that order from one generator: the
   * inspection sample, the review sample and the validation sample, which
   * fails below ten examples. `reviewFrom` and `validationFrom` are the
   * generator's positions when the second and the third draw begin.
   */
  method DrawSamples(processed: seq<Example>, rng: Random)
    returns (inspection: Result<seq<Example>, string>, review: Result<seq<Example>, string>,
             validation: Result<seq<Example>, string>,
             ghost inspectionAt: seq<nat>, ghost reviewAt: seq<nat>, ghost validationAt: seq<nat>,
             ghost reviewFrom: nat, ghost validationFrom: nat)
    modifies rng
    ensures inspection.Ok? && |inspection.value| == InspectionSize(|processed|)
    ensures IsDraw(processed, inspectionAt, inspection.value)
    ensures review.Ok? && |review.value| == InspectionSize(|processed|)
    ensures IsDraw(processed, reviewAt, review.value)
    ensures validation.Err? <==> |processed| < 10
    ensures validation.Ok? ==> |validation.value| == ValidationSize(|processed|)
    ensures validation.Ok? ==> IsDraw(processed, validationAt, validation.value)
    ensures rng.consumed == old(rng.consumed) + 2 * InspectionSize(|processed|)
      + (if |processed| < 10 then 0 else ValidationSize(|processed|))
    ensures inspectionAt == PoolPositions(|processed|, InspectionSize(|processed|), rng.stream, old(rng.consumed))
    ensures reviewFrom == old(rng.consumed) + InspectionSize(|processed|)
    ensures reviewAt == PoolPositions(|processed|, InspectionSize(|processed|), rng.stream, reviewFrom)
    ensures validationFrom == reviewFrom + InspectionSize(|processed|)
    ensures validation.Ok? ==> validationAt == PoolPositions(|processed|, ValidationSize(|processed|), rng.stream, validationFrom)
  {
    var sampleN := InspectionSize(|processed|);
    inspection, inspectionAt := rng.Sample(processed, sampleN);
    reviewFrom := rng.consumed;
    review, reviewAt := rng.Sample(processed, sampleN);
    validationFrom := rng.consumed;
    var valSize := ValidationSize(|processed|);
    validation, validationAt := rng.Sample(processed, valSize);
  }

  /**
   * Cells 4 to 9 on a loaded table: the schema check, the conversion with its
   * report, and the three draws from the examples.
   */
  method Run(rules: seq<Rule>, json: string -> Option<Dict>, columns: seq<string>, table: seq<RawRow>, rng: Random)
    returns (missing: seq<string>, processed: seq<Example>, report: Report,
             inspection: Result<seq<Example>, string>, review: Result<seq<Example>, string>,
             validation: Result<seq<Example>, string>,
             ghost inspectionAt: seq<nat>, ghost reviewAt: seq<nat>, ghost validationAt: seq<nat>,
             ghost reviewFrom: nat, ghost validationFrom: nat)
    modifies rng
    ensures missing == MissingColumns(columns)
    ensures processed == Examples(rules, json, table)
    ensures report.numInputRows == report.numOutputExamples == |table|
    ensures report.missingDemographics == Count(table, MissingDemographics)
    ensures report.phiFoundAfterDeid == Count(processed, PhiFound)
    ensures report.emptyInstruction == 0
    ensures inspection.Ok? && |inspection.value| == InspectionSize(|table|)
    ensures IsDraw(processed, inspectionAt, inspection.value)
    ensures review.Ok? && |review.value| == InspectionSize(|table|)
    ensures IsDraw(processed, reviewAt, review.value)
    ensures validation.Err? <==> |table| < 10
    ensures validation.Ok? ==> |validation.value| == ValidationSize(|table|)
    ensures validation.Ok? ==> IsDraw(processed, validationAt, validation.value)
    ensures rng.consumed == old(rng.consumed) + 2 * InspectionSize(|table|)
      + (if |table| < 10 then 0 else ValidationSize(|table|))
    ensures inspectionAt == PoolPositions(|table|, InspectionSize(|table|), rng.stream, old(rng.consumed))
    ensures reviewFrom == old(rng.consumed) + InspectionSize(|table|)
    ensures reviewAt == PoolPositions(|table|, InspectionSize(|table|), rng.stream, reviewFrom)
    ensures validationFrom == reviewFrom + InspectionSize(|table|)
    ensures validation.Ok? ==> validationAt == PoolPositions(|table|, ValidationSize(|table|), rng.stream, validationFrom)
  {
    missing := MissingColumns(columns);
    processed, report := ConvertTable(rules, json, table);
    ExamplesLength(rules, json, table);
    inspection, review, validation, inspectionAt, reviewAt, validationAt, reviewFrom, validationFrom := DrawSamples(processed, rng);
  }
}
