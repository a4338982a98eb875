/**
 * The conversion loop: each CSV row is normalised, turned into an example,
 * audited by three quality counters and appended to `processed`.
 */
module Converter {
  import opened Wrappers
  import opened Strings
  import opened Selection
  import opened Fields
  import opened Records
  import opened Redactor
  import opened Prompts
  import opened Assembler
  import opened Audit

  /**
   * The row after the loop body's normalisation steps: the two list columns
   * split, the vitals parsed, the complaint and the note de-identified, and an
   * absent gold response replaced by the empty string.
   */
  function NormalizeRow(rules: seq<Rule>, json: string -> Option<Dict>, raw: RawRow): Row {
    Row(
      Cell(raw, "id"),
      Cell(raw, "_source"),
      Cell(raw, "age"),
      Cell(raw, "sex"),
      NormalizeList(CellOr(raw, "medical_history", "")),
      NormalizeList(CellOr(raw, "medications", "")),
      Cell(raw, "allergies"),
      VitalsOf(Str(CellOr(raw, "vitals", "")), json),
      Normalize(Cascade(rules, CellOr(raw, "presenting_complaint", ""))),
      Normalize(Cascade(rules, CellOr(raw, "clinician_note", ""))),
      CellOr(raw, "gold_response", ""))
  }

  function ExampleOf(rules: seq<Rule>, json: string -> Option<Dict>, raw: RawRow): Example {
    RowToExample(NormalizeRow(rules, json, raw))
  }

  /** The examples of the rows, one per row, in row order. */
  function Examples(rules: seq<Rule>, json: string -> Option<Dict>, rows: seq<RawRow>): seq<Example> {
    MapSeq(rows, raw => ExampleOf(rules, json, raw))
  }

  /** `not row.get('age') or not row.get('sex')`. */
  predicate MissingDemographics(raw: RawRow) {
    !Truthy(Cell(raw, "age")) || !Truthy(Cell(raw, "sex"))
  }

  /** The leak scan over the serialised example. */
  predicate PhiFound(ex: Example) {
    LeakFound(Serialize(ex))
  }

  /** `not example['instruction'].strip()`. */
  predicate EmptyInstruction(ex: Example) {
    Strip(ex.instruction) == []
  }

  /**
   * The state of the Cell 5 loop: the `processed` list and the three
   * `quality_issues` counters. `rows` records the rows seen so far.
   */
  class Converter {
    const rules: seq<Rule>
    const json: string -> Option<Dict>
    var processed: seq<Example>
    var missingDemographics: nat
    var phiFoundAfterDeid: nat
    var emptyInstruction: nat
    ghost var rows: seq<RawRow>
    ghost const convert: RawRow -> Example
    ghost const leaks: Example -> bool
    ghost const blank: Example -> bool

    /** Every counter counts its condition over the rows seen, and `processed` holds their examples. */
    ghost predicate Valid()
      reads this
    {
      && processed == MapSeq(rows, convert)
      && missingDemographics == Count(rows, MissingDemographics)
      && phiFoundAfterDeid == Count(processed, leaks)
      && emptyInstruction == Count(processed, blank)
    }

    /** `convert` is the conversion of one row with this converter's rules and JSON reader. */
    ghost predicate Agrees() {
      && (forall raw {:trigger ExampleOf(rules, json, raw)} :: convert(raw) == ExampleOf(rules, json, raw))
      && (forall ex {:trigger PhiFound(ex)} :: leaks(ex) == PhiFound(ex))
      && (forall ex {:trigger EmptyInstruction(ex)} :: blank(ex) == EmptyInstruction(ex))
    }

    constructor(rules: seq<Rule>, json: string -> Option<Dict>)
      ensures Valid() && Agrees()
      ensures this.rules == rules && this.json == json
      ensures rows == [] && processed == []
      ensures missingDemographics == 0 && phiFoundAfterDeid == 0 && emptyInstruction == 0
    {
      this.rules := rules;
      this.json := json;
      convert := raw => ExampleOf(rules, json, raw);
      leaks := PhiFound;
      blank := EmptyInstruction;
      processed := [];
      missingDemographics := 0;
      phiFoundAfterDeid := 0;
      emptyInstruction := 0;
      rows := [];
    }

    /** The loop body up to `row_to_example`: the row's cells normalised and assembled into an example. */
    method ConvertRow(raw: RawRow) returns (example: Example)
      requires Agrees()
      ensures example == convert(raw)
    {
      var medicalHistory := NormalizeList(CellOr(raw, "medical_history", ""));
      var medications := NormalizeList(CellOr(raw, "medications", ""));
      var vitals := ParseVitals(Str(CellOr(raw, "vitals", "")), json);
      var complaint := DeidentifyText(rules, Str(CellOr(raw, "presenting_complaint", "")));
      var note := DeidentifyText(rules, Str(CellOr(raw, "clinician_note", "")));
      var gold := "";
      if Truthy(Cell(raw, "gold_response")) {
        gold := Cell(raw, "gold_response").value;
      }
      assert gold == CellOr(raw, "gold_response", "");
      var row := Row(Cell(raw, "id"), Cell(raw, "_source"), Cell(raw, "age"), Cell(raw, "sex"),
                     medicalHistory, medications, Cell(raw, "allergies"), vitals,
                     complaint.s, note.s, gold);
      example := RowToExample(row);
      assert example == ExampleOf(rules, json, raw);
    }

    /** The two checks on the finished example: the leak scan over its serialisation and the blank-instruction test. */
    method Scan(example: Example) returns (leak: bool, blankInstruction: bool)
      requires Agrees()
      ensures leak == leaks(example) && blankInstruction == blank(example)
    {
      leak := LeakFound(Serialize(example));
      blankInstruction := Strip(example.instruction) == [];
      assert leak == PhiFound(example);
      assert blankInstruction == EmptyInstruction(example);
    }

    /** One iteration of the loop: each counter moves by at most one and one example is appended. */
    method ProcessRow(raw: RawRow)
      requires Valid() && Agrees()
      modifies this
      ensures Valid()
      ensures rows == old(rows) + [raw]
      ensures processed == old(processed) + [convert(raw)]
      ensures missingDemographics == old(missingDemographics) + (if MissingDemographics(raw) then 1 else 0)
      ensures phiFoundAfterDeid == old(phiFoundAfterDeid) + (if leaks(convert(raw)) then 1 else 0)
      ensures emptyInstruction == old(emptyInstruction) + (if blank(convert(raw)) then 1 else 0)
    {
      var example := ConvertRow(raw);
      var leak, blankInstruction := Scan(example);
      Tally(raw, example, leak, blankInstruction);
    }

    /** The counter updates and the append of one iteration, given the row's example and scan results. */
    method Tally(raw: RawRow, example: Example, leak: bool, blankInstruction: bool)
      requires Valid()
      requires example == convert(raw) && leak == leaks(example) && blankInstruction == blank(example)
      modifies this
      ensures Valid()
      ensures rows == old(rows) + [raw]
      ensures processed == old(processed) + [example]
      ensures missingDemographics == old(missingDemographics) + (if MissingDemographics(raw) then 1 else 0)
      ensures phiFoundAfterDeid == old(phiFoundAfterDeid) + (if leak then 1 else 0)
      ensures emptyInstruction == old(emptyInstruction) + (if blankInstruction then 1 else 0)
    {
      MapSeqSnoc(rows, raw, convert);
      CountSnoc(rows, raw, MissingDemographics);
      CountSnoc(processed, example, leaks);
      CountSnoc(processed, example, blank);
      assert MissingDemographics(raw) <==> !Truthy(Cell(raw, "age")) || !Truthy(Cell(raw, "sex"));
      if !Truthy(Cell(raw, "age")) || !Truthy(Cell(raw, "sex")) {
        missingDemographics := missingDemographics + 1;
      }
      if leak {
        phiFoundAfterDeid := phiFoundAfterDeid + 1;
      }
      if blankInstruction {
        emptyInstruction := emptyInstruction + 1;
      }
      processed := processed + [example];
      rows := rows + [raw];
    }

    /** The whole loop over the table's rows. */
    method ProcessAll(table: seq<RawRow>)
      requires Valid() && Agrees()
      modifies this
      ensures Valid()
      ensures rows == old(rows) + table
    {
      for i := 0 to |table|
        invariant Valid()
        invariant rows == old(rows) + table[..i]
      {
        ProcessRow(table[i]);
        assert table[..i + 1] == table[..i] + [table[i]];
      }
      assert table[..|table|] == table;
    }
  }

  /**
   * What the loop state means in terms of the rows read: `processed` holds their
   * examples, each counter counts its condition over them, and the
   * `empty_instruction` counter is zero.
   */
  lemma ConverterState(c: Converter)
    requires c.Valid() && c.Agrees()
    ensures c.processed == Examples(c.rules, c.json, c.rows)
    ensures |c.processed| == |c.rows|
    ensures c.missingDemographics == Count(c.rows, MissingDemographics)
    ensures c.phiFoundAfterDeid == Count(Examples(c.rules, c.json, c.rows), PhiFound)
    ensures c.emptyInstruction == 0
  {
    AgreeingExamples(c.rules, c.json, c.convert, c.rows);
    ExamplesLength(c.rules, c.json, c.rows);
    CountAgree(c.processed, c.leaks, PhiFound);
    CountAgree(c.processed, c.blank, EmptyInstruction);
    NoEmptyInstruction(c.rules, c.json, c.rows);
  }

  /** Exactly one example per row, example `k` being the example of row `k`. */
  lemma ExamplesAt(rules: seq<Rule>, json: string -> Option<Dict>, rows: seq<RawRow>, k: nat)
    requires k < |rows|
    ensures |Examples(rules, json, rows)| == |rows|
    ensures Examples(rules, json, rows)[k] == ExampleOf(rules, json, rows[k])
  {
    MapSeqAt(rows, raw => ExampleOf(rules, json, raw), k);
  }

  /** Mapping any function that agrees with the row conversion gives the examples. */
  lemma AgreeingExamples(rules: seq<Rule>, json: string -> Option<Dict>, convert: RawRow -> Example, rows: seq<RawRow>)
    requires forall raw {:trigger ExampleOf(rules, json, raw)} :: convert(raw) == ExampleOf(rules, json, raw)
    ensures MapSeq(rows, convert) == Examples(rules, json, rows)
  {
    var a, b := MapSeq(rows, convert), Examples(rules, json, rows);
    MapSeqLength(rows, convert);
    ExamplesLength(rules, json, rows);
    forall k | 0 <= k < |rows| ensures a[k] == b[k] {
      MapSeqAt(rows, convert, k);
      ExamplesAt(rules, json, rows, k);
    }
  }

  lemma ExamplesLength(rules: seq<Rule>, json: string -> Option<Dict>, rows: seq<RawRow>)
    ensures |Examples(rules, json, rows)| == |rows|
  {
    MapSeqLength(rows, raw => ExampleOf(rules, json, raw));
  }

  /** No example has a blank instruction, so the `empty_instruction` counter stays at zero. */
  lemma {:induction false} NoEmptyInstruction(rules: seq<Rule>, json: string -> Option<Dict>, rows: seq<RawRow>)
    ensures Count(Examples(rules, json, rows), EmptyInstruction) == 0
  {
    var exs := Examples(rules, json, rows);
    ExamplesLength(rules, json, rows);
    forall k | 0 <= k < |exs| ensures !EmptyInstruction(exs[k]) {
      ExamplesAt(rules, json, rows, k);
      ExampleInstruction(NormalizeRow(rules, json, rows[k]));
    }
    CountBounds(exs, EmptyInstruction);
  }

  /** The normalised row's list columns have no empty items and its free text is cleaned up. */
  lemma NormalizedRowShape(rules: seq<Rule>, json: string -> Option<Dict>, raw: RawRow)
    ensures var row := NormalizeRow(rules, json, raw);
      && (forall m :: 0 <= m < |row.medicalHistory| ==> row.medicalHistory[m] != "")
      && (forall m :: 0 <= m < |row.medications| ==> row.medications[m] != "")
      && DistinctKeys(row.vitals)
      && Trimmed(row.presentingComplaint) && NoDoubleSpace(row.presentingComplaint)
      && Trimmed(row.clinicianNote) && NoDoubleSpace(row.clinicianNote)
  {
    NormalizeListShape(CellOr(raw, "medical_history", ""));
    NormalizeListShape(CellOr(raw, "medications", ""));
    NormalizeShape(Cascade(rules, CellOr(raw, "presenting_complaint", "")));
    NormalizeShape(Cascade(rules, CellOr(raw, "clinician_note", "")));
    VitalsDistinct(Str(CellOr(raw, "vitals", "")), json);
  }
}
