/**
 * `build_instruction_prompt`: one line per present field, in a fixed order,
 * then the fixed instruction text and the response marker.
 */
module Prompts {
  import opened Wrappers
  import opened Strings
  import opened Selection
  import opened Fields
  import opened Records

  // The fixed instruction text, sentence by sentence.
  const Role: string := "You are a clinic pre-screening assistant. "
  const Review: string := "Review the patient information below. "
  const Ask: string := "Ask any clarifying questions needed and produce a structured preliminary assessment for nurse review. "
  const Limits: string := "Do NOT provide a definitive diagnosis or prescribe medications. "
  const EndWith: string := "Always end with: '"
  const Disclaimer: string := "[This is a preliminary assessment \U{2014} requires clinician review]"
  const Stop: string := "'.\n\n"

  /** The fixed instruction text, the sentences in order. */
  const Preamble: string := Role + (Review + (Ask + (Limits + (EndWith + (Disclaimer + Stop)))))

  /** What follows the instruction: a blank line and the response marker. */
  const Closing: string := "\n\nResponse:\n"

  // ---------------------------------------------------------------------------
  // Python's repr of a str, used by the f-string of a list

  function HexDigit(n: nat): char
    requires n < 16
  {
    if n < 10 then ('0' as int + n) as char else ('a' as int + n - 10) as char
  }

  function HexValue(c: char): nat {
    if '0' <= c <= '9' then c as int - '0' as int
    else if 'a' <= c <= 'f' then c as int - 'a' as int + 10
    else 0
  }

  predicate IsHexDigit(c: char) {
    ('0' <= c <= '9') || ('a' <= c <= 'f')
  }

  /** Characters `repr` writes as `\xhh`: the C0 and C1 controls, DEL, no-break space and soft hyphen. */
  predicate HexEscaped(c: char) {
    c < ' ' || ('\U{7f}' <= c <= '\U{a0}') || c == '\U{ad}'
  }

  /** How `repr` writes one character inside quotes `q`. */
  function EscapeChar(c: char, q: char): string {
    if c == q || c == '\\' then ['\\', c]
    else if c == '\t' then "\\t"
    else if c == '\n' then "\\n"
    else if c == '\r' then "\\r"
    else if HexEscaped(c) then ['\\', 'x', HexDigit(c as int / 16), HexDigit(c as int % 16)]
    else [c]
  }

  function EscapeAll(s: string, q: char): string {
    if s == [] then [] else EscapeChar(s[0], q) + EscapeAll(s[1..], q)
  }

  /** Single quotes, unless the text holds a single quote and no double quote. */
  function QuoteFor(s: string): char {
    if '\'' in s && '"' !in s then '"' else '\''
  }

  /** `repr(s)`. */
  function Repr(s: string): string {
    var q := QuoteFor(s);
    [q] + EscapeAll(s, q) + [q]
  }

  /** Reads one escaped body back; the inverse of `EscapeAll`. */
  function Unescape(t: string): string
    decreases |t|
  {
    if t == [] then []
    else if t[0] != '\\' || |t| < 2 then [t[0]] + Unescape(t[1..])
    else if t[1] == 't' then "\t" + Unescape(t[2..])
    else if t[1] == 'n' then "\n" + Unescape(t[2..])
    else if t[1] == 'r' then "\r" + Unescape(t[2..])
    else if t[1] == 'x' && |t| >= 4 then [(16 * HexValue(t[2]) + HexValue(t[3])) as char] + Unescape(t[4..])
    else [t[1]] + Unescape(t[2..])
  }

  lemma HexRoundTrip(c: char)
    requires HexEscaped(c)
    ensures (16 * HexValue(HexDigit(c as int / 16)) + HexValue(HexDigit(c as int % 16))) as char == c
  {
  }

  lemma UnescapeChar(c: char, q: char, rest: string)
    requires q == '\'' || q == '"'
    ensures Unescape(EscapeChar(c, q) + rest) == [c] + Unescape(rest)
  {
    var e := EscapeChar(c, q);
    if HexEscaped(c) && !(c == q || c == '\\' || c == '\t' || c == '\n' || c == '\r') {
      HexRoundTrip(c);
      assert (e + rest)[4..] == rest;
    } else if |e| == 2 {
      assert (e + rest)[2..] == rest;
    } else {
      assert (e + rest)[1..] == rest;
    }
  }

  /** Escaping is undone by unescaping: `repr` loses nothing. */
  lemma {:induction false} EscapeRoundTrip(s: string, q: char)
    requires q == '\'' || q == '"'
    ensures Unescape(EscapeAll(s, q)) == s
  {
    if s != [] {
      UnescapeChar(s[0], q, EscapeAll(s[1..], q));
      EscapeRoundTrip(s[1..], q);
    }
  }

  lemma EscapeCharQuote(c: char, q: char, k: nat)
    requires q == '\'' || q == '"'
    requires k < |EscapeChar(c, q)| && EscapeChar(c, q)[k] == q
    ensures k == 1 && EscapeChar(c, q)[0] == '\\'
  {
  }

  /** Every occurrence of `q` in `t` directly follows a backslash. */
  predicate QuotesEscaped(t: string, q: char) {
    forall k :: 0 <= k < |t| && t[k] == q ==> k > 0 && t[k - 1] == '\\'
  }

  /** Inside the quotes, the quote character only ever follows a backslash. */
  lemma {:induction false} EscapedQuotes(s: string, q: char)
    requires q == '\'' || q == '"'
    ensures QuotesEscaped(EscapeAll(s, q), q)
  {
    if s != [] {
      EscapedQuotes(s[1..], q);
      var e, t := EscapeChar(s[0], q), EscapeAll(s[1..], q);
      assert EscapeAll(s, q) == e + t;
      forall k | 0 <= k < |e + t| && (e + t)[k] == q ensures k > 0 && (e + t)[k - 1] == '\\' {
        if k < |e| {
          assert e[k] == q;
          EscapeCharQuote(s[0], q, k);
          assert (e + t)[k - 1] == e[k - 1] == '\\';
        } else {
          assert t[k - |e|] == q;
          assert (e + t)[k - 1] == t[k - |e| - 1];
        }
      }
    }
  }

  /** `repr` round trip: the text between the quotes reads back as the original string. */
  lemma ReprRoundTrip(s: string)
    ensures var r := Repr(s);
      && |r| >= 2 && r[0] == r[|r| - 1] == QuoteFor(s)
      && Unescape(r[1..|r| - 1]) == s
  {
    var q := QuoteFor(s);
    assert Repr(s)[1..|Repr(s)| - 1] == EscapeAll(s, q);
    EscapeRoundTrip(s, q);
  }

  /** `f"{xs}"` for a list of strings: Python's list repr. */
  function ListRepr(xs: seq<string>): string {
    "[" + Join(seq(|xs|, m requires 0 <= m < |xs| => Repr(xs[m])), ", ") + "]"
  }

  /** `"; ".join([f"{k}: {v}" for k, v in vitals.items()])`. */
  function VitalsText(d: Dict): string {
    Join(seq(|d|, m requires 0 <= m < |d| => d[m].0 + ": " + d[m].1), "; ")
  }

  // ---------------------------------------------------------------------------
  // The prompt

  /** The candidate lines, in prompt order, each flagged by whether its field is truthy. */
  function PromptSlots(row: Row): seq<(bool, string)> {
    [ (Truthy(row.age), "Age: " + Text(row.age)),
      (Truthy(row.sex), "Sex: " + Text(row.sex)),
      (row.medicalHistory != [], "Medical history: " + ListRepr(row.medicalHistory)),
      (row.medications != [], "Medications: " + ListRepr(row.medications)),
      (Truthy(row.allergies), "Allergies: " + Text(row.allergies)),
      (row.vitals != [], "Vitals: " + VitalsText(row.vitals)),
      (row.presentingComplaint != "", "Presenting complaint: " + row.presentingComplaint),
      (row.clinicianNote != "", "Clinician note: " + row.clinicianNote) ]
  }

  /** The lines of the truthy fields, each field contributing at most one line. */
  function PromptLines(row: Row): seq<string> {
    Keep(PromptSlots(row))
  }

  /** The instruction text `row_to_example` stores. */
  function Prompt(row: Row): string {
    Join(PromptLines(row), "\n") + "\n\n" + Preamble + Closing
  }

  /** `if present: parts.append(text)`. */
  method AppendIf(parts: seq<string>, present: bool, text: string) returns (r: seq<string>)
    ensures r == parts + When(present, text)
    ensures |r| == |parts| + (if present then 1 else 0)
  {
    r := parts;
    if present {
      r := r + [text];
    }
  }

  /** `build_instruction_prompt`: the line of each truthy field in turn, then the fixed text. */
  method BuildInstructionPrompt(row: Row) returns (prompt: string)
    ensures prompt == Prompt(row)
  {
    var parts: seq<string> := [];
    parts := AppendIf(parts, Truthy(row.age), "Age: " + Text(row.age));
    assert parts == When(Truthy(row.age), "Age: " + Text(row.age));
    parts := AppendIf(parts, Truthy(row.sex), "Sex: " + Text(row.sex));
    parts := AppendIf(parts, row.medicalHistory != [], "Medical history: " + ListRepr(row.medicalHistory));
    parts := AppendIf(parts, row.medications != [], "Medications: " + ListRepr(row.medications));
    parts := AppendIf(parts, Truthy(row.allergies), "Allergies: " + Text(row.allergies));
    parts := AppendIf(parts, row.vitals != [], "Vitals: " + VitalsText(row.vitals));
    parts := AppendIf(parts, row.presentingComplaint != "", "Presenting complaint: " + row.presentingComplaint);
    parts := AppendIf(parts, row.clinicianNote != "", "Clinician note: " + row.clinicianNote);
    KeepEight(PromptSlots(row));
    var instruction := Preamble;
    prompt := Join(parts, "\n") + "\n\n" + instruction + Closing;
  }

  /** `Keep` of eight slots, written out. */
  lemma KeepEight<T>(slots: seq<(bool, T)>)
    requires |slots| == 8
    ensures Keep(slots) ==
      When(slots[0].0, slots[0].1) + When(slots[1].0, slots[1].1) + When(slots[2].0, slots[2].1)
      + When(slots[3].0, slots[3].1) + When(slots[4].0, slots[4].1) + When(slots[5].0, slots[5].1)
      + When(slots[6].0, slots[6].1) + When(slots[7].0, slots[7].1)
  {
    var s1 := [slots[0]];
    assert Keep(s1) == When(slots[0].0, slots[0].1);
    var s2 := s1 + [slots[1]];
    KeepSnoc(s1, slots[1]);
    var s3 := s2 + [slots[2]];
    KeepSnoc(s2, slots[2]);
    var s4 := s3 + [slots[3]];
    KeepSnoc(s3, slots[3]);
    var s5 := s4 + [slots[4]];
    KeepSnoc(s4, slots[4]);
    var s6 := s5 + [slots[5]];
    KeepSnoc(s5, slots[5]);
    var s7 := s6 + [slots[6]];
    KeepSnoc(s6, slots[6]);
    var s8 := s7 + [slots[7]];
    KeepSnoc(s7, slots[7]);
    assert s8 == slots;
  }

  /**
   * The prompt's lines are exactly the lines of the truthy fields, once each and
   * in the fixed order age, sex, history, medications, allergies, vitals,
   * complaint, note.
   */
  lemma PromptLinesSpec(row: Row)
    ensures var slots, lines, idx := PromptSlots(row), PromptLines(row), KeptPositions(PromptSlots(row));
      && |idx| == |lines|
      && Increasing(idx)
      && (forall m :: 0 <= m < |idx| ==> idx[m] < 8 && slots[idx[m]].0 && lines[m] == slots[idx[m]].1)
      && (forall k :: 0 <= k < 8 && slots[k].0 ==> k in idx)
  {
    KeepSpec(PromptSlots(row));
  }

  /** A de-identified clinician note reaches the prompt as its own line, after every other present field. */
  lemma NoteIsLastLine(row: Row)
    requires row.clinicianNote != ""
    ensures var lines := PromptLines(row);
      lines != [] && lines[|lines| - 1] == "Clinician note: " + row.clinicianNote
  {
    KeepEight(PromptSlots(row));
  }

  /** With no field present the prompt is the fixed text alone. */
  lemma EmptyRowPrompt(row: Row)
    requires !Truthy(row.age) && !Truthy(row.sex) && !Truthy(row.allergies)
    requires row.medicalHistory == [] && row.medications == [] && row.vitals == []
    requires row.presentingComplaint == "" && row.clinicianNote == ""
    ensures Prompt(row) == "\n\n" + Preamble + Closing
  {
    assert PromptLines(row) == [] by {
      var slots := PromptSlots(row);
      KeepEight(slots);
      assert forall k :: 0 <= k < 8 ==> !slots[k].0;
    }
    assert Join(PromptLines(row), "\n") == [];
  }

  /** Whatever precedes it, text ending with the response marker is not blank. */
  lemma ClosingNotBlank(x: string)
    ensures var p := x + Closing;
      && p[|x|..] == Closing
      && Strip(p) != []
  {
    var p := x + Closing;
    assert p[|x| + 2] == 'R';
    StripNonBlank(p, |x| + 2);
  }

  /**
   * Every prompt ends with the response marker, so it is never blank: the
   * `empty_instruction` check can never fire.
   */
  lemma PromptNotBlank(row: Row)
    ensures var p := Prompt(row);
      && |p| >= |Closing| && p[|p| - |Closing|..] == Closing
      && Strip(p) != []
  {
    var x := Join(PromptLines(row), "\n") + "\n\n" + Preamble;
    ClosingNotBlank(x);
  }

  /** In a right-nested concatenation of seven parts, the fourth and the sixth sit after the parts before them. */
  lemma NestedParts(a: string, b: string, c: string, d: string, e: string, f: string, g: string)
    ensures OccursAt(d, a + (b + (c + (d + (e + (f + g))))), |a| + |b| + |c|)
    ensures OccursAt(f, a + (b + (c + (d + (e + (f + g))))), |a| + |b| + |c| + |d| + |e|)
  {
    var r5 := f + g;
    var r4 := e + r5;
    var r3 := d + r4;
    var r2 := c + r3;
    var r1 := b + r2;
    OccursPrefix(d, r4);
    OccursShift(d, r3, 0, c);
    OccursShift(d, r2, |c|, b);
    OccursShift(d, r1, |b| + |c|, a);
    OccursPrefix(f, g);
    OccursShift(f, r5, 0, e);
    OccursShift(f, r4, |e|, d);
    OccursShift(f, r3, |d| + |e|, c);
    OccursShift(f, r2, |c| + |d| + |e|, b);
    OccursShift(f, r1, |b| + |c| + |d| + |e|, a);
  }

  /** Where the no-diagnosis sentence and the disclaimer start in the fixed text. */
  const LimitsAt: nat := |Role| + |Review| + |Ask|
  const DisclaimerAt: nat := |Role| + |Review| + |Ask| + |Limits| + |EndWith|

  /** The no-diagnosis sentence and the disclaimer sit inside the fixed text, at fixed offsets. */
  lemma PreambleParts()
    ensures OccursAt(Limits, Preamble, LimitsAt)
    ensures OccursAt(Disclaimer, Preamble, DisclaimerAt)
  {
    NestedParts(Role, Review, Ask, Limits, EndWith, Disclaimer, Stop);
  }

  /** Where the fixed text starts in the prompt: after the field lines and a blank line. */
  function PreambleAt(row: Row): nat {
    |Join(PromptLines(row), "\n")| + 2
  }

  /** Every prompt carries the whole fixed text after the field lines. */
  lemma PromptCarriesPreamble(row: Row)
    ensures OccursAt(Preamble, Prompt(row), PreambleAt(row))
  {
    OccursPrefix(Preamble, []);
    Framed(Join(PromptLines(row), "\n"), "\n\n", Preamble, Closing, 0, Preamble);
  }

  /** Every prompt carries the sentence forbidding a diagnosis or a prescription. */
  lemma PromptForbidsDiagnosis(row: Row)
    ensures OccursAt(Limits, Prompt(row), PreambleAt(row) + LimitsAt)
  {
    PreambleParts();
    Framed(Join(PromptLines(row), "\n"), "\n\n", Preamble, Closing, LimitsAt, Limits);
  }

  /** Every prompt carries the disclaimer the answer must end with. */
  lemma PromptAsksDisclaimer(row: Row)
    ensures OccursAt(Disclaimer, Prompt(row), PreambleAt(row) + DisclaimerAt)
  {
    PreambleParts();
    Framed(Join(PromptLines(row), "\n"), "\n\n", Preamble, Closing, DisclaimerAt, Disclaimer);
  }
}
