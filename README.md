# Clinic dataset conversion, modelled in Dafny

This project models the conversion notebook
`Medical-AI/clinic_dataset_conversion_notebook_v_1.py`. The notebook turns
clinic EHR rows into instruction–response training examples:

- it checks the CSV's columns;
- it normalises each row: the two semicolon lists, the vitals cell, and the
  de-identified free-text complaint and note;
- it builds the instruction prompt and assembles the example dictionary;
- it audits every example with three quality counters;
- it draws an inspection sample, a review sample and a validation sample
  from one seeded generator.

The modules follow the notebook's parts:

| module | file | models |
|---|---|---|
| `Wrappers`, `Strings` | `strings.dfy` | `Option`/`Result`; `str.isspace`, `strip`, `split`, `join` |
| `Regex` | `regex.dfy` | a backtracking matcher with Python's priority order; `re.search` and `re.sub` |
| `Masking` | `masking.dfy` | why a fixed-width rule such as the ISO-date one leaves no match of itself behind |
| `Redactor` | `redactor.dfy` | the seven PHI rules, `WHITELIST_NAMES`, `deidentify_text` |
| `Selection` | `selection.dfy` | list comprehensions with an `if`, counting, mapping |
| `Fields` | `fields.dfy` | the list columns and `parse_vitals`, over insertion-ordered dicts |
| `Records` | `records.dfy` | the raw CSV row and the normalised row |
| `Prompts` | `prompt.dfy` | `build_instruction_prompt`, including Python's `repr` of a list of strings |
| `Assembler` | `assembler.dfy` | `row_to_example` |
| `Audit` | `audit.dfy` | the serialised example and the SSN/ISO-date leak scan |
| `Converter` | `converter.dfy` | the Cell 5 loop, as a class holding `processed` and the counters |
| `Sampler` | `sampler.dfy` | the sample sizes and `random.sample` over an injected random stream |
| `Pipeline` | `pipeline.dfy` | the schema check, the report and the three draws, in notebook order |

The code's shape is kept:

- Pure parts are functions with lemmas.
- `deidentify_text`, `parse_vitals` and `build_instruction_prompt` are methods
  with the source's loops or step-by-step appends. Each is proved equal to a
  specification function.
- The Cell 5 loop is the class `Converter.Converter`. Its invariant `Valid()`
  states that:
  - `processed` is the list of examples of the rows seen so far;
  - each counter is the number of those rows or examples that meet its
    condition.

The three ghost constants of the class and its predicate `Agrees()` bind the
conversion, the leak scan and the blank-instruction test to their
specification functions. They are a proof device only; the notebook has no
such state.

`P` below stands for `Medical-AI/clinic_dataset_conversion_notebook_v_1.py`.

The seven patterns are the constants `Redactor.NamePattern`,
`Redactor.DatePattern`, `Redactor.IsoDatePattern`, `Redactor.PhonePattern`,
`Redactor.MrnPattern`, `Redactor.EmailPattern` and `Redactor.UrlPattern`
(P:40-46), each built from the matcher's constructors. The rule table is the
constant `Redactor.PhiPatterns` (P:49-57). Constants have no contract, so the
table below states their meaning through `Redactor.DeidentifyOrder`,
`Redactor.IsoRuleMasks` and the `Regex` and `Masking` lemmas.

## Model

| member | source | states |
|---|---|---|
| Strings.Strip | Medical-AI/clinic_dataset_conversion_notebook_v_1.py:75 | `str.strip()`: the result has no whitespace at either end; it is empty exactly when the input is all whitespace; otherwise it is the input slice that starts after the leading whitespace and is followed only by whitespace |
| Strings.StripTrimmed | Medical-AI/clinic_dataset_conversion_notebook_v_1.py:83 | stripping text that is already trimmed changes nothing |
| Strings.StripKeepsNoDoubleSpace | Medical-AI/clinic_dataset_conversion_notebook_v_1.py:75 | stripping never creates two adjacent whitespace characters |
| Strings.StripKeepsNonSpace | Medical-AI/clinic_dataset_conversion_notebook_v_1.py:93 | a non-whitespace character survives `strip` (so a piece holding `:` still holds it after stripping) |
| Strings.StripNonBlank | Medical-AI/clinic_dataset_conversion_notebook_v_1.py:230 | text with a non-whitespace character strips to a non-empty string |
| Strings.StripMember | Medical-AI/clinic_dataset_conversion_notebook_v_1.py:190 | `strip` adds no character |
| Strings.StripPadded | Medical-AI/clinic_dataset_conversion_notebook_v_1.py:93 | whitespace in front of a trimmed, non-empty string is exactly what `strip` removes |
| Strings.IndexOf | Medical-AI/clinic_dataset_conversion_notebook_v_1.py:96 | the position of the first occurrence of a character |
| Strings.Split | Medical-AI/clinic_dataset_conversion_notebook_v_1.py:93 | `str.split(c)`: at least one piece; no piece holds `c`; joining the pieces with `c` gives the input back |
| Strings.SplitJoin | Medical-AI/clinic_dataset_conversion_notebook_v_1.py:190 | splitting undoes joining, for pieces without the separator |
| Strings.SplitFirst | Medical-AI/clinic_dataset_conversion_notebook_v_1.py:93 | splitting at the first separator gives the text before it, then the split of the rest |
| Strings.JoinHasSep | Medical-AI/clinic_dataset_conversion_notebook_v_1.py:189 | joining two or more pieces puts the separator in |
| Strings.JoinTrimmed | Medical-AI/clinic_dataset_conversion_notebook_v_1.py:83 | a join of non-empty trimmed parts is trimmed |
| Strings.JoinPadded | Medical-AI/clinic_dataset_conversion_notebook_v_1.py:93 | joining with `;` plus padding is joining the padded pieces with `;` alone |
| Strings.Join | Medical-AI/clinic_dataset_conversion_notebook_v_1.py:123 | `sep.join(parts)`; `Strings.SplitJoin`, `Strings.JoinHasSep`, `Strings.JoinTrimmed`, `Strings.JoinPadded` and `Audit.JoinOccurs` state its properties |
| Strings.JoinEnds | Medical-AI/clinic_dataset_conversion_notebook_v_1.py:138 | a join of non-empty parts starts with the first part's first character and ends with the last part's last |
| Strings.StripKeepsVisible | Medical-AI/clinic_dataset_conversion_notebook_v_1.py:75 | `strip` keeps every non-whitespace character, in order |
| Strings.IsSpace | Medical-AI/clinic_dataset_conversion_notebook_v_1.py:75 | the characters `str.isspace()` and the `\s` of a `str` pattern treat as whitespace; `Strings.Strip`, `Strings.StripTrimmed` and `Redactor.WhitespaceFirst` state what `strip` and `\s+` do with them |
| Regex.Ends | Medical-AI/clinic_dataset_conversion_notebook_v_1.py:40-46 | every end of a match that starts at `i` lies between `i` plus the pattern's minimum length and the end of the text |
| Regex.RunEnd | Medical-AI/clinic_dataset_conversion_notebook_v_1.py:75 | the end of the longest run of class characters from `i`: every character before it is in the class, the one at it is not |
| Regex.ManyTakesRun | Medical-AI/clinic_dataset_conversion_notebook_v_1.py:40-46 | a greedy class repetition matches exactly when the run is long enough; its preferred end is the end of the run |
| Regex.FirstEnd | Medical-AI/clinic_dataset_conversion_notebook_v_1.py:73 | the match `re` commits to ends within bounds, at least the minimum length after its start |
| Regex.SearchFromIff | Medical-AI/clinic_dataset_conversion_notebook_v_1.py:227 | scanning from `i` succeeds exactly when some position from `i` starts a match |
| Regex.SearchIff | Medical-AI/clinic_dataset_conversion_notebook_v_1.py:227 | `re.search` succeeds exactly when some position of the text starts a match |
| Regex.Search | Medical-AI/clinic_dataset_conversion_notebook_v_1.py:227 | `re.search(r, s)`: some position from the start on begins a match; `Regex.SearchIff` states it |
| Regex.FirstEndsAhead | Medical-AI/clinic_dataset_conversion_notebook_v_1.py:73 | every match a pattern that cannot match the empty string reports ends after its start and inside the text, so the scan of `re.sub` always moves forward |
| Regex.Replace | Medical-AI/clinic_dataset_conversion_notebook_v_1.py:73 | the scan of `re.sub` given the match reported at each position; `Regex.SubFromStep`, `Regex.SubFromSkip` and `Regex.SubFromFirstMatch` state what it does |
| Regex.SubFrom | Medical-AI/clinic_dataset_conversion_notebook_v_1.py:73 | `re.sub` from position `i`: the scan over the table of leftmost matches |
| Regex.Sub | Medical-AI/clinic_dataset_conversion_notebook_v_1.py:73 | `patt.sub(repl, out)` |
| Regex.SubFromStep | Medical-AI/clinic_dataset_conversion_notebook_v_1.py:73 | one step of `re.sub`: where a match starts the tag is written and the scan resumes where the match ends; elsewhere the character is copied |
| Regex.SubFromSkip | Medical-AI/clinic_dataset_conversion_notebook_v_1.py:73 | positions where no match starts are copied through unchanged, as one block |
| Regex.SubFromFirstMatch | Medical-AI/clinic_dataset_conversion_notebook_v_1.py:73 | the leftmost match is replaced: the text before it is copied, then the tag, and the scan resumes at the end of the match `re` reports, which is its first candidate end |
| Regex.SubFromNoMatch | Medical-AI/clinic_dataset_conversion_notebook_v_1.py:73 | `re.sub` returns the text unchanged where no position starts a match |
| Regex.SeqMinLen | Medical-AI/clinic_dataset_conversion_notebook_v_1.py:40-46 | a concatenation is at least as long as any of its parts, so none of the seven rules matches the empty string |
| Regex.FixedBodyEnds | Medical-AI/clinic_dataset_conversion_notebook_v_1.py:42 | a digit-and-dash shape matches at `i` exactly when the text fits the shape there, ending `|shape|` later |
| Regex.FixedEnds | Medical-AI/clinic_dataset_conversion_notebook_v_1.py:42 | `\b<shape>\b` matches at `i` exactly when both word boundaries hold and the shape fits; the match then has the shape's length |
| Masking.FixedTable | Medical-AI/clinic_dataset_conversion_notebook_v_1.py:42 | the match table of `\b<shape>\b`: a match exactly where a bounded span of the shape starts, ending `|shape|` later |
| Masking.CopyPrefix | Medical-AI/clinic_dataset_conversion_notebook_v_1.py:73 | output that starts with characters fitting the shape, where the tag's first character fits no position, is input copied unchanged |
| Masking.AfterMatch | Medical-AI/clinic_dataset_conversion_notebook_v_1.py:42 | where a bounded span ends in a digit, what `re.sub` writes next cannot start the shape |
| Masking.NoLeftStart | Medical-AI/clinic_dataset_conversion_notebook_v_1.py:73 | a span at the very start of what the scan writes from `i`, bounded on its right, is an unmatched span of the input, so a word character precedes `i` |
| Masking.NoInnerMatch | Medical-AI/clinic_dataset_conversion_notebook_v_1.py:73 | past its first character, what the scan writes from any position holds no bounded span of the shape |
| Masking.ReplaceMasks | Medical-AI/clinic_dataset_conversion_notebook_v_1.py:73 | the whole output holds no bounded span of the shape at any position |
| Masking.SubMasks | Medical-AI/clinic_dataset_conversion_notebook_v_1.py:73 | after `re.sub(r"\b<shape>\b", tag, s)` with a tag none of whose characters fits the shape, no position starts a match, `re.search` finds none, and a second substitution changes nothing |
| Redactor.CollapseFrom | Medical-AI/clinic_dataset_conversion_notebook_v_1.py:75 | `re.sub(r"\s+", " ", ...)` leaves no two adjacent whitespace characters and only plain spaces; it starts with whitespace exactly when its input does |
| Redactor.WhitespaceFirst | Medical-AI/clinic_dataset_conversion_notebook_v_1.py:75 | `\s+` matches at `i` exactly when `s[i]` is whitespace, and then takes the whole run |
| Redactor.CollapseStep | Medical-AI/clinic_dataset_conversion_notebook_v_1.py:75 | one step of `re.sub(r"\s+", " ", ...)`: a whitespace run becomes one space and the scan resumes after it; any other character is copied |
| Redactor.CollapseKeepsVisible | Medical-AI/clinic_dataset_conversion_notebook_v_1.py:75 | `re.sub(r"\s+", " ", ...)` keeps every non-whitespace character, in order |
| Redactor.Normalize | Medical-AI/clinic_dataset_conversion_notebook_v_1.py:75 | `re.sub(r"\s+", " ", out).strip()`; `Redactor.NormalizeShape` and `Redactor.NormalizeKeepsVisible` state its properties |
| Redactor.NormalizeKeepsVisible | Medical-AI/clinic_dataset_conversion_notebook_v_1.py:75 | the clean-up only touches whitespace: every other character survives, in order |
| Redactor.NormalizeShape | Medical-AI/clinic_dataset_conversion_notebook_v_1.py:75 | after the clean-up the text is trimmed, has no whitespace run and holds only plain spaces |
| Redactor.ConsShape | Medical-AI/clinic_dataset_conversion_notebook_v_1.py:75 | a character put in front of collapsed text keeps it collapsed unless it is whitespace meeting whitespace |
| Redactor.StripKeepsPlain | Medical-AI/clinic_dataset_conversion_notebook_v_1.py:75 | `strip` keeps the property that every whitespace character is a plain space |
| Redactor.Cascade | Medical-AI/clinic_dataset_conversion_notebook_v_1.py:72-73 | the rule loop, each rule rewriting the output of the rules before it; `Redactor.CascadeSnoc` states it |
| Redactor.CascadeSnoc | Medical-AI/clinic_dataset_conversion_notebook_v_1.py:72-73 | the next rule of the table rewrites the output of the rules before it |
| Redactor.CascadeSeven | Medical-AI/clinic_dataset_conversion_notebook_v_1.py:72-73 | a seven-rule table applies its first rule first and its seventh last |
| Redactor.DeidentifyOrder | Medical-AI/clinic_dataset_conversion_notebook_v_1.py:49-57 | `deidentify_text` on a string applies NAME, ISO date, date, phone, e-mail, URL and MRN in that order, each to the previous output, then the clean-up |
| Redactor.IsoRuleMasks | Medical-AI/clinic_dataset_conversion_notebook_v_1.py:51 | the ISO-date rule leaves no ISO date behind: searching its output again finds nothing, and a second pass changes nothing |
| Redactor.Deidentify | Medical-AI/clinic_dataset_conversion_notebook_v_1.py:67-76 | `deidentify_text` on a string with the notebook's rule table; `Redactor.DeidentifyOrder` states it |
| Redactor.DeidentifyText | Medical-AI/clinic_dataset_conversion_notebook_v_1.py:67-76 | a non-string comes back unchanged; a string goes through every rule in table order and then the clean-up; the result is trimmed and has no whitespace run |
| Selection.KeepSpec | Medical-AI/clinic_dataset_conversion_notebook_v_1.py:190 | a comprehension with an `if` keeps exactly the flagged values, each once, in their original order |
| Selection.KeepEverything | Medical-AI/clinic_dataset_conversion_notebook_v_1.py:190 | when every slot is flagged, every value is kept |
| Selection.KeepMember | Medical-AI/clinic_dataset_conversion_notebook_v_1.py:172 | a value is kept exactly when some flagged slot carries it |
| Selection.KeepAll | Medical-AI/clinic_dataset_conversion_notebook_v_1.py:190 | kept values satisfy whatever every flagged value satisfies |
| Selection.CountBounds | Medical-AI/clinic_dataset_conversion_notebook_v_1.py:178-182 | a counter bumped once per matching element is at most the number of elements, zero exactly when none matches, and the full length exactly when all match |
| Selection.Keep | Medical-AI/clinic_dataset_conversion_notebook_v_1.py:190 | a comprehension with an `if` over flagged slots; `Selection.KeepSpec`, `Selection.KeepMember` and `Selection.KeepAll` state it |
| Selection.Count | Medical-AI/clinic_dataset_conversion_notebook_v_1.py:215-216 | a counter bumped once per matching element; `Selection.CountBounds` states it |
| Selection.MapSeq | Medical-AI/clinic_dataset_conversion_notebook_v_1.py:184-233 | one result per element, in order, as the loop appending to `processed` builds; `Selection.MapSeqAt` states it |
| Fields.ItemSlotsShape | Medical-AI/clinic_dataset_conversion_notebook_v_1.py:190 | each kept list piece is non-empty, trimmed and free of `;` |
| Fields.NormalizeListShape | Medical-AI/clinic_dataset_conversion_notebook_v_1.py:188-199 | a normalised list never holds an empty, untrimmed or `;`-holding item; without `;` it is `[stripped]`, or `[]` when the cell is blank |
| Fields.NormalizeListPieces | Medical-AI/clinic_dataset_conversion_notebook_v_1.py:189-191 | with `;`, the list is every non-blank stripped piece between the separators, once each, in cell order |
| Fields.NormalizeListJoin | Medical-AI/clinic_dataset_conversion_notebook_v_1.py:188-199 | items joined by `;` normalise back to the same items |
| Fields.NormalizeList | Medical-AI/clinic_dataset_conversion_notebook_v_1.py:188-199 | the list-column normalisation; `Fields.NormalizeListShape`, `Fields.NormalizeListPieces` and `Fields.NormalizeListJoin` state its properties |
| Fields.HistoryCellExample | Medical-AI/clinic_dataset_conversion_notebook_v_1.py:188-191 | `"diabetes;hypertension"` becomes `["diabetes", "hypertension"]` |
| Fields.Find | Medical-AI/clinic_dataset_conversion_notebook_v_1.py:97 | dict lookup: the first position holding the key, or none exactly when no position does |
| Fields.UpdateOthers | Medical-AI/clinic_dataset_conversion_notebook_v_1.py:97 | overwriting a present key changes that key only |
| Fields.AppendOthers | Medical-AI/clinic_dataset_conversion_notebook_v_1.py:97 | appending an absent key changes that key only |
| Fields.PutGet | Medical-AI/clinic_dataset_conversion_notebook_v_1.py:97 | after `out[k] = v`, `k` maps to `v` and every other key keeps its value |
| Fields.PutShape | Medical-AI/clinic_dataset_conversion_notebook_v_1.py:97 | insertion order: an existing key keeps its place, a new key goes last, and no key repeats |
| Fields.FromPairsDistinct | Medical-AI/clinic_dataset_conversion_notebook_v_1.py:89 | a dict built by inserting pairs never repeats a key |
| Fields.FromPairsMissing | Medical-AI/clinic_dataset_conversion_notebook_v_1.py:94-97 | a key is absent exactly when no pair carries it |
| Fields.FromPairsGet | Medical-AI/clinic_dataset_conversion_notebook_v_1.py:94-97 | a key maps to the value of its last pair: later duplicates overwrite earlier ones |
| Fields.FromPairsDistinctKeys | Medical-AI/clinic_dataset_conversion_notebook_v_1.py:89 | pairs with distinct keys are rebuilt unchanged, in order |
| Fields.ColonSegments | Medical-AI/clinic_dataset_conversion_notebook_v_1.py:93 | every kept segment holds a colon |
| Fields.SplitPair | Medical-AI/clinic_dataset_conversion_notebook_v_1.py:96-97 | the split is at the first colon, so the key holds no colon |
| Fields.EntryShape | Medical-AI/clinic_dataset_conversion_notebook_v_1.py:96-97 | `key:value` splits back into the same key and value |
| Fields.EntriesShape | Medical-AI/clinic_dataset_conversion_notebook_v_1.py:93-97 | written pairs read back as the same pairs |
| Fields.ColonSegmentsOfJoin | Medical-AI/clinic_dataset_conversion_notebook_v_1.py:93 | trimmed segments holding a colon, joined by `;` and optional whitespace, are all kept unchanged |
| Fields.PaddedPieces | Medical-AI/clinic_dataset_conversion_notebook_v_1.py:93 | each padded piece still has a colon and no `;`, and stripping it gives back the original piece |
| Fields.VitalsDistinct | Medical-AI/clinic_dataset_conversion_notebook_v_1.py:79-98 | the parsed vitals never repeat a key |
| Fields.VitalsOf | Medical-AI/clinic_dataset_conversion_notebook_v_1.py:79-98 | `parse_vitals` as a value; `Fields.ParseVitals` computes it with the source's loop, and `Fields.VitalsDistinct` and `Fields.VitalsJoin` state its properties |
| Fields.ParseVitals | Medical-AI/clinic_dataset_conversion_notebook_v_1.py:79-98 | the loop builds the specified dict; a non-string gives `{}`; a JSON object gives its items; otherwise each `key:value` segment is inserted in turn; no key repeats |
| Fields.VitalsJoin | Medical-AI/clinic_dataset_conversion_notebook_v_1.py:93-97 | a non-JSON cell of `key:value` pairs joined by `;` and optional whitespace parses back to the pairs inserted in order, which is the pairs themselves when their keys differ |
| Fields.VitalsCellExample | Medical-AI/clinic_dataset_conversion_notebook_v_1.py:79-98 | `"bp:120/80; hr:72"` gives `{bp: "120/80", hr: "72"}` |
| Fields.BlankVitalsExample | Medical-AI/clinic_dataset_conversion_notebook_v_1.py:83-98 | a blank cell gives `{}` |
| Fields.ItemSlots | Medical-AI/clinic_dataset_conversion_notebook_v_1.py:190 | each `;` piece stripped and flagged by whether it is non-blank; `Fields.ItemSlotsShape` and `Fields.ItemSlotsOfItems` state it |
| Fields.Get | Medical-AI/clinic_dataset_conversion_notebook_v_1.py:94-97 | `d.get(k)` on an insertion-ordered dict; `Fields.PutGet` and `Fields.FromPairsGet` state what it returns after insertions |
| Fields.Put | Medical-AI/clinic_dataset_conversion_notebook_v_1.py:97 | `out[k.strip()] = v.strip()`: overwrite in place or append; `Fields.PutGet` and `Fields.PutShape` state it |
| Fields.FromPairs | Medical-AI/clinic_dataset_conversion_notebook_v_1.py:94-97 | the dict built by inserting the pairs in order; `Fields.FromPairsDistinct`, `Fields.FromPairsMissing`, `Fields.FromPairsGet` and `Fields.FromPairsDistinctKeys` state it |
| Fields.PairsOf | Medical-AI/clinic_dataset_conversion_notebook_v_1.py:95-96 | `p.split(':', 1)` on each kept segment, both halves stripped; `Fields.EntriesShape` states that it reads written pairs back |
| Records.Cell | Medical-AI/clinic_dataset_conversion_notebook_v_1.py:105 | `row.get(col)`: the cell when the column is present, else `None`; `Records.CellDefault` states it |
| Records.CellOr | Medical-AI/clinic_dataset_conversion_notebook_v_1.py:188 | `row.get(col, default)`; `Records.CellDefault` states it |
| Records.Truthy | Medical-AI/clinic_dataset_conversion_notebook_v_1.py:107 | Python truthiness of a cell; `Records.CellDefault` states it |
| Records.CellDefault | Medical-AI/clinic_dataset_conversion_notebook_v_1.py:188 | `row.get(col, default)` is `row.get(col)` with the default for `None`; a cell is truthy exactly when its column is present and non-empty, and then both reads give its text |
| Prompts.HexRoundTrip | Medical-AI/clinic_dataset_conversion_notebook_v_1.py:114 | a `\xhh` escape written by `repr` reads back as the same character |
| Prompts.EscapeRoundTrip | Medical-AI/clinic_dataset_conversion_notebook_v_1.py:114 | escaping a list item as `repr` does loses nothing: unescaping returns it |
| Prompts.EscapedQuotes | Medical-AI/clinic_dataset_conversion_notebook_v_1.py:114 | inside the quotes, the quote character only ever follows a backslash |
| Prompts.ReprRoundTrip | Medical-AI/clinic_dataset_conversion_notebook_v_1.py:117 | `repr(s)` is quoted with the quote `repr` chooses, and its body reads back as `s` |
| Prompts.Repr | Medical-AI/clinic_dataset_conversion_notebook_v_1.py:114 | `repr` of a string; `Prompts.ReprRoundTrip` states it |
| Prompts.ListRepr | Medical-AI/clinic_dataset_conversion_notebook_v_1.py:114 | the `{mh}` of a list: `[` then each item's `repr` joined by `, ` then `]` |
| Prompts.VitalsText | Medical-AI/clinic_dataset_conversion_notebook_v_1.py:123 | `"; ".join([f"{k}: {v}" ...])` over the dict in insertion order |
| Prompts.AppendIf | Medical-AI/clinic_dataset_conversion_notebook_v_1.py:107-110 | `if present: parts.append(text)` adds the text exactly when present |
| Prompts.BuildInstructionPrompt | Medical-AI/clinic_dataset_conversion_notebook_v_1.py:101-140 | the step-by-step appends build the specified prompt |
| Prompts.Prompt | Medical-AI/clinic_dataset_conversion_notebook_v_1.py:101-140 | the prompt as a value; `Prompts.BuildInstructionPrompt` computes it with the appends, and the `Prompts` lemmas state its properties |
| Prompts.PromptLinesSpec | Medical-AI/clinic_dataset_conversion_notebook_v_1.py:103-131 | a line is emitted for every truthy field and only for those, in the order age, sex, history, medications, allergies, vitals, complaint, note |
| Prompts.NoteIsLastLine | Medical-AI/clinic_dataset_conversion_notebook_v_1.py:128-130 | with a note present, the last line is `Clinician note: <note>` |
| Prompts.EmptyRowPrompt | Medical-AI/clinic_dataset_conversion_notebook_v_1.py:103-139 | a row with no truthy field gives a blank line, the fixed text and the response marker |
| Prompts.ClosingNotBlank | Medical-AI/clinic_dataset_conversion_notebook_v_1.py:138-139 | any text followed by the response marker ends with it and is not blank |
| Prompts.PromptNotBlank | Medical-AI/clinic_dataset_conversion_notebook_v_1.py:138-140 | every prompt ends with `\n\nResponse:\n` and strips to a non-empty string |
| Prompts.PreambleParts | Medical-AI/clinic_dataset_conversion_notebook_v_1.py:132-137 | the fixed text holds the no-diagnosis sentence and the disclaimer, at fixed offsets |
| Prompts.PromptCarriesPreamble | Medical-AI/clinic_dataset_conversion_notebook_v_1.py:138 | every prompt carries the whole fixed text right after the field lines and a blank line |
| Prompts.PromptForbidsDiagnosis | Medical-AI/clinic_dataset_conversion_notebook_v_1.py:135 | every prompt carries "Do NOT provide a definitive diagnosis or prescribe medications." |
| Prompts.PromptAsksDisclaimer | Medical-AI/clinic_dataset_conversion_notebook_v_1.py:135-136 | every prompt carries the disclaimer the answer must end with |
| Prompts.EscapeChar | Medical-AI/clinic_dataset_conversion_notebook_v_1.py:114 | how `repr` writes one character inside its quotes; `Prompts.EscapeRoundTrip`, `Prompts.HexRoundTrip` and `Prompts.EscapedQuotes` state that unescaping undoes it and that the quote only appears escaped |
| Prompts.QuoteFor | Medical-AI/clinic_dataset_conversion_notebook_v_1.py:114 | `repr`'s quote choice: single quotes unless the text has a single quote and no double quote; `Prompts.ReprRoundTrip` states that `repr` opens and closes with it |
| Prompts.PromptSlots | Medical-AI/clinic_dataset_conversion_notebook_v_1.py:103-130 | the eight candidate lines in prompt order, each flagged by whether its field is truthy; `Prompts.PromptLinesSpec` states it |
| Prompts.PromptLines | Medical-AI/clinic_dataset_conversion_notebook_v_1.py:103-130 | the `parts` list: the lines of the truthy fields; `Prompts.PromptLinesSpec`, `Prompts.NoteIsLastLine` and `Prompts.EmptyRowPrompt` state it |
| Assembler.ExampleDefaults | Medical-AI/clinic_dataset_conversion_notebook_v_1.py:145-159 | `anonymized` is always true; a missing id gives `''`; a missing `_source` gives `'clinic'`, a present one is copied |
| Assembler.ExampleInstruction | Medical-AI/clinic_dataset_conversion_notebook_v_1.py:157 | the instruction is the row's prompt, ends with the response marker and is never blank |
| Assembler.NoteOnlyInInstruction | Medical-AI/clinic_dataset_conversion_notebook_v_1.py:145-160 | the clinician note has no field of its own; it reaches the example only through the instruction |
| Assembler.ExampleCopiesRow | Medical-AI/clinic_dataset_conversion_notebook_v_1.py:146-158 | the other fields are copied unchanged: apart from the note, the example determines the row |
| Assembler.RowToExample | Medical-AI/clinic_dataset_conversion_notebook_v_1.py:143-161 | `row_to_example`; the `Assembler` lemmas above state its properties |
| Audit.SearchFixedIff | Medical-AI/clinic_dataset_conversion_notebook_v_1.py:227 | searching a bounded fixed shape succeeds exactly when some position starts such a span |
| Audit.LeakFound | Medical-AI/clinic_dataset_conversion_notebook_v_1.py:227 | `re.search(ssn, serialized) or re.search(iso, serialized)`; `Audit.LeakFoundIff` states it |
| Audit.LeakFoundIff | Medical-AI/clinic_dataset_conversion_notebook_v_1.py:227 | the scan fires exactly when the text has an SSN-shaped `ddd-dd-dddd` or an ISO `dddd-dd-dd` span with word boundaries |
| Audit.NoDigitNoLeak | Medical-AI/clinic_dataset_conversion_notebook_v_1.py:227 | text without digits never fires the scan |
| Audit.JoinOccurs | Medical-AI/clinic_dataset_conversion_notebook_v_1.py:226 | each part of a join occurs in it at its computed offset |
| Audit.JsonEscape | Medical-AI/clinic_dataset_conversion_notebook_v_1.py:226 | `json.dumps` with `ensure_ascii`: a character is written as itself exactly when it is printable ASCII other than the quote and the backslash, and every other writing starts with a backslash; a printable character's writing ends with the character, and any other ends in a letter or digit of its escape |
| Audit.KeyQuoted | Medical-AI/clinic_dataset_conversion_notebook_v_1.py:145-159 | the dictionary keys are written as themselves between quotes |
| Audit.Serialize | Medical-AI/clinic_dataset_conversion_notebook_v_1.py:226 | `json.dumps(example)`: the members in key order, separated by `, `, with `: ` after each key |
| Audit.SpanBetween | Medical-AI/clinic_dataset_conversion_notebook_v_1.py:226-227 | a bounded span written between two pieces, the whole between quotes, stays bounded when the pieces' neighbouring characters have the same word status as the span's neighbours |
| Audit.SpanWritten | Medical-AI/clinic_dataset_conversion_notebook_v_1.py:226-227 | in a string written character by character between quotes, a span written as itself stays bounded when the writing keeps the word status of its neighbours |
| Audit.ShapeInQuoted | Medical-AI/clinic_dataset_conversion_notebook_v_1.py:226-227 | a bounded digit-and-dash span of a string stays a bounded span of the escaped, quoted string in the whole text when the character before it is printable ASCII (quotes and backslashes are not word characters, and an escape after the span starts with a backslash) |
| Audit.EscapedBeforeSpan | Medical-AI/clinic_dataset_conversion_notebook_v_1.py:226-227 | the other case: when the character before a word character is written as an escape (a control or a non-ASCII character), the escape ends in a letter or digit, so the serialised text has no word boundary where the string had one |
| Audit.BoundaryHidden | Medical-AI/clinic_dataset_conversion_notebook_v_1.py:226-227 | a word character written after a writing that ends in a word character has no word boundary before it |
| Audit.LeakInQuoted | Medical-AI/clinic_dataset_conversion_notebook_v_1.py:226-227 | a leak in a string whose preceding character is printable is a leak of the whole text at the escaped offset |
| Audit.LeakAtFound | Medical-AI/clinic_dataset_conversion_notebook_v_1.py:227 | a span at some position fires the scan |
| Audit.ValueInMember | Medical-AI/clinic_dataset_conversion_notebook_v_1.py:226 | the value of a `key: value` member sits after the key and `": "` |
| Audit.MemberValueOccurs | Medical-AI/clinic_dataset_conversion_notebook_v_1.py:226 | the value of member `k` occurs in the serialised object at its offset |
| Audit.MemberLeakAt | Medical-AI/clinic_dataset_conversion_notebook_v_1.py:226-227 | a leak inside a quoted member value, after a printable character, is a leak of the serialised object, at a position the lemma returns |
| Audit.QuotedMemberLeak | Medical-AI/clinic_dataset_conversion_notebook_v_1.py:226-227 | a leak in a string member, after a printable character, fires the scan on the whole object |
| Audit.FieldLeakFlagged | Medical-AI/clinic_dataset_conversion_notebook_v_1.py:226-228 | an SSN or ISO date in the id, source, complaint, instruction or response is flagged when the character before it is printable ASCII; it covers only these five plain string fields, and `Audit.HeldLeakFlagged` extends it to every string the example holds |
| Audit.TextFieldMember | Medical-AI/clinic_dataset_conversion_notebook_v_1.py:145-158 | each plain string field of the example is written as the member `"name": "value"` at its position in key order |
| Audit.Quoted | Medical-AI/clinic_dataset_conversion_notebook_v_1.py:226 | a JSON string as `json.dumps` writes it; `Audit.KeyQuoted`, `Audit.ShapeInQuoted` and `Audit.LeakInQuoted` state it |
| Audit.Key | Medical-AI/clinic_dataset_conversion_notebook_v_1.py:226 | a key of the example dictionary; `Audit.KeyQuoted` states it is the key's quoted string |
| Audit.Member | Medical-AI/clinic_dataset_conversion_notebook_v_1.py:226 | a `"key": value` member; `Audit.ValueInMember` and `Audit.KeyInMember` state where its parts sit |
| Audit.OptJson | Medical-AI/clinic_dataset_conversion_notebook_v_1.py:226 | `null` or the quoted string; `Audit.AllergiesMember` and `Audit.InDemographics` use it |
| Audit.ListJson | Medical-AI/clinic_dataset_conversion_notebook_v_1.py:226 | a JSON array of strings; `Audit.InList` states where each item sits |
| Audit.DictJson | Medical-AI/clinic_dataset_conversion_notebook_v_1.py:226 | a JSON object of string pairs; `Audit.InDict` states where each key and value sits |
| Audit.DemographicsJson | Medical-AI/clinic_dataset_conversion_notebook_v_1.py:226 | the nested `demographics` object; `Audit.InDemographics` states where age and sex sit |
| Audit.Members | Medical-AI/clinic_dataset_conversion_notebook_v_1.py:226 | the top-level members in key order; `Audit.TextFieldMember`, `Audit.NestedMembers` and `Audit.AllergiesMember` state them |
| Audit.InMember | Medical-AI/clinic_dataset_conversion_notebook_v_1.py:226 | a piece of a member's value occurs in the serialised example |
| Audit.KeyInMember | Medical-AI/clinic_dataset_conversion_notebook_v_1.py:226 | a member starts with its key |
| Audit.InEntry | Medical-AI/clinic_dataset_conversion_notebook_v_1.py:226 | the key and the value of a member each occur in it |
| Audit.InBracketed | Medical-AI/clinic_dataset_conversion_notebook_v_1.py:226 | part `k` of a bracketed, comma-joined list sits after the bracket at its join offset |
| Audit.InPair | Medical-AI/clinic_dataset_conversion_notebook_v_1.py:226 | a piece of either half of a two-member object sits inside the braces |
| Audit.InDemographics | Medical-AI/clinic_dataset_conversion_notebook_v_1.py:226 | a present age or sex is written quoted inside the demographics object |
| Audit.InList | Medical-AI/clinic_dataset_conversion_notebook_v_1.py:226 | every list item is written quoted inside the list |
| Audit.InDict | Medical-AI/clinic_dataset_conversion_notebook_v_1.py:226 | every vitals key and value is written quoted inside the vitals object |
| Audit.NestedMembers | Medical-AI/clinic_dataset_conversion_notebook_v_1.py:226 | the example has eleven members; the demographics, the two lists and the vitals are members 2, 3, 4 and 6 |
| Audit.AllergiesMember | Medical-AI/clinic_dataset_conversion_notebook_v_1.py:226 | `allergies` is member 5 |
| Audit.FieldQuoted | Medical-AI/clinic_dataset_conversion_notebook_v_1.py:226 | each plain string field is written quoted into the serialisation |
| Audit.HeldQuoted | Medical-AI/clinic_dataset_conversion_notebook_v_1.py:226 | every string the example holds (plain fields, age, sex, list items, allergies, vitals keys and values) is written quoted into the serialisation |
| Audit.HeldLeakFlagged | Medical-AI/clinic_dataset_conversion_notebook_v_1.py:226-228 | an SSN or ISO date in any string the example holds, the unredacted allergies, demographics, list items and vitals included, fires the scan when the character before it is printable ASCII |
| Converter.Converter.constructor | Medical-AI/clinic_dataset_conversion_notebook_v_1.py:177-182 | `processed` starts empty and the three counters start at 0 |
| Converter.NormalizeRow | Medical-AI/clinic_dataset_conversion_notebook_v_1.py:185-221 | the loop body's normalisation as a value: both list columns, the vitals, the de-identified complaint and note, and the gold default |
| Converter.ExampleOf | Medical-AI/clinic_dataset_conversion_notebook_v_1.py:185-223 | the example of one raw row; `Converter.Converter.ConvertRow` computes it step by step |
| Converter.Converter.ConvertRow | Medical-AI/clinic_dataset_conversion_notebook_v_1.py:185-223 | the loop body's normalisation, de-identification, gold default and assembly produce the specified example of the row |
| Converter.Converter.Scan | Medical-AI/clinic_dataset_conversion_notebook_v_1.py:226-231 | the two checks compute the leak scan and the blank-instruction test |
| Converter.Converter.Tally | Medical-AI/clinic_dataset_conversion_notebook_v_1.py:215-233 | each counter goes up by one exactly when its condition holds; the example is appended; `Valid()` is kept |
| Converter.Converter.ProcessRow | Medical-AI/clinic_dataset_conversion_notebook_v_1.py:184-233 | one row: one example appended, and each counter goes up by one exactly when its condition holds |
| Converter.Converter.ProcessAll | Medical-AI/clinic_dataset_conversion_notebook_v_1.py:184-233 | the loop over the table keeps `Valid()` and sees every row in order |
| Converter.ConverterState | Medical-AI/clinic_dataset_conversion_notebook_v_1.py:177-233 | the state is the examples of the rows seen; `missing_demographics` counts rows lacking age or sex; `phi_found_after_deid` counts flagged examples; `empty_instruction` is 0 |
| Converter.ExamplesAt | Medical-AI/clinic_dataset_conversion_notebook_v_1.py:223-233 | example `k` is the conversion of row `k` |
| Converter.ExamplesLength | Medical-AI/clinic_dataset_conversion_notebook_v_1.py:233 | one example per row |
| Converter.NoEmptyInstruction | Medical-AI/clinic_dataset_conversion_notebook_v_1.py:230-231 | no example has a blank instruction, so `empty_instruction` is never incremented |
| Converter.NormalizedRowShape | Medical-AI/clinic_dataset_conversion_notebook_v_1.py:188-212 | normalised lists hold no empty item, vitals repeat no key, and the complaint and the note are trimmed with no whitespace run |
| Converter.Examples | Medical-AI/clinic_dataset_conversion_notebook_v_1.py:177-233 | the `processed` list: one example per row, in row order; `Converter.ExamplesAt`, `Converter.ExamplesLength` and `Converter.ConverterState` state it |
| Converter.MissingDemographics | Medical-AI/clinic_dataset_conversion_notebook_v_1.py:215 | `not row.get('age') or not row.get('sex')`; `Converter.ConverterState` states that `missing_demographics` counts it over the rows |
| Converter.PhiFound | Medical-AI/clinic_dataset_conversion_notebook_v_1.py:226-227 | the leak scan of the serialised example; `Converter.ConverterState` states that `phi_found_after_deid` counts it, and `Audit.LeakFoundIff`, `Audit.FieldLeakFlagged` and `Audit.HeldLeakFlagged` state when it fires |
| Converter.EmptyInstruction | Medical-AI/clinic_dataset_conversion_notebook_v_1.py:230 | `not example['instruction'].strip()`; `Converter.NoEmptyInstruction` states that no example satisfies it |
| Sampler.InspectionSize | Medical-AI/clinic_dataset_conversion_notebook_v_1.py:244 | `min(10, n)`: at most `n` and at most 10, and one of the two |
| Sampler.ValidationSize | Medical-AI/clinic_dataset_conversion_notebook_v_1.py:273 | between 10 and 100; at most `n` exactly when `n >= 10`; 10 below 200 examples, `n / 20` up to 2019, 100 from 2020 |
| Sampler.DrawMembers | Medical-AI/clinic_dataset_conversion_notebook_v_1.py:246 | every drawn value is an element of the population |
| Sampler.DrawSize | Medical-AI/clinic_dataset_conversion_notebook_v_1.py:246 | a draw without replacement takes at most as many values as the population has |
| Sampler.Random.Below | Medical-AI/clinic_dataset_conversion_notebook_v_1.py:246 | one draw: below the bound, taken from the next stream element |
| Sampler.Random.Sample | Medical-AI/clinic_dataset_conversion_notebook_v_1.py:246 | `random.sample`: it fails, drawing nothing, exactly when `k` is outside `0..n`; otherwise it takes `k` draws and returns the values at the positions `Sampler.PoolPositions` gives for the stream from where the generator stood, which are distinct positions of the population |
| Sampler.Random.PoolDraw | Medical-AI/clinic_dataset_conversion_notebook_v_1.py:246 | one round of the pool method: exactly one draw, and the pool and the result move from the state after `i` draws to the state after `i + 1` |
| Sampler.FullPool | Medical-AI/clinic_dataset_conversion_notebook_v_1.py:246 | the pool before the first draw: the positions `0 .. n - 1` in order |
| Sampler.PoolAfter | Medical-AI/clinic_dataset_conversion_notebook_v_1.py:246 | the pool after `i` draws keeps length `n`: draw `d` is reduced below `n - d`, and the last pooled position moves into the place of the one drawn |
| Sampler.PoolPositions | Medical-AI/clinic_dataset_conversion_notebook_v_1.py:246 | the `k` positions the pool method picks from the stream elements `from .. from + k - 1`: one per draw |
| Sampler.PoolStep | Medical-AI/clinic_dataset_conversion_notebook_v_1.py:246 | one draw more: the new pool is the old one with the drawn place refilled from the end, and the new position is appended |
| Sampler.PoolDistinct | Medical-AI/clinic_dataset_conversion_notebook_v_1.py:246 | after `i` draws every pooled and drawn position is below `n`, the positions still pooled are distinct, no drawn position is still pooled, and the drawn positions are distinct |
| Sampler.Pooled | Medical-AI/clinic_dataset_conversion_notebook_v_1.py:246 | the state of `random.sample`'s loop after `i` draws: the pool and the result hold the population's elements at `PoolAfter` and `PoolPositions` |
| Sampler.PooledStep | Medical-AI/clinic_dataset_conversion_notebook_v_1.py:246 | a draw with the bound `n - i` from the next stream element keeps `Pooled` for `i + 1` draws |
| Sampler.PooledDraw | Medical-AI/clinic_dataset_conversion_notebook_v_1.py:246 | once the loop ends, its result is a draw at the positions `PoolPositions` gives |
| Sampler.PowerOfFourBounds | Medical-AI/clinic_dataset_conversion_notebook_v_1.py:246 | the least power of 4 at or above `x` lies in `x .. 4x - 1` |
| Sampler.SetSize | Medical-AI/clinic_dataset_conversion_notebook_v_1.py:246 | CPython's pool-or-set threshold in `random.sample`; `Sampler.PoolMethodRange` states it for the notebook's sizes |
| Sampler.PoolMethodRange | Medical-AI/clinic_dataset_conversion_notebook_v_1.py:244-274 | all three draws use the pool method exactly when there are at most 85 examples |
| Pipeline.MissingColumnsSpec | Medical-AI/clinic_dataset_conversion_notebook_v_1.py:172 | a column is reported missing exactly when it is expected and absent |
| Pipeline.MissingColumns | Medical-AI/clinic_dataset_conversion_notebook_v_1.py:172 | the schema check; `Pipeline.MissingColumnsSpec` states it |
| Pipeline.ConvertTable | Medical-AI/clinic_dataset_conversion_notebook_v_1.py:177-253 | the examples are those of the rows; input and output counts both equal the number of rows; the counters are as in `ConverterState` |
| Pipeline.DrawSamples | Medical-AI/clinic_dataset_conversion_notebook_v_1.py:244-274 | the inspection and review draws take `min(10, n)` distinct examples; the validation draw fails exactly when `n < 10` and otherwise takes the validation size; the draws happen in that order from one generator: the inspection draw takes the positions `Sampler.PoolPositions` gives from where the generator stood, the review draw those from `min(10, n)` stream elements later (`reviewFrom`), and the validation draw those from another `min(10, n)` later (`validationFrom`); the generator moves on by the total number of draws |
| Pipeline.Run | Medical-AI/clinic_dataset_conversion_notebook_v_1.py:172-274 | the whole notebook on a loaded table: the missing columns; the examples of the rows; input and output counts equal to the number of rows; `missing_demographics` and `phi_found_after_deid` as counts over the rows and the examples; `empty_instruction` 0; the inspection and review draws of `min(10, n)` distinct examples; the validation draw failing exactly below 10 examples and otherwise of the validation size; the positions of the three draws, taken in notebook order from the stream as `Pipeline.DrawSamples` states; and the number of draws taken from the generator |

## Left out

- CSV loading with `pandas`, `fillna`, and the undefined `raw_df` when the file is missing (P:164-169). The table is passed in as a sequence of `map<string, string>` rows and a column list.
- The warning `print` for missing columns, `tqdm`, and all other `print`s (P:173-174, 235, 262-269, 278). They are output only.
- The file writes (P:238-241, 245-247, 256-258, 275-277) and the `sample_output_file` path in the report (P:254). They are I/O; the model returns the data that would be written.
- `json.loads` (P:87) is a foreign parser. It is a function parameter `string -> Option<Dict>`. `Some` is an object whose values are already `str(v)`; `None` is an exception or a value that is not a dict. `str` of non-string JSON values is therefore abstract.
- `Audit.Serialize`: CPython's JSON encoder is foreign code. The model writes the example by the encoder's default rules (key order, the `, ` and `: ` separators, `null`/`true`/`false`, and `ensure_ascii` escaping in `Audit.JsonEscape`), but does not prove byte equality with it.
- `Audit.FieldLeakFlagged`: holds only when the character before the leak is printable ASCII. After a control or a non-ASCII character the escape ends in a letter or digit and hides the left word boundary, so the scan can miss such a leak (`Audit.EscapedBeforeSpan`).
- `Audit.HeldLeakFlagged`: has the same printable-ASCII condition as `Audit.FieldLeakFlagged`, for the same reason.
- `\d`, `\w` and `\b` are ASCII in the model; Python's `str` patterns also match non-ASCII digits and letters. `\s` and `str.strip` use the full `str.isspace` set.
- `Prompts.EscapeChar`: `repr` is exact for ASCII, for the C1 controls and for the no-break and soft-hyphen characters. Other non-printable characters above U+00FF, which `repr` writes as `\uXXXX`, are kept as they are.
- `Sampler.Random.Below`: the Mersenne Twister behind `random.seed(42)` and the rejection sampling in `_randbelow` are not modelled. Each draw takes the next element of an injected stream and reduces it below the bound. For the pool method the model keeps the number, order and bounds of the calls, not their values.
- `Sampler.Random.Sample`: only CPython's pool method is modelled. CPython switches to its set method when `n > SetSize(k)`; `Sampler.PoolMethodRange` proves that for the notebook's three draws this happens exactly from 86 examples on. The set method calls `_randbelow(n)` and retries a repeated position, so it makes at least `k` calls, all with bound `n`. The draw count and the positions `PoolPositions` (bounds `n - i`, the drawn place refilled from the end of the pool) in `Sample`'s contract are the pool method's. The set method also draws `k` distinct positions, but by a different sequence of calls, which is not modelled.
- `Pipeline.DrawSamples`: the positions and the `rng.consumed` counts it states hold for the pool method only, so only for tables of at most 85 examples.
- `Pipeline.Run`: the positions of the draws and the number of generator draws it states hold for the pool method only, so only for tables of at most 85 examples.
- `Sampler.ValidationSize`: the float product `int(len(processed) * 0.05)` (P:273) is taken as `n / 20`.
- The coarse name check at P:208-211 ends in `pass`, so it has no effect and is not modelled.
- The list `['presenting_complaint', 'clinician_note']` at P:205 is iterated by applying the same de-identification to the two fields in turn inside `Converter.Converter.ConvertRow`.
- The rule table is a parameter of the converter. `Redactor.PhiPatterns` is the notebook's table and `Redactor.Deidentify` uses it.
- Two statements are modelled by their evident intent:
  - The prompt literal at P:138-139 runs across a physical line break, so it is not valid Python as written. It is modelled as `"\n".join(parts) + "\n\n" + instruction + "\n" + "\nResponse:\n"`.
  - The comment at P:71 says MRNs are masked first, but the table puts MRN last (P:56). The table's order is kept.
- `WHITELIST_NAMES` (P:60) is declared and never consulted; `Redactor.WhitelistNames` is kept as unused configuration.
- `Medical-AI/demo_7_b_end_to_end_local.py` (GPU fine-tuning and inference) and `OpenClaw/mybot/extract_design_playwright.py` (browser automation) are not part of this model.
