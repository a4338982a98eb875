/**
 * The post-redaction leak scan: the example is serialised and searched for an
 * SSN-shaped `\b\d{3}-\d{2}-\d{4}\b` or an ISO-date `\b\d{4}-\d{2}-\d{2}\b` span.
 */
module Audit {
  import opened Wrappers
  import opened Strings
  import opened Regex
  import opened Fields
  import opened Prompts
  import opened Assembler

  // ---------------------------------------------------------------------------
  // The serialised example

  /** Printable ASCII, the range `json.dumps` with `ensure_ascii` may write unescaped. */
  predicate Printable(c: char) {
    ' ' <= c <= '~'
  }

  /** Characters `json.dumps` writes as themselves: printable ASCII except the quote and the backslash. */
  predicate JsonPlain(c: char) {
    Printable(c) && c != '"' && c != '\\'
  }

  /** Four lower-case hex digits. */
  function Hex4(n: nat): string
    requires n < 0x1_0000
  {
    [HexDigit(n / 0x1000), HexDigit(n / 0x100 % 16), HexDigit(n / 16 % 16), HexDigit(n % 16)]
  }

  /**
   * How `json.dumps` (with the default `ensure_ascii=True`) writes one character
   * of a string: the quote and the backslash behind a backslash, five controls
   * by their short escapes, every other character outside printable ASCII as
   * `\uhhhh`, and above U+FFFF as a surrogate pair.
   */
  function JsonEscape(c: char): (e: string)
    ensures e != [] && (e == [c] <==> JsonPlain(c))
    ensures e[0] == if JsonPlain(c) then c else '\\'
    ensures Printable(c) ==> e[|e| - 1] == c
    ensures !Printable(c) ==> IsWordChar(e[|e| - 1])
  {
    if JsonPlain(c) then [c]
    else if c == '"' || c == '\\' then ['\\', c]
    else if c == '\U{8}' then "\\b"
    else if c == '\U{c}' then "\\f"
    else if c == '\n' then "\\n"
    else if c == '\r' then "\\r"
    else if c == '\t' then "\\t"
    else if c as int < 0x1_0000 then "\\u" + Hex4(c as int)
    else
      var v := c as int - 0x1_0000;
      "\\u" + Hex4(0xD800 + v / 0x400) + "\\u" + Hex4(0xDC00 + v % 0x400)
  }

  /** The escaped body of a JSON string. */
  function JsonText(s: string): string {
    ConcatMap(s, JsonEscape)
  }

  /** A JSON string: the escaped text between double quotes. */
  function Quoted(s: string): string {
    "\"" + JsonText(s) + "\""
  }

  /** A key of the example dictionary: a fixed identifier between double quotes. */
  function Key(name: string): string {
    "\"" + name + "\""
  }

  /** The keys are identifiers `json.dumps` writes as themselves, so a key is its quoted string. */
  lemma KeyQuoted(name: string)
    requires forall k :: 0 <= k < |name| ==> JsonPlain(name[k])
    ensures Key(name) == Quoted(name)
  {
    ConcatMapSelf(name, JsonEscape);
  }

  /** `key: value`, with the default `": "` key separator, for a key already written as a JSON string. */
  function Member(key: string, value: string): string {
    key + ": " + value
  }

  function OptJson(o: Option<string>): string {
    if o.Some? then Quoted(o.value) else "null"
  }

  function ListItems(xs: seq<string>): seq<string> {
    seq(|xs|, m requires 0 <= m < |xs| => Quoted(xs[m]))
  }

  function ListJson(xs: seq<string>): string {
    "[" + Join(ListItems(xs), ", ") + "]"
  }

  function DictEntries(d: Dict): seq<string> {
    seq(|d|, m requires 0 <= m < |d| => Member(Quoted(d[m].0), Quoted(d[m].1)))
  }

  function DictJson(d: Dict): string {
    "{" + Join(DictEntries(d), ", ") + "}"
  }

  /** The nested `demographics` object. */
  function DemographicsJson(ex: Example): string {
    "{" + Member(Key("age"), OptJson(ex.age)) + ", " + Member(Key("sex"), OptJson(ex.sex)) + "}"
  }

  /** The top-level members of `json.dumps(example)`, in the dictionary's key order. */
  function Members(ex: Example): seq<string> {
    [ Member(Key("id"), Quoted(ex.id)),
      Member(Key("source"), Quoted(ex.source)),
      Member(Key("demographics"), DemographicsJson(ex)),
      Member(Key("medical_history"), ListJson(ex.medicalHistory)),
      Member(Key("medications"), ListJson(ex.medications)),
      Member(Key("allergies"), OptJson(ex.allergies)),
      Member(Key("vitals"), DictJson(ex.vitals)),
      Member(Key("presenting_complaint"), Quoted(ex.presentingComplaint)),
      Member(Key("instruction"), Quoted(ex.instruction)),
      Member(Key("response"), Quoted(ex.response)),
      Member(Key("metadata"), "{" + Member(Key("anonymized"), if ex.anonymized then "true" else "false") + "}") ]
  }

  /** `json.dumps(example)` with the default `", "` item separator. */
  function Serialize(ex: Example): string {
    "{" + Join(Members(ex), ", ") + "}"
  }

  // ---------------------------------------------------------------------------
  // The two scan patterns

  const SsnShape: string := "ddd-dd-dddd"
  const IsoShape: string := "dddd-dd-dd"

  /** Either pattern occurs somewhere in `s`. */
  predicate LeakAt(s: string, j: nat) {
    ShapeAt(SsnShape, s, j) || ShapeAt(IsoShape, s, j)
  }

  /** `re.search(ssn, text) or re.search(iso, text)`. */
  predicate LeakFound(text: string) {
    Search(Fixed(SsnShape), text) || Search(Fixed(IsoShape), text)
  }

  lemma SearchFixedIff(shape: string, s: string)
    ensures Search(Fixed(shape), s) <==> exists j :: 0 <= j <= |s| && ShapeAt(shape, s, j)
  {
    SearchIff(Fixed(shape), s);
    forall j | 0 <= j <= |s| ensures Ends(Fixed(shape), s, j) != [] <==> ShapeAt(shape, s, j) {
      FixedEnds(shape, s, j);
    }
    if Search(Fixed(shape), s) {
      var j :| 0 <= j <= |s| && Ends(Fixed(shape), s, j) != [];
      assert ShapeAt(shape, s, j);
    }
    if exists j :: 0 <= j <= |s| && ShapeAt(shape, s, j) {
      var j :| 0 <= j <= |s| && ShapeAt(shape, s, j);
      assert Ends(Fixed(shape), s, j) != [];
    }
  }

  /** The scan fires exactly when some position of the text starts an SSN-shaped or ISO-date span. */
  lemma LeakFoundIff(text: string)
    ensures LeakFound(text) <==> exists j :: 0 <= j <= |text| && LeakAt(text, j)
  {
    SearchFixedIff(SsnShape, text);
    SearchFixedIff(IsoShape, text);
    if Search(Fixed(SsnShape), text) {
      var j :| 0 <= j <= |text| && ShapeAt(SsnShape, text, j);
      assert LeakAt(text, j);
    } else if Search(Fixed(IsoShape), text) {
      var j :| 0 <= j <= |text| && ShapeAt(IsoShape, text, j);
      assert LeakAt(text, j);
    }
  }

  /** Both shapes start with a digit, so text without digits never fires the scan. */
  lemma NoDigitNoLeak(text: string)
    requires forall k :: 0 <= k < |text| ==> !IsDigit(text[k])
    ensures !LeakFound(text)
  {
    LeakFoundIff(text);
    forall j | 0 <= j <= |text| ensures !LeakAt(text, j) {
      if j < |text| {
        assert !ShapeFits(SsnShape[0], text[j]) && !ShapeFits(IsoShape[0], text[j]);
      }
    }
  }

  // ---------------------------------------------------------------------------
  // A span inside a field is seen by the scan

  /** Where part `k` starts in the joined text. */
  function JoinOffset(parts: seq<string>, sep: string, k: nat): nat
    requires k < |parts|
  {
    if k == 0 then 0 else |parts[0]| + |sep| + JoinOffset(parts[1..], sep, k - 1)
  }

  lemma {:induction false} JoinOccurs(parts: seq<string>, sep: string, k: nat)
    requires k < |parts|
    ensures OccursAt(parts[k], Join(parts, sep), JoinOffset(parts, sep, k))
  {
    var t := Join(parts, sep);
    if k == 0 {
      if |parts| > 1 {
        assert t == parts[0] + (sep + Join(parts[1..], sep));
      }
    } else {
      var rest := Join(parts[1..], sep);
      JoinOccurs(parts[1..], sep, k - 1);
      var i := JoinOffset(parts[1..], sep, k - 1);
      var a := parts[0] + sep;
      assert t == a + rest;
      assert t[|a| + i..|a| + i + |parts[k]|] == rest[i..i + |parts[k]|];
    }
  }

  /** A shape of digits and printable characters that `json.dumps` writes as themselves. */
  predicate PlainShape(shape: string) {
    shape != [] && forall k :: 0 <= k < |shape| ==> shape[k] == 'd' || JsonPlain(shape[k])
  }

  lemma ShapesPlain()
    ensures PlainShape(SsnShape) && PlainShape(IsoShape)
  {
  }

  lemma OccursChar(x: string, t: string, i: nat, m: nat)
    requires OccursAt(x, t, i) && m < |x|
    ensures t[i + m] == x[m]
  {
    assert t[i..i + |x|][m] == x[m];
  }

  /** A span whose characters and neighbours' word status are carried over is still a bounded span. */
  lemma ShapeCarried(shape: string, s: string, j: nat, text: string, p: nat)
    requires ShapeAt(shape, s, j)
    requires OccursAt(s[j..j + |shape|], text, p)
    requires WordAt(text, p - 1) == WordAt(s, j - 1)
    requires WordAt(text, p + |shape|) == WordAt(s, j + |shape|)
    ensures ShapeAt(shape, text, p)
  {
    var n := |shape|;
    var y := s[j..j + n];
    forall k | 0 <= k < n ensures ShapeFits(shape[k], text[p + k]) {
      OccursChar(y, text, p, k);
    }
    if n > 0 {
      OccursChar(y, text, p, 0);
      OccursChar(y, text, p, n - 1);
    }
  }

  /** The middle piece of a quoted concatenation occurs one quote and the first piece further on. */
  lemma QuotedPiece(a: string, y: string, b: string, text: string, i: nat)
    requires OccursAt("\"" + (a + (y + b)) + "\"", text, i)
    ensures OccursAt(y, text, i + 1 + |a|)
  {
    var body := a + (y + b);
    OccursPrefix(y, b);
    OccursShift(y, y + b, 0, a);
    OccursShift(y, body, |a|, "\"");
    OccursExtend(y, "\"" + body, 1 + |a|, "\"");
    OccursWithin(y, "\"" + body + "\"", 1 + |a|, text, i);
  }

  /** The character before the middle piece is the first piece's last one, or the opening quote. */
  lemma QuotedBefore(a: string, y: string, b: string, text: string, i: nat)
    requires OccursAt("\"" + (a + (y + b)) + "\"", text, i)
    ensures WordAt(text, i + |a|) == (a != [] && IsWordChar(a[|a| - 1]))
  {
    var q := "\"" + (a + (y + b)) + "\"";
    OccursChar(q, text, i, |a|);
    assert q[|a|] == if a == [] then '"' else a[|a| - 1];
  }

  /** The character after the middle piece is the last piece's first one, or the closing quote. */
  lemma QuotedAfter(a: string, y: string, b: string, text: string, i: nat)
    requires OccursAt("\"" + (a + (y + b)) + "\"", text, i)
    ensures WordAt(text, i + 1 + |a| + |y|) == (b != [] && IsWordChar(b[0]))
  {
    var q := "\"" + (a + (y + b)) + "\"";
    OccursChar(q, text, i, 1 + |a| + |y|);
    assert q[1 + |a| + |y|] == if b == [] then '"' else b[0];
  }

  /**
   * A bounded span written between two pieces, the whole between double
   * quotes, stays bounded when the pieces end and start with characters of
   * the same word status as the span's neighbours.
   */
  lemma SpanBetween(shape: string, s: string, j: nat, a: string, b: string, text: string, i: nat)
    requires ShapeAt(shape, s, j)
    requires OccursAt("\"" + (a + (s[j..j + |shape|] + b)) + "\"", text, i)
    requires (a != [] && IsWordChar(a[|a| - 1])) == WordAt(s, j - 1)
    requires (b != [] && IsWordChar(b[0])) == WordAt(s, j + |shape|)
    ensures ShapeAt(shape, text, i + 1 + |a|)
  {
    var y := s[j..j + |shape|];
    QuotedPiece(a, y, b, text, i);
    QuotedBefore(a, y, b, text, i);
    QuotedAfter(a, y, b, text, i);
    ShapeCarried(shape, s, j, text, i + 1 + |a|);
  }

  /**
   * In a string written character by character between double quotes, a span
   * whose characters are written as themselves stays bounded, provided the
   * writing keeps the word status of the characters on either side of it.
   */
  lemma SpanWritten(shape: string, s: string, j: nat, text: string, i: nat, f: char -> string)
    requires OccursAt("\"" + ConcatMap(s, f) + "\"", text, i)
    requires ShapeAt(shape, s, j)
    requires forall k :: j <= k < j + |shape| ==> f(s[k]) == [s[k]]
    requires j > 0 ==> f(s[j - 1]) != [] && IsWordChar(f(s[j - 1])[|f(s[j - 1])| - 1]) == IsWordChar(s[j - 1])
    requires j + |shape| < |s| ==> f(s[j + |shape|]) != [] && IsWordChar(f(s[j + |shape|])[0]) == IsWordChar(s[j + |shape|])
    ensures ShapeAt(shape, text, i + 1 + |ConcatMap(s[..j], f)|)
  {
    var e := j + |shape|;
    var a, b := ConcatMap(s[..j], f), ConcatMap(s[e..], f);
    ConcatMapSplit(s, j, e, f);
    if j > 0 {
      ConcatMapLast(s[..j], f);
      assert s[..j][j - 1] == s[j - 1];
    } else {
      assert s[..j] == [];
    }
    if e < |s| {
      ConcatMapFirst(s[e..], f);
      assert s[e..][0] == s[e];
    } else {
      assert s[e..] == [];
    }
    SpanBetween(shape, s, j, a, b, text, i);
  }

  /**
   * A bounded span of a quoted string stays bounded in the whole text when the
   * character before it is printable: quotes and backslashes are not word
   * characters, and an escape after the span starts with a backslash.
   */
  lemma ShapeInQuoted(shape: string, s: string, j: nat, text: string, i: nat)
    requires OccursAt(Quoted(s), text, i)
    requires ShapeAt(shape, s, j) && PlainShape(shape)
    requires j == 0 || Printable(s[j - 1])
    ensures ShapeAt(shape, text, i + 1 + |JsonText(s[..j])|)
  {
    var e := j + |shape|;
    assert forall k :: j <= k < e ==> JsonEscape(s[k]) == [s[k]] by {
      forall k | j <= k < e ensures JsonEscape(s[k]) == [s[k]] {
        assert ShapeFits(shape[k - j], s[k]);
      }
    }
    assert j > 0 ==> JsonEscape(s[j - 1]) != [] && IsWordChar(JsonEscape(s[j - 1])[|JsonEscape(s[j - 1])| - 1]) == IsWordChar(s[j - 1]) by {
      if j > 0 {
        var w := JsonEscape(s[j - 1]);
        assert w[|w| - 1] == s[j - 1];
      }
    }
    assert e < |s| ==> JsonEscape(s[e]) != [] && IsWordChar(JsonEscape(s[e])[0]) == IsWordChar(s[e]) by {
      if e < |s| {
        var w := JsonEscape(s[e]);
        assert IsWordChar(w[0]) == IsWordChar(s[e]);
      }
    }
    SpanWritten(shape, s, j, text, i, JsonEscape);
  }

  /**
   * Where the character before a word character is written as an escape (a
   * control such as a newline, or a non-ASCII letter), the escape ends in a word
   * character, so the serialised text has no word boundary in front of it.
   */
  lemma EscapedBeforeSpan(s: string, j: nat, text: string, i: nat)
    requires OccursAt(Quoted(s), text, i)
    requires 0 < j < |s| && IsWordChar(s[j]) && !Printable(s[j - 1])
    ensures !AtBoundary(text, i + 1 + |JsonText(s[..j])|)
  {
    assert JsonEscape(s[j]) == [s[j]];
    BoundaryHidden(s, j, text, i, JsonEscape);
  }

  /** A word character written after a character whose writing ends in a word character has no boundary before it. */
  lemma BoundaryHidden(s: string, j: nat, text: string, i: nat, f: char -> string)
    requires OccursAt("\"" + ConcatMap(s, f) + "\"", text, i)
    requires 0 < j < |s| && f(s[j]) == [s[j]] && IsWordChar(s[j])
    requires f(s[j - 1]) != [] && IsWordChar(f(s[j - 1])[|f(s[j - 1])| - 1])
    ensures !AtBoundary(text, i + 1 + |ConcatMap(s[..j], f)|)
  {
    var a, b := ConcatMap(s[..j], f), ConcatMap(s[j..], f);
    ConcatMapAt(s, j, f);
    ConcatMapLast(s[..j], f);
    ConcatMapFirst(s[j..], f);
    var q := "\"" + (a + b) + "\"";
    OccursChar(q, text, i, |a|);
    OccursChar(q, text, i, 1 + |a|);
    assert q[|a|] == a[|a| - 1];
    assert q[1 + |a|] == b[0];
  }

  /** A span found at a position fires the scan. */
  lemma LeakAtFound(text: string, j: nat)
    requires LeakAt(text, j)
    ensures LeakFound(text)
  {
    LeakFoundIff(text);
  }

  /** A member of the form `key: "s"` puts `s`, quoted, into the serialised object. */
  lemma QuotedMemberLeak(ms: seq<string>, k: nat, key: string, s: string, j: nat)
    requires k < |ms| && ms[k] == Member(key, Quoted(s))
    requires LeakAt(s, j)
    requires j == 0 || Printable(s[j - 1])
    ensures LeakFound("{" + Join(ms, ", ") + "}")
  {
    var i := MemberLeakAt(ms, k, key, s, j);
    LeakAtFound("{" + Join(ms, ", ") + "}", i);
  }

  /** Where a leak in a quoted member value sits in the serialised object. */
  lemma MemberLeakAt(ms: seq<string>, k: nat, key: string, s: string, j: nat) returns (i: nat)
    requires k < |ms| && ms[k] == Member(key, Quoted(s))
    requires LeakAt(s, j)
    requires j == 0 || Printable(s[j - 1])
    ensures LeakAt("{" + Join(ms, ", ") + "}", i)
  {
    var text := "{" + Join(ms, ", ") + "}";
    var o := 1 + JoinOffset(ms, ", ", k) + |key| + 2;
    MemberValueOccurs(ms, k, key, Quoted(s));
    LeakInQuoted(s, j, text, o);
    i := o + 1 + |JsonText(s[..j])|;
  }

  /** Where the value of member `k` sits in the serialised object. */
  lemma MemberValueOccurs(ms: seq<string>, k: nat, key: string, v: string)
    requires k < |ms| && ms[k] == Member(key, v)
    ensures OccursAt(v, "{" + Join(ms, ", ") + "}", 1 + JoinOffset(ms, ", ", k) + |key| + 2)
  {
    var joined := Join(ms, ", ");
    var text := "{" + joined + "}";
    var o := JoinOffset(ms, ", ", k);
    JoinOccurs(ms, ", ", k);
    assert OccursAt(joined, text, 1);
    OccursWithin(ms[k], joined, o, text, 1);
    ValueInMember(key, v);
    OccursWithin(v, ms[k], |key| + 2, text, 1 + o);
  }

  lemma ValueInMember(key: string, v: string)
    ensures OccursAt(v, Member(key, v), |key| + 2)
  {
    assert Member(key, v) == (key + ": ") + v;
  }

  lemma LeakInQuoted(s: string, j: nat, text: string, i: nat)
    requires OccursAt(Quoted(s), text, i)
    requires LeakAt(s, j)
    requires j == 0 || Printable(s[j - 1])
    ensures LeakAt(text, i + 1 + |JsonText(s[..j])|)
  {
    ShapesPlain();
    if ShapeAt(SsnShape, s, j) {
      ShapeInQuoted(SsnShape, s, j, text, i);
    } else {
      ShapeInQuoted(IsoShape, s, j, text, i);
    }
  }

  /** The plain string fields, in serialisation order, each with the member it is written in. */
  function TextFields(ex: Example): seq<(nat, string, string)> {
    [ (0, "id", ex.id),
      (1, "source", ex.source),
      (7, "presenting_complaint", ex.presentingComplaint),
      (8, "instruction", ex.instruction),
      (9, "response", ex.response) ]
  }

  /**
   * Fields other than the complaint and the note are not redacted, so an SSN or
   * ISO date left in an id, a source, the instruction or the gold response
   * fires the scan, provided the character in front of it is one `json.dumps`
   * writes as itself (see `EscapedBeforeSpan` for the other case).
   */
  lemma FieldLeakFlagged(ex: Example, f: nat, j: nat)
    requires f < |TextFields(ex)|
    requires LeakAt(TextFields(ex)[f].2, j)
    requires j == 0 || Printable(TextFields(ex)[f].2[j - 1])
    ensures LeakFound(Serialize(ex))
  {
    var (k, name, s) := TextFields(ex)[f];
    TextFieldMember(ex, f);
    QuotedMemberLeak(Members(ex), k, Key(name), s, j);
  }

  /** Each plain string field is written as a quoted member at its position. */
  lemma TextFieldMember(ex: Example, f: nat)
    requires f < |TextFields(ex)|
    ensures var (k, name, s) := TextFields(ex)[f]; k < |Members(ex)| && Members(ex)[k] == Member(Key(name), Quoted(s))
  {
  }

  // ---------------------------------------------------------------------------
  // Every string the example holds

  /**
   * The strings `json.dumps` writes quoted: the plain fields, age and sex, the
   * list items, the allergies, and the keys and values of the vitals.
   */
  predicate HeldString(ex: Example, s: string) {
    || s == ex.id || s == ex.source
    || ex.age == Some(s) || ex.sex == Some(s)
    || s in ex.medicalHistory || s in ex.medications
    || ex.allergies == Some(s)
    || (exists m :: 0 <= m < |ex.vitals| && (ex.vitals[m].0 == s || ex.vitals[m].1 == s))
    || s == ex.presentingComplaint || s == ex.instruction || s == ex.response
  }

  /** A piece of member `k`'s value sits in the serialised example. */
  lemma InMember(ex: Example, k: nat, key: string, v: string, x: string, p: nat) returns (i: nat)
    requires k < |Members(ex)| && Members(ex)[k] == Member(key, v) && OccursAt(x, v, p)
    ensures OccursAt(x, Serialize(ex), i)
  {
    var o := 1 + JoinOffset(Members(ex), ", ", k) + |key| + 2;
    MemberValueOccurs(Members(ex), k, key, v);
    OccursWithin(x, v, p, Serialize(ex), o);
    i := o + p;
  }

  /** A string occurs in itself. */
  lemma OccursSelf(x: string)
    ensures OccursAt(x, x, 0)
  {
    OccursPrefix(x, []);
    assert x + [] == x;
  }

  /** Part `k` of a bracketed join sits after the bracket and its offset in the join. */
  lemma InBracketed(open: string, parts: seq<string>, k: nat, close: string)
    requires k < |parts|
    ensures OccursAt(parts[k], open + Join(parts, ", ") + close, |open| + JoinOffset(parts, ", ", k))
  {
    var joined := Join(parts, ", ");
    JoinOccurs(parts, ", ", k);
    OccursShift(parts[k], joined, JoinOffset(parts, ", ", k), open);
    OccursExtend(parts[k], open + joined, |open| + JoinOffset(parts, ", ", k), close);
  }

  /** A member starts with its key. */
  lemma KeyInMember(key: string, v: string)
    ensures OccursAt(key, Member(key, v), 0)
  {
    OccursPrefix(key, ": " + v);
    assert Member(key, v) == key + (": " + v);
  }

  /** A piece of either half of `{a, b}` sits in the braces. */
  lemma InPair(a: string, b: string, x: string, p: nat)
    ensures OccursAt(x, a, p) ==> OccursAt(x, "{" + a + ", " + b + "}", 1 + p)
    ensures OccursAt(x, b, p) ==> OccursAt(x, "{" + a + ", " + b + "}", |"{" + a + ", "| + p)
  {
    var t := "{" + a + ", " + b + "}";
    if OccursAt(x, a, p) {
      OccursShift(x, a, p, "{");
      OccursExtend(x, "{" + a, 1 + p, ", " + b + "}");
      assert ("{" + a) + (", " + b + "}") == t;
    }
    if OccursAt(x, b, p) {
      OccursShift(x, b, p, "{" + a + ", ");
      OccursExtend(x, "{" + a + ", " + b, |"{" + a + ", "| + p, "}");
    }
  }

  /** Age and sex, when present, are quoted inside the demographics object. */
  lemma InDemographics(ex: Example, s: string) returns (p: nat)
    requires ex.age == Some(s) || ex.sex == Some(s)
    ensures OccursAt(Quoted(s), DemographicsJson(ex), p)
  {
    var a, b := Member(Key("age"), OptJson(ex.age)), Member(Key("sex"), OptJson(ex.sex));
    if ex.age == Some(s) {
      ValueInMember(Key("age"), Quoted(s));
      InPair(a, b, Quoted(s), |Key("age")| + 2);
      p := 1 + |Key("age")| + 2;
    } else {
      ValueInMember(Key("sex"), Quoted(s));
      InPair(a, b, Quoted(s), |Key("sex")| + 2);
      p := |"{" + a + ", "| + |Key("sex")| + 2;
    }
  }

  /** A list item is quoted inside the list. */
  lemma InList(xs: seq<string>, s: string) returns (p: nat)
    requires s in xs
    ensures OccursAt(Quoted(s), ListJson(xs), p)
  {
    var m :| 0 <= m < |xs| && xs[m] == s;
    var qs := ListItems(xs);
    InBracketed("[", qs, m, "]");
    p := 1 + JoinOffset(qs, ", ", m);
  }

  /** The key and the value of a member each sit in it. */
  lemma InEntry(k: string, v: string, x: string) returns (q: nat)
    requires x == k || x == v
    ensures OccursAt(x, Member(k, v), q)
  {
    if x == k {
      KeyInMember(k, v);
      q := 0;
    } else {
      ValueInMember(k, v);
      q := |k| + 2;
    }
  }

  /** A vitals key or value is quoted inside the vitals object. */
  lemma InDict(d: Dict, m: nat, s: string) returns (p: nat)
    requires m < |d| && (d[m].0 == s || d[m].1 == s)
    ensures OccursAt(Quoted(s), DictJson(d), p)
  {
    var es := DictEntries(d);
    assert es[m] == Member(Quoted(d[m].0), Quoted(d[m].1));
    InBracketed("{", es, m, "}");
    var o := 1 + JoinOffset(es, ", ", m);
    var q := InEntry(Quoted(d[m].0), Quoted(d[m].1), Quoted(s));
    OccursWithin(Quoted(s), es[m], q, DictJson(d), o);
    p := o + q;
  }

  /** The members that hold lists or nested objects, at their positions. */
  lemma NestedMembers(ex: Example)
    ensures |Members(ex)| == 11
    ensures Members(ex)[2] == Member(Key("demographics"), DemographicsJson(ex))
    ensures Members(ex)[3] == Member(Key("medical_history"), ListJson(ex.medicalHistory))
    ensures Members(ex)[4] == Member(Key("medications"), ListJson(ex.medications))
    ensures Members(ex)[6] == Member(Key("vitals"), DictJson(ex.vitals))
  {
  }

  /** The `allergies` member, at its position. */
  lemma AllergiesMember(ex: Example)
    ensures |Members(ex)| == 11 && Members(ex)[5] == Member(Key("allergies"), OptJson(ex.allergies))
  {
  }

  /** A plain string field is written quoted into the serialisation. */
  lemma FieldQuoted(ex: Example, f: nat) returns (i: nat)
    requires f < |TextFields(ex)|
    ensures OccursAt(Quoted(TextFields(ex)[f].2), Serialize(ex), i)
  {
    var (k, name, s) := TextFields(ex)[f];
    TextFieldMember(ex, f);
    OccursSelf(Quoted(s));
    i := InMember(ex, k, Key(name), Quoted(s), Quoted(s), 0);
  }

  /** Every string the example holds is written quoted into the serialisation. */
  lemma HeldQuoted(ex: Example, s: string) returns (i: nat)
    requires HeldString(ex, s)
    ensures OccursAt(Quoted(s), Serialize(ex), i)
  {
    NestedMembers(ex);
    AllergiesMember(ex);
    if ex.age == Some(s) || ex.sex == Some(s) {
      var p := InDemographics(ex, s);
      i := InMember(ex, 2, Key("demographics"), DemographicsJson(ex), Quoted(s), p);
    } else if s in ex.medicalHistory {
      var p := InList(ex.medicalHistory, s);
      i := InMember(ex, 3, Key("medical_history"), ListJson(ex.medicalHistory), Quoted(s), p);
    } else if s in ex.medications {
      var p := InList(ex.medications, s);
      i := InMember(ex, 4, Key("medications"), ListJson(ex.medications), Quoted(s), p);
    } else if ex.allergies == Some(s) {
      OccursSelf(Quoted(s));
      i := InMember(ex, 5, Key("allergies"), Quoted(s), Quoted(s), 0);
    } else if exists m :: 0 <= m < |ex.vitals| && (ex.vitals[m].0 == s || ex.vitals[m].1 == s) {
      var m :| 0 <= m < |ex.vitals| && (ex.vitals[m].0 == s || ex.vitals[m].1 == s);
      var p := InDict(ex.vitals, m, s);
      i := InMember(ex, 6, Key("vitals"), DictJson(ex.vitals), Quoted(s), p);
    } else {
      var f := if s == ex.id then 0 else if s == ex.source then 1
        else if s == ex.presentingComplaint then 2 else if s == ex.instruction then 3 else 4;
      i := FieldQuoted(ex, f);
    }
  }

  /**
   * An SSN or ISO date in any string the example holds, the unredacted
   * allergies, demographics, list items and vitals included, fires the scan,
   * provided the character in front of it is one `json.dumps` writes as itself.
   */
  lemma HeldLeakFlagged(ex: Example, s: string, j: nat)
    requires HeldString(ex, s)
    requires LeakAt(s, j)
    requires j == 0 || Printable(s[j - 1])
    ensures LeakFound(Serialize(ex))
  {
    var i := HeldQuoted(ex, s);
    LeakInQuoted(s, j, Serialize(ex), i);
    LeakAtFound(Serialize(ex), i + 1 + |JsonText(s[..j])|);
  }
}
