/**
 * The pattern redactor: `deidentify_text` and the rule table it folds over.
 */
module Redactor {
  import opened Wrappers
  import opened Strings
  import opened Regex
  import opened Masking

  datatype Rule = Rule(pattern: Pattern, tag: string)

  const UpperChar := Char([Range('A', 'Z')])
  const LowerRun := Many([Range('a', 'z')], 1)
  const DigitChar := Char([Digit])

  /** `\b([A-Z][a-z]+(?: [A-Z][a-z]+){0,2})\b` */
  const NamePattern: Pattern := (
    var parts := [Boundary, UpperChar, LowerRun, Repeat(Seq([Lit(' '), UpperChar, LowerRun]), 0, 2), Boundary];
    SeqMinLen(parts, 1);
    Seq(parts))

  /** `\b\d{1,2}[/-]\d{1,2}[/-]\d{2,4}\b` */
  const DatePattern: Pattern := (
    var sep := Char([Range('/', '/'), Range('-', '-')]);
    var parts := [Boundary, Repeat(DigitChar, 1, 2), sep, Repeat(DigitChar, 1, 2), sep, Repeat(DigitChar, 2, 4), Boundary];
    SeqMinLen(parts, 2);
    Seq(parts))

  /** `\b\d{4}-\d{2}-\d{2}\b` */
  const IsoDatePattern: Pattern := Fixed("dddd-dd-dd")

  /** `\b(?:\+?\d{1,3}[-.\s]?)?(?:\(\d{3}\)|\d{3})[-.\s]?\d{3}[-.\s]?\d{4}\b` */
  const PhonePattern: Pattern := (
    var sep := Char([Range('-', '-'), Range('.', '.'), Space]);
    var parts := [Boundary,
                  Opt(Seq([Opt(Lit('+')), Repeat(DigitChar, 1, 3), Opt(sep)])),
                  Alt(Seq([Lit('('), Repeat(DigitChar, 3, 3), Lit(')')]), Repeat(DigitChar, 3, 3)),
                  Opt(sep), Repeat(DigitChar, 3, 3), Opt(sep), Repeat(DigitChar, 4, 4), Boundary];
    SeqMinLen(parts, 4);
    Seq(parts))

  /** `\b(?:MRN|mrn|Medical Record Number)[:#\s]*\w+\b` */
  const MrnPattern: Pattern := (
    var parts := [Boundary,
                  Alt(Literal("MRN"), Alt(Literal("mrn"), Literal("Medical Record Number"))),
                  Many([Range(':', ':'), Range('#', '#'), Space], 0),
                  Many([Word], 1),
                  Boundary];
    SeqMinLen(parts, 3);
    Seq(parts))

  /** `[a-zA-Z0-9_.+-]+@[a-zA-Z0-9-]+\.[a-zA-Z0-9-.]+` */
  const EmailPattern: Pattern := (
    var alnum := [Range('a', 'z'), Range('A', 'Z'), Range('0', '9')];
    var parts := [Many(alnum + [Range('_', '_'), Range('.', '.'), Range('+', '+'), Range('-', '-')], 1),
                  Lit('@'),
                  Many(alnum + [Range('-', '-')], 1),
                  Lit('.'),
                  Many(alnum + [Range('-', '-'), Range('.', '.')], 1)];
    SeqMinLen(parts, 1);
    Seq(parts))

  /** `https?://\S+` */
  const UrlPattern: Pattern := (
    var parts := [Literal("http"), Opt(Lit('s')), Literal("://"), Many([NonSpace], 1)];
    SeqMinLen(parts, 3);
    Seq(parts))

  /** The rule table, in the order the notebook lists it; MRN comes last. */
  const PhiPatterns: seq<Rule> := [
    Rule(NamePattern, "[NAME]"),
    Rule(IsoDatePattern, "[DATE]"),
    Rule(DatePattern, "[DATE]"),
    Rule(PhonePattern, "[PHONE]"),
    Rule(EmailPattern, "[EMAIL]"),
    Rule(UrlPattern, "[URL]"),
    Rule(MrnPattern, "[ID]")
  ]

  /** Declared as configuration and never consulted by any rule. */
  const WhitelistNames: set<string> := {"May", "June", "August"}

  /** `\s+` */
  const WhitespaceRun: Pattern := Many([Space], 1)

  /** Each rule rewrites the output of the rules before it. */
  function Cascade(rules: seq<Rule>, s: string): string {
    if rules == [] then s
    else
      var last := rules[|rules| - 1];
      Sub(last.pattern, last.tag, Cascade(rules[..|rules| - 1], s))
  }

  lemma WhitespaceFirst(s: string, i: nat)
    requires i <= |s|
    ensures FirstEnd(WhitespaceRun, s, i) ==
      if i < |s| && IsSpace(s[i]) then Some(RunEnd([Space], s, i)) else None
  {
    ManyTakesRun([Space], 1, s, i);
    if i < |s| { InClassSingle(s[i], Space); }
  }

  /** Every whitespace character is a plain space. */
  predicate PlainSpaces(t: string) {
    forall k :: 0 <= k < |t| && IsSpace(t[k]) ==> t[k] == ' '
  }

  /** Putting one character in front keeps both properties, unless it makes two whitespace characters meet. */
  lemma ConsShape(c: char, u: string)
    requires NoDoubleSpace(u) && PlainSpaces(u)
    requires IsSpace(c) ==> c == ' ' && (u == [] || !IsSpace(u[0]))
    ensures NoDoubleSpace([c] + u) && PlainSpaces([c] + u)
  {
    var t := [c] + u;
    forall k | 1 <= k < |t| ensures t[k] == u[k - 1] { }
  }

  /** `re.sub(r"\s+", " ", s[i..])` leaves single spaces only, and starts with whitespace iff `s[i..]` does. */
  lemma {:induction false} CollapseFrom(s: string, i: nat)
    requires i <= |s|
    ensures var t := SubFrom(WhitespaceRun, " ", s, i);
      && NoDoubleSpace(t)
      && PlainSpaces(t)
      && (i == |s| <==> t == [])
      && (i < |s| ==> (IsSpace(t[0]) <==> IsSpace(s[i])))
    decreases |s| - i
  {
    if i < |s| {
      WhitespaceFirst(s, i);
      if IsSpace(s[i]) {
        var j := RunEnd([Space], s, i);
        CollapseFrom(s, j);
        var u := SubFrom(WhitespaceRun, " ", s, j);
        assert SubFrom(WhitespaceRun, " ", s, i) == [' '] + u;
        if j < |s| { InClassSingle(s[j], Space); }
        ConsShape(' ', u);
      } else {
        CollapseFrom(s, i + 1);
        var u := SubFrom(WhitespaceRun, " ", s, i + 1);
        assert SubFrom(WhitespaceRun, " ", s, i) == [s[i]] + u;
        ConsShape(s[i], u);
      }
    }
  }

  /** The notebook's whitespace clean-up: `re.sub(r"\s+", " ", out).strip()`. */
  function Normalize(s: string): string {
    Strip(Sub(WhitespaceRun, " ", s))
  }

  /** After the clean-up: no whitespace at either end, no two whitespace characters in a row, and plain spaces only. */
  lemma NormalizeShape(s: string)
    ensures var r := Normalize(s);
      && Trimmed(r) && NoDoubleSpace(r) && PlainSpaces(r)
  {
    var t := Sub(WhitespaceRun, " ", s);
    CollapseFrom(s, 0);
    StripKeepsNoDoubleSpace(t);
    StripKeepsPlain(t);
  }

  lemma StripKeepsPlain(t: string)
    requires PlainSpaces(t)
    ensures PlainSpaces(Strip(t))
  {
    var r := Strip(t);
    if r != [] {
      var a := LeadingSpace(t);
      forall k | 0 <= k < |r| ensures r[k] == t[a + k] { }
    }
  }

  /** The run `\s+` takes from a whitespace character: whitespace only, at least that character. */
  lemma SpaceRun(s: string, i: nat)
    requires i < |s| && IsSpace(s[i])
    ensures var j := RunEnd([Space], s, i);
      i < j && forall k :: i <= k < j ==> IsSpace(s[k])
  {
    var j := RunEnd([Space], s, i);
    forall k | i <= k < j ensures IsSpace(s[k]) {
      InClassSingle(s[k], Space);
    }
    InClassSingle(s[i], Space);
  }

  /** One step of the collapse: a whitespace run becomes one space, any other character is copied. */
  lemma CollapseStep(s: string, i: nat)
    requires i < |s|
    ensures SubFrom(WhitespaceRun, " ", s, i) ==
      if IsSpace(s[i]) then [' '] + SubFrom(WhitespaceRun, " ", s, RunEnd([Space], s, i))
      else [s[i]] + SubFrom(WhitespaceRun, " ", s, i + 1)
  {
    WhitespaceFirst(s, i);
    SubFromStep(WhitespaceRun, " ", s, i);
  }

  /** Collapsing whitespace runs keeps every other character, in order. */
  lemma {:induction false} CollapseKeepsVisible(s: string, i: nat)
    requires i <= |s|
    ensures Visible(SubFrom(WhitespaceRun, " ", s, i)) == Visible(s[i..])
    decreases |s| - i
  {
    if i < |s| {
      CollapseStep(s, i);
      if IsSpace(s[i]) {
        var j := RunEnd([Space], s, i);
        SpaceRun(s, i);
        CollapseKeepsVisible(s, j);
        VisibleCons(' ', SubFrom(WhitespaceRun, " ", s, j));
        VisibleSkipSpace(s, i, j);
      } else {
        CollapseKeepsVisible(s, i + 1);
        VisibleCons(s[i], SubFrom(WhitespaceRun, " ", s, i + 1));
        assert s[i..] == [s[i]] + s[i + 1..];
        VisibleCons(s[i], s[i + 1..]);
      }
    }
  }

  /** The clean-up only touches whitespace: every other character of the text stays, in order. */
  lemma NormalizeKeepsVisible(s: string)
    ensures Visible(Normalize(s)) == Visible(s)
  {
    var t := Sub(WhitespaceRun, " ", s);
    CollapseKeepsVisible(s, 0);
    assert s[0..] == s;
    StripKeepsVisible(t);
  }

  /**
   * The ISO-date rule leaves no ISO date behind: its tag holds no digit and
   * no hyphen, and the text copied around a tag cannot be joined to it into a
   * new bounded `dddd-dd-dd` span. So searching again finds nothing and a
   * second pass changes nothing.
   */
  lemma IsoRuleMasks(s: string)
    ensures var t := Sub(IsoDatePattern, "[DATE]", s);
      && !Search(IsoDatePattern, t)
      && Sub(IsoDatePattern, "[DATE]", t) == t
  {
    var shape, tag := "dddd-dd-dd", "[DATE]";
    assert Masks(shape, tag) by {
      forall k, m | 0 <= k < |shape| && 0 <= m < |tag| ensures !ShapeFits(shape[k], tag[m]) {
        assert shape[k] == 'd' || shape[k] == '-';
        assert tag[m] in "[DATE]";
      }
    }
    SubMasks(IsoDatePattern, shape, tag, s);
  }

  /** `deidentify_text` on a string: the whole rule table, then the whitespace clean-up. */
  function Deidentify(s: string): string {
    Normalize(Cascade(PhiPatterns, s))
  }

  /** The rules apply in table order: each rewrites the output of the ones before it. */
  lemma {:induction false} CascadeSnoc(rules: seq<Rule>, r: Rule, s: string)
    ensures Cascade(rules + [r], s) == Sub(r.pattern, r.tag, Cascade(rules, s))
  {
    assert (rules + [r])[..|rules|] == rules;
  }

  /** A table of seven rules applies the first rule first and the seventh last. */
  lemma CascadeSeven(r0: Rule, r1: Rule, r2: Rule, r3: Rule, r4: Rule, r5: Rule, r6: Rule, s: string)
    ensures Cascade([r0, r1, r2, r3, r4, r5, r6], s) ==
      Sub(r6.pattern, r6.tag, Sub(r5.pattern, r5.tag, Sub(r4.pattern, r4.tag, Sub(r3.pattern, r3.tag,
        Sub(r2.pattern, r2.tag, Sub(r1.pattern, r1.tag, Sub(r0.pattern, r0.tag, s)))))))
  {
    var t := [r0, r1, r2, r3, r4, r5, r6];
    assert Cascade(t, s) == Sub(r6.pattern, r6.tag, Cascade(t[..6], s));
    assert Cascade(t[..6], s) == Sub(r5.pattern, r5.tag, Cascade(t[..5], s)) by { assert t[..6][..5] == t[..5]; }
    assert Cascade(t[..5], s) == Sub(r4.pattern, r4.tag, Cascade(t[..4], s)) by { assert t[..5][..4] == t[..4]; }
    assert Cascade(t[..4], s) == Sub(r3.pattern, r3.tag, Cascade(t[..3], s)) by { assert t[..4][..3] == t[..3]; }
    assert Cascade(t[..3], s) == Sub(r2.pattern, r2.tag, Cascade(t[..2], s)) by { assert t[..3][..2] == t[..2]; }
    assert Cascade(t[..2], s) == Sub(r1.pattern, r1.tag, Cascade(t[..1], s)) by { assert t[..2][..1] == t[..1]; }
    assert Cascade(t[..1], s) == Sub(r0.pattern, r0.tag, s) by { assert t[..1][..0] == []; }
  }

  /**
   * `deidentify_text` on a string masks names first, then ISO dates, other
   * dates, phone numbers, e-mail addresses, URLs and, last, record numbers,
   * and then collapses and trims the whitespace.
   */
  lemma DeidentifyOrder(s: string)
    ensures Deidentify(s) ==
      Normalize(Sub(MrnPattern, "[ID]", Sub(UrlPattern, "[URL]", Sub(EmailPattern, "[EMAIL]",
        Sub(PhonePattern, "[PHONE]", Sub(DatePattern, "[DATE]", Sub(IsoDatePattern, "[DATE]",
        Sub(NamePattern, "[NAME]", s))))))))
  {
    CascadeSeven(Rule(NamePattern, "[NAME]"), Rule(IsoDatePattern, "[DATE]"), Rule(DatePattern, "[DATE]"),
                 Rule(PhonePattern, "[PHONE]"), Rule(EmailPattern, "[EMAIL]"), Rule(UrlPattern, "[URL]"),
                 Rule(MrnPattern, "[ID]"), s);
  }

  /**
   * `deidentify_text`, with the rule table passed in: non-strings pass through;
   * a string goes through every rule in table order, then the whitespace clean-up.
   */
  method DeidentifyText(rules: seq<Rule>, text: Value) returns (out: Value)
    ensures text.NonString? ==> out == text
    ensures text.Str? ==> out == Str(Normalize(Cascade(rules, text.s)))
    ensures out.Str? ==> Trimmed(out.s) && NoDoubleSpace(out.s)
  {
    if !text.Str? {
      return text;
    }
    var s := text.s;
    for k := 0 to |rules|
      invariant s == Cascade(rules[..k], text.s)
    {
      assert rules[..k + 1][..k] == rules[..k];
      s := Sub(rules[k].pattern, rules[k].tag, s);
    }
    assert rules[..|rules|] == rules;
    NormalizeShape(s);
    out := Str(Normalize(s));
  }
}
