/**
 * The fragment of Python's `re` that the notebook's patterns use, as a
 * backtracking matcher: `Ends(r, s, i)` lists every position where a match of
 * `r` that starts at `i` can end, in the order Python's backtracking engine
 * tries them, so its first element is the match `re` reports at `i`.
 */
module Regex {
  import opened Wrappers
  import opened Strings

  /** One member of a character class `[...]`. */
  datatype Item = Range(lo: char, hi: char) | Digit | Word | Space | NonSpace

  predicate InItem(c: char, it: Item) {
    match it
    case Range(lo, hi) => lo <= c <= hi
    case Digit => IsDigit(c)
    case Word => IsWordChar(c)
    case Space => IsSpace(c)
    case NonSpace => !IsSpace(c)
  }

  predicate InClass(c: char, items: seq<Item>) {
    if items == [] then false else InItem(c, items[0]) || InClass(c, items[1..])
  }

  datatype Regex =
    | Empty                            // matches the empty string
    | Char(items: seq<Item>)           // one character of a class
    | Boundary                         // \b
    | Cat(first: Regex, rest: Regex)   // first, then rest
    | Alt(left: Regex, right: Regex)   // left|right, left tried first
    | Many(cls: seq<Item>, min: nat)   // greedy cls{min,}

  /** Fewest characters any match of `r` consumes. */
  function MinLen(r: Regex): nat {
    match r
    case Empty => 0
    case Char(_) => 1
    case Boundary => 0
    case Cat(a, b) => MinLen(a) + MinLen(b)
    case Alt(a, b) => if MinLen(a) <= MinLen(b) then MinLen(a) else MinLen(b)
    case Many(_, m) => m
  }

  /** A pattern that cannot match the empty string, the only kind `re.sub` is given here. */
  type Pattern = r: Regex | MinLen(r) >= 1 witness Char([])

  predicate WordAt(s: string, i: int) {
    0 <= i < |s| && IsWordChar(s[i])
  }

  /** `\b`: a word character on exactly one side of position `i`. */
  predicate AtBoundary(s: string, i: nat) {
    WordAt(s, i - 1) != WordAt(s, i)
  }

  function Ends(r: Regex, s: string, i: nat): (es: seq<nat>)
    requires i <= |s|
    ensures forall k :: 0 <= k < |es| ==> i + MinLen(r) <= es[k] <= |s|
    decreases r, 0
  {
    match r
    case Empty => [i]
    case Char(items) => if i < |s| && InClass(s[i], items) then [i + 1] else []
    case Boundary => if AtBoundary(s, i) then [i] else []
    case Cat(a, b) => ThenEach(b, s, Ends(a, s, i), i + MinLen(a))
    case Alt(a, b) => Ends(a, s, i) + Ends(b, s, i)
    case Many(cls, m) => ManyEnds(cls, m, s, i)
  }

  /** Continue with `b` from every start in turn, keeping the priority order. */
  function ThenEach(b: Regex, s: string, starts: seq<nat>, lo: nat): (es: seq<nat>)
    requires forall k :: 0 <= k < |starts| ==> lo <= starts[k] <= |s|
    ensures forall k :: 0 <= k < |es| ==> lo + MinLen(b) <= es[k] <= |s|
    decreases b, |starts| + 1
  {
    if starts == [] then []
    else Ends(b, s, starts[0]) + ThenEach(b, s, starts[1..], lo)
  }

  /** Greedy repetition of one class: the longest run first, then each shorter one down to `m`. */
  function ManyEnds(cls: seq<Item>, m: nat, s: string, i: nat): (es: seq<nat>)
    requires i <= |s|
    ensures forall k :: 0 <= k < |es| ==> i + m <= es[k] <= |s|
    decreases |s| - i
  {
    (if i < |s| && InClass(s[i], cls) then ManyEnds(cls, if m == 0 then 0 else m - 1, s, i + 1) else [])
    + (if m == 0 then [i] else [])
  }

  /** End of the longest run of `cls` characters starting at `i`. */
  function RunEnd(cls: seq<Item>, s: string, i: nat): (e: nat)
    requires i <= |s|
    ensures i <= e <= |s|
    ensures forall k :: i <= k < e ==> InClass(s[k], cls)
    ensures e < |s| ==> !InClass(s[e], cls)
    decreases |s| - i
  {
    if i < |s| && InClass(s[i], cls) then RunEnd(cls, s, i + 1) else i
  }

  /** Greedy repetition of a class matches exactly when the maximal run is long enough, and then takes all of it. */
  lemma {:induction false} ManyTakesRun(cls: seq<Item>, m: nat, s: string, i: nat)
    requires i <= |s|
    ensures ManyEnds(cls, m, s, i) != [] <==> RunEnd(cls, s, i) - i >= m
    ensures ManyEnds(cls, m, s, i) != [] ==> ManyEnds(cls, m, s, i)[0] == RunEnd(cls, s, i)
    decreases |s| - i
  {
    if i < |s| && InClass(s[i], cls) {
      ManyTakesRun(cls, if m == 0 then 0 else m - 1, s, i + 1);
    }
  }

  /** The match `re` reports at `i`, if any. */
  function FirstEnd(r: Regex, s: string, i: nat): (e: Option<nat>)
    requires i <= |s|
    ensures e.Some? ==> i + MinLen(r) <= e.value <= |s|
  {
    var es := Ends(r, s, i);
    if es == [] then None else Some(es[0])
  }

  /** `re.search(r, s[i..])` found something at or after `i`. */
  predicate SearchFrom(r: Regex, s: string, i: nat)
    requires i <= |s|
    decreases |s| - i
  {
    Ends(r, s, i) != [] || (i < |s| && SearchFrom(r, s, i + 1))
  }

  predicate Search(r: Regex, s: string) {
    SearchFrom(r, s, 0)
  }

  lemma {:induction false} SearchFromIff(r: Regex, s: string, i: nat)
    requires i <= |s|
    ensures SearchFrom(r, s, i) <==> exists j :: i <= j <= |s| && Ends(r, s, j) != []
    decreases |s| - i
  {
    if Ends(r, s, i) != [] {
      assert SearchFrom(r, s, i);
      assert i <= i <= |s| && Ends(r, s, i) != [];
    } else if i < |s| {
      SearchFromIff(r, s, i + 1);
      if exists j :: i <= j <= |s| && Ends(r, s, j) != [] {
        var j :| i <= j <= |s| && Ends(r, s, j) != [];
        assert i + 1 <= j <= |s|;
      }
    }
  }

  /** `re.search` succeeds exactly when some position starts a match. */
  lemma SearchIff(r: Regex, s: string)
    ensures Search(r, s) <==> exists j :: 0 <= j <= |s| && Ends(r, s, j) != []
  {
    SearchFromIff(r, s, 0);
  }

  /** The match `re` reports at each start position of `s`. */
  function FirstEnds(r: Regex, s: string): (first: seq<Option<nat>>)
    ensures |first| == |s| && forall j :: 0 <= j < |s| ==> first[j] == FirstEnd(r, s, j)
  {
    seq(|s|, j requires 0 <= j < |s| => FirstEnd(r, s, j))
  }

  /** Every match in the table ends after the position it starts at and inside the text. */
  predicate Ahead(first: seq<Option<nat>>, n: nat) {
    |first| == n && forall j :: 0 <= j < n && first[j].Some? ==> j < first[j].value <= n
  }

  /** A pattern that cannot match the empty string always moves the scan forward. */
  lemma FirstEndsAhead(r: Pattern, s: string)
    ensures Ahead(FirstEnds(r, s), |s|)
  {
  }

  /**
   * The scan of `re.sub` over `s[i..]`, given the match reported at each
   * position: where one starts, write the tag and resume where it ends;
   * elsewhere copy the character.
   */
  function Replace(first: seq<Option<nat>>, tag: string, s: string, i: nat): string
    requires Ahead(first, |s|) && i <= |s|
    decreases |s| - i
  {
    if i == |s| then []
    else
      match first[i]
      case Some(j) => tag + Replace(first, tag, s, j)
      case None => [s[i]] + Replace(first, tag, s, i + 1)
  }

  /** `re.sub(r, tag, s[i..])`: the leftmost match is replaced and the scan resumes after it. */
  function SubFrom(r: Pattern, tag: string, s: string, i: nat): string
    requires i <= |s|
  {
    FirstEndsAhead(r, s);
    Replace(FirstEnds(r, s), tag, s, i)
  }

  function Sub(r: Pattern, tag: string, s: string): string {
    SubFrom(r, tag, s, 0)
  }

  /** One step of `re.sub`: a match at `i` is replaced by the tag, any other character copied. */
  lemma SubFromStep(r: Pattern, tag: string, s: string, i: nat)
    requires i < |s|
    ensures SubFrom(r, tag, s, i) == match FirstEnd(r, s, i)
      case Some(j) => tag + SubFrom(r, tag, s, j)
      case None => [s[i]] + SubFrom(r, tag, s, i + 1)
  {
    FirstEndsAhead(r, s);
    assert FirstEnds(r, s)[i] == FirstEnd(r, s, i);
  }

  /** Where no match starts, `re.sub` returns the text unchanged. */
  lemma {:induction false} SubFromNoMatch(r: Pattern, tag: string, s: string, i: nat)
    requires i <= |s|
    requires forall j :: i <= j < |s| ==> Ends(r, s, j) == []
    ensures SubFrom(r, tag, s, i) == s[i..]
    decreases |s| - i
  {
    if i < |s| {
      SubFromStep(r, tag, s, i);
      SubFromNoMatch(r, tag, s, i + 1);
      assert s[i..] == [s[i]] + s[i + 1..];
    }
  }

  /** Positions the table gives no match for are copied through one by one. */
  lemma {:induction false} ReplaceSkip(first: seq<Option<nat>>, tag: string, s: string, i: nat, k: nat)
    requires Ahead(first, |s|) && i <= k <= |s|
    requires forall j :: i <= j < k ==> first[j] == None
    ensures Replace(first, tag, s, i) == s[i..k] + Replace(first, tag, s, k)
    decreases k - i
  {
    if i < k {
      var u, w := Replace(first, tag, s, i + 1), Replace(first, tag, s, k);
      assert Replace(first, tag, s, i) == [s[i]] + u;
      ReplaceSkip(first, tag, s, i + 1, k);
      assert [s[i]] + u == ([s[i]] + s[i + 1..k]) + w;
      assert s[i..k] == [s[i]] + s[i + 1..k];
    }
  }

  /** Positions where no match starts are copied through one by one. */
  lemma SubFromSkip(r: Pattern, tag: string, s: string, i: nat, k: nat)
    requires i <= k <= |s|
    requires forall j :: i <= j < k ==> Ends(r, s, j) == []
    ensures SubFrom(r, tag, s, i) == s[i..k] + SubFrom(r, tag, s, k)
  {
    var first := FirstEnds(r, s);
    FirstEndsAhead(r, s);
    forall j | i <= j < k ensures first[j] == None {
      assert first[j] == FirstEnd(r, s, j);
    }
    ReplaceSkip(first, tag, s, i, k);
  }

  /**
   * The leftmost match from `i` on is replaced: the text before it is copied,
   * then the tag, and the scan resumes where the reported match ends.
   */
  lemma SubFromFirstMatch(r: Pattern, tag: string, s: string, i: nat, j: nat)
    requires i <= j < |s|
    requires forall m :: i <= m < j ==> Ends(r, s, m) == []
    requires Ends(r, s, j) != []
    ensures FirstEnd(r, s, j) == Some(Ends(r, s, j)[0])
    ensures SubFrom(r, tag, s, i) == s[i..j] + tag + SubFrom(r, tag, s, Ends(r, s, j)[0])
  {
    SubFromSkip(r, tag, s, i, j);
    SubFromStep(r, tag, s, j);
  }

  /** A concatenation whose first part has one way to match continues from there. */
  lemma CatSingle(a: Regex, b: Regex, s: string, i: nat, j: nat)
    requires i <= j <= |s|
    requires Ends(a, s, i) == [j]
    ensures Ends(Cat(a, b), s, i) == Ends(b, s, j)
  {
    var lo := i + MinLen(a);
    assert Ends(Cat(a, b), s, i) == ThenEach(b, s, [j], lo);
    assert [j][1..] == [];
    assert ThenEach(b, s, [], lo) == [];
    assert ThenEach(b, s, [j], lo) == Ends(b, s, j) + ThenEach(b, s, [], lo);
  }

  lemma CatNone(a: Regex, b: Regex, s: string, i: nat)
    requires i <= |s|
    requires Ends(a, s, i) == []
    ensures Ends(Cat(a, b), s, i) == []
  {
  }

  // Builders for the notations the patterns use.

  function Lit(c: char): Regex { Char([Range(c, c)]) }

  /** A literal word. */
  function Literal(w: string): Regex {
    if w == [] then Empty else Cat(Lit(w[0]), Literal(w[1..]))
  }

  /** Greedy `r?`. */
  function Opt(r: Regex): Regex { Alt(r, Empty) }

  /** Concatenation of a list of parts. */
  function Seq(parts: seq<Regex>): Regex {
    if parts == [] then Empty else Cat(parts[0], Seq(parts[1..]))
  }

  /** A concatenation consumes at least what any one of its parts does. */
  lemma {:induction false} SeqMinLen(parts: seq<Regex>, k: nat)
    requires k < |parts|
    ensures MinLen(Seq(parts)) >= MinLen(parts[k])
  {
    if k > 0 {
      SeqMinLen(parts[1..], k - 1);
    }
  }

  /** Greedy `r{min,max}`: one more `r` is tried before stopping. */
  function Repeat(r: Regex, min: nat, max: nat): Regex
    requires min <= max
    decreases max
  {
    if max == 0 then Empty
    else if min == 0 then Opt(Cat(r, Repeat(r, 0, max - 1)))
    else Cat(r, Repeat(r, min - 1, max - 1))
  }

  /** One position of a fixed-width shape: `d` stands for `\d`, any other character for itself. */
  predicate ShapeFits(c: char, x: char) {
    if c == 'd' then IsDigit(x) else x == c
  }

  function ShapeChar(c: char): Regex {
    if c == 'd' then Char([Digit]) else Lit(c)
  }

  /** The body of a fixed-width digit pattern, one `ShapeChar` per shape character. */
  function FixedBody(shape: string): Regex {
    if shape == [] then Empty else Cat(ShapeChar(shape[0]), FixedBody(shape[1..]))
  }

  /** `\b<shape>\b`. */
  function Fixed(shape: string): Regex {
    Cat(Boundary, Cat(FixedBody(shape), Boundary))
  }

  /** The characters at `i` have the given shape. */
  predicate FitsAt(shape: string, s: string, i: nat) {
    && i + |shape| <= |s|
    && forall k :: 0 <= k < |shape| ==> ShapeFits(shape[k], s[i + k])
  }

  /** A span of the given shape starts at `j`, with a word boundary on both sides. */
  predicate ShapeAt(shape: string, s: string, j: nat) {
    j <= |s| && AtBoundary(s, j) && FitsAt(shape, s, j) && AtBoundary(s, j + |shape|)
  }

  lemma InClassSingle(c: char, it: Item)
    ensures InClass(c, [it]) <==> InItem(c, it)
  {
    assert [it][1..] == [];
  }

  lemma ShapeCharEnds(c: char, s: string, i: nat)
    requires i <= |s|
    ensures Ends(ShapeChar(c), s, i) == if i < |s| && ShapeFits(c, s[i]) then [i + 1] else []
  {
    if i < |s| {
      InClassSingle(s[i], if c == 'd' then Digit else Range(c, c));
    }
  }

  /** A shape fits when its first character fits and the rest fits one position on. */
  lemma FitsAtCons(shape: string, s: string, i: nat)
    requires shape != []
    ensures FitsAt(shape, s, i) <==> i < |s| && ShapeFits(shape[0], s[i]) && FitsAt(shape[1..], s, i + 1)
  {
    if FitsAt(shape, s, i) {
      forall k | 0 <= k < |shape| - 1 ensures ShapeFits(shape[1..][k], s[i + 1 + k]) {
        assert shape[1..][k] == shape[k + 1];
      }
    }
    if i < |s| && ShapeFits(shape[0], s[i]) && FitsAt(shape[1..], s, i + 1) {
      forall k | 0 <= k < |shape| ensures ShapeFits(shape[k], s[i + k]) {
        if k > 0 { assert shape[1..][k - 1] == shape[k]; }
      }
    }
  }

  lemma {:induction false} FixedBodyEnds(shape: string, s: string, i: nat)
    requires i <= |s|
    ensures Ends(FixedBody(shape), s, i) == if FitsAt(shape, s, i) then [i + |shape|] else []
    decreases shape
  {
    if shape == [] {
      assert Ends(FixedBody(shape), s, i) == [i];
      assert FitsAt(shape, s, i);
    } else {
      var head, tail := ShapeChar(shape[0]), FixedBody(shape[1..]);
      assert FixedBody(shape) == Cat(head, tail);
      ShapeCharEnds(shape[0], s, i);
      FitsAtCons(shape, s, i);
      if i < |s| && ShapeFits(shape[0], s[i]) {
        FixedBodyEnds(shape[1..], s, i + 1);
        CatSingle(head, tail, s, i, i + 1);
        assert i + 1 + |shape[1..]| == i + |shape|;
      } else {
        CatNone(head, tail, s, i);
      }
    }
  }

  /** A fixed-width pattern matches at `i` exactly when the shape fits there between word boundaries. */
  lemma FixedEnds(shape: string, s: string, i: nat)
    requires i <= |s|
    ensures Ends(Fixed(shape), s, i) ==
      if AtBoundary(s, i) && FitsAt(shape, s, i) && AtBoundary(s, i + |shape|) then [i + |shape|] else []
  {
    var body := FixedBody(shape);
    var tail := Cat(body, Boundary);
    var whole := Ends(Fixed(shape), s, i);
    FixedBodyEnds(shape, s, i);
    if AtBoundary(s, i) {
      assert Ends(Boundary, s, i) == [i];
      CatSingle(Boundary, tail, s, i, i);
      assert whole == Ends(tail, s, i);
      if FitsAt(shape, s, i) {
        var e := i + |shape|;
        assert Ends(body, s, i) == [e];
        CatSingle(body, Boundary, s, i, e);
        assert whole == Ends(Boundary, s, e);
      } else {
        CatNone(body, Boundary, s, i);
        assert whole == [];
      }
    } else {
      assert Ends(Boundary, s, i) == [];
      CatNone(Boundary, tail, s, i);
      assert whole == [];
    }
  }
}
