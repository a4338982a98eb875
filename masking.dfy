/**
 * Why a fixed-width rule such as `\bdddd-dd-dd\b` leaves nothing behind for
 * itself to find: every match is replaced by a tag none of whose characters
 * fits the shape, and the characters `re.sub` copies around a tag cannot be
 * joined to it into a new bounded span.
 *
 * The argument works on `Replace`, the scan of `re.sub` given the table of
 * matches, so that the matcher itself does not enter it; `SubMasks` then puts
 * the table of `\b<shape>\b` in.
 */
module Masking {
  import opened Wrappers
  import opened Strings
  import opened Regex

  /**
   * A shape that starts and ends with a digit, and a non-empty tag none of
   * whose characters fits any position of the shape.
   */
  predicate Masks(shape: string, tag: string) {
    && shape != [] && shape[0] == 'd' && shape[|shape| - 1] == 'd'
    && tag != []
    && forall k, m :: 0 <= k < |shape| && 0 <= m < |tag| ==> !ShapeFits(shape[k], tag[m])
  }

  /** The table `re` reports for `\b<shape>\b` on `s`: a match exactly where a bounded span starts. */
  predicate ShapeTable(first: seq<Option<nat>>, shape: string, s: string) {
    && Ahead(first, |s|)
    && forall j :: 0 <= j < |s| ==> first[j] == if ShapeAt(shape, s, j) then Some(j + |shape|) else None
  }

  lemma FixedTable(shape: string, s: string)
    requires shape != []
    ensures ShapeTable(FirstEnds(Fixed(shape), s), shape, s)
  {
    var first := FirstEnds(Fixed(shape), s);
    forall j | 0 <= j < |s|
      ensures first[j] == if ShapeAt(shape, s, j) then Some(j + |shape|) else None
    {
      FixedEnds(shape, s, j);
    }
  }

  // Plain facts about shapes in strings.

  /** A shape fits at the same place after a prefix. */
  lemma FitsAtShift(shape: string, u: string, t: string, q: nat)
    ensures FitsAt(shape, u + t, |u| + q) <==> FitsAt(shape, t, q)
  {
    if q + |shape| <= |t| {
      forall k | 0 <= k < |shape| ensures ShapeFits(shape[k], (u + t)[|u| + q + k]) == ShapeFits(shape[k], t[q + k]) {
        assert (u + t)[|u| + q + k] == t[q + k];
      }
    }
  }

  /** Away from its first position, a bounded span is one in the text and after a prefix alike. */
  lemma ShapeAtShift(shape: string, u: string, t: string, q: nat)
    requires q >= 1
    ensures ShapeAt(shape, u + t, |u| + q) <==> ShapeAt(shape, t, q)
  {
    FitsAtShift(shape, u, t, q);
    assert WordAt(u + t, |u| + q - 1) == WordAt(t, q - 1);
    assert WordAt(u + t, |u| + q) == WordAt(t, q);
    assert WordAt(u + t, |u| + q + |shape| - 1) == WordAt(t, q + |shape| - 1);
    assert WordAt(u + t, |u| + q + |shape|) == WordAt(t, q + |shape|);
  }

  /** A span bounded on the left right after one character needs that character to be no word character. */
  lemma SecondStart(shape: string, c: char, t: string)
    requires shape != [] && shape[0] == 'd'
    ensures ShapeAt(shape, [c] + t, 1) ==> FitsAt(shape, t, 0) && AtBoundary(t, |shape|) && !IsWordChar(c)
  {
    FitsAtShift(shape, [c], t, 0);
    if ShapeAt(shape, [c] + t, 1) {
      assert ShapeFits(shape[0], t[0 + 0]);
      assert WordAt([c] + t, |shape|) == WordAt(t, |shape| - 1);
      assert WordAt([c] + t, |shape| + 1) == WordAt(t, |shape|);
    }
  }

  /** The first `m` characters of `t` fit the first `m` positions of the shape. */
  predicate FitsPrefix(shape: string, t: string, m: nat)
    requires m <= |shape| && m <= |t|
  {
    m == 0 || (FitsPrefix(shape, t, m - 1) && ShapeFits(shape[m - 1], t[m - 1]))
  }

  lemma {:induction false} FitsAtPrefix(shape: string, t: string, m: nat)
    requires FitsAt(shape, t, 0) && m <= |shape|
    ensures FitsPrefix(shape, t, m)
  {
    if m > 0 {
      FitsAtPrefix(shape, t, m - 1);
      assert ShapeFits(shape[m - 1], t[0 + (m - 1)]);
    }
  }

  /** A shape fitting copied characters fits the input at the place they come from. */
  lemma FitsCopied(shape: string, s: string, i: nat, t: string)
    requires i + |shape| <= |s| && FitsAt(shape, t, 0)
    requires t[..|shape|] == s[i..i + |shape|]
    ensures FitsAt(shape, s, i)
  {
    forall k | 0 <= k < |shape| ensures ShapeFits(shape[k], s[i + k]) {
      assert s[i + k] == s[i..i + |shape|][k] == t[k];
    }
  }

  // The scan of `re.sub`, one output character at a time.

  /** The character the scan writes first from `i`: the tag's first if a match starts there, else `s[i]`. */
  lemma ReplaceHead(first: seq<Option<nat>>, tag: string, s: string, i: nat)
    requires Ahead(first, |s|) && i < |s| && tag != []
    ensures var t := Replace(first, tag, s, i);
      t != [] && t[0] == if first[i].Some? then tag[0] else s[i]
  {
  }

  /** Output whose first character fits where the tag's first does not was copied from the input. */
  lemma CopiedHead(first: seq<Option<nat>>, c: char, tag: string, s: string, i: nat)
    requires Ahead(first, |s|) && i <= |s| && tag != [] && !ShapeFits(c, tag[0])
    requires 0 < |Replace(first, tag, s, i)| && ShapeFits(c, Replace(first, tag, s, i)[0])
    ensures i < |s| && first[i] == None
    ensures Replace(first, tag, s, i) == [s[i]] + Replace(first, tag, s, i + 1)
  {
    ReplaceHead(first, tag, s, i);
  }

  /**
   * Output that starts with characters fitting a shape the tag's first
   * character does not fit is copied input.
   */
  lemma {:induction false} CopyPrefix(first: seq<Option<nat>>, shape: string, tag: string, s: string, i: nat, m: nat)
    requires Ahead(first, |s|) && i <= |s| && m <= |shape| && tag != []
    requires forall k :: 0 <= k < |shape| ==> !ShapeFits(shape[k], tag[0])
    requires m <= |Replace(first, tag, s, i)| && FitsPrefix(shape, Replace(first, tag, s, i), m)
    ensures i + m <= |s|
    ensures Replace(first, tag, s, i) == s[i..i + m] + Replace(first, tag, s, i + m)
    decreases m
  {
    if m > 0 {
      var n := m - 1;
      CopyPrefix(first, shape, tag, s, i, n);
      var t, a, u := Replace(first, tag, s, i), s[i..i + n], Replace(first, tag, s, i + n);
      var c := shape[n];
      assert ShapeFits(c, t[n]);
      assert 0 < |u| && t[n] == u[0] by {
        assert t == a + u && |a| == n;
      }
      CopiedHead(first, c, tag, s, i + n);
      var w := Replace(first, tag, s, i + n + 1);
      assert i + n + 1 == i + m;
      SliceSnoc(s, i, i + n);
      MiddleChar(t, a, u, s[i + n], w, s[i..i + n + 1]);
    }
  }

  /** Where a span ends, the next character cannot start the shape, in the input or in what the scan writes. */
  lemma AfterMatch(first: seq<Option<nat>>, shape: string, tag: string, s: string, j: nat)
    requires Masks(shape, tag) && ShapeTable(first, shape, s)
    requires 0 < j <= |s| && IsDigit(s[j - 1]) && AtBoundary(s, j)
    ensures !FitsAt(shape, Replace(first, tag, s, j), 0)
  {
    if j < |s| {
      assert !WordAt(s, j);
      assert !FitsAt(shape, s, j) by {
        assert !ShapeFits(shape[0], s[j + 0]);
      }
      ReplaceHead(first, tag, s, j);
      assert !ShapeFits(shape[0], Replace(first, tag, s, j)[0]);
    }
  }

  /**
   * A span at the very start of what the scan writes from `i`, bounded on its
   * right, is a span of the input that was not matched: so the input has a
   * word character just before `i`.
   */
  lemma NoLeftStart(first: seq<Option<nat>>, shape: string, tag: string, s: string, i: nat)
    requires Masks(shape, tag) && ShapeTable(first, shape, s) && i <= |s|
    ensures var t := Replace(first, tag, s, i);
      FitsAt(shape, t, 0) && AtBoundary(t, |shape|) ==> WordAt(s, i - 1)
  {
    var t, n := Replace(first, tag, s, i), |shape|;
    if FitsAt(shape, t, 0) && AtBoundary(t, n) {
      var e := i + n;
      FitsAtPrefix(shape, t, n);
      CopyPrefix(first, shape, tag, s, i, n);
      var u := Replace(first, tag, s, e);
      assert t == s[i..e] + u;
      assert t[..n] == s[i..e];
      FitsCopied(shape, s, i, t);
      assert ShapeFits(shape[0], t[0 + 0]);
      CopiedHead(first, shape[0], tag, s, i);
      assert IsDigit(s[e - 1]) by {
        assert ShapeFits(shape[n - 1], s[i + (n - 1)]);
      }
      assert IsDigit(t[n - 1]) by {
        assert ShapeFits(shape[n - 1], t[0 + (n - 1)]);
      }
      if e < |s| {
        assert FitsAt(shape, s, e) ==> IsDigit(s[e]) by {
          if FitsAt(shape, s, e) {
            assert ShapeFits(shape[0], s[e + 0]);
          }
        }
        assert first[e] == None;
        ReplaceHead(first, tag, s, e);
        assert t[n] == u[0];
      }
      assert AtBoundary(s, e);
      assert !AtBoundary(s, i);
    }
  }

  /** Past its first character, what the scan writes from `i` holds no bounded span. */
  lemma {:induction false} NoInnerMatch(first: seq<Option<nat>>, shape: string, tag: string, s: string, i: nat)
    requires Masks(shape, tag) && ShapeTable(first, shape, s) && i <= |s|
    ensures var t := Replace(first, tag, s, i);
      forall p :: 1 <= p <= |t| ==> !ShapeAt(shape, t, p)
    decreases |s| - i
  {
    if i < |s| {
      var t := Replace(first, tag, s, i);
      if first[i].Some? {
        var e := first[i].value;
        var u := Replace(first, tag, s, e);
        assert t == tag + u;
        assert ShapeAt(shape, s, i) && e == i + |shape|;
        assert IsDigit(s[e - 1]) by {
          assert ShapeFits(shape[|shape| - 1], s[i + (|shape| - 1)]);
        }
        NoInnerMatch(first, shape, tag, s, e);
        AfterMatch(first, shape, tag, s, e);
        forall p | 1 <= p <= |t| ensures !ShapeAt(shape, t, p) {
          if p < |tag| {
            assert t[p + 0] == tag[p];
            assert !ShapeFits(shape[0], tag[p]);
          } else if p == |tag| {
            FitsAtShift(shape, tag, u, 0);
          } else {
            ShapeAtShift(shape, tag, u, p - |tag|);
          }
        }
      } else {
        var u := Replace(first, tag, s, i + 1);
        assert t == [s[i]] + u;
        NoInnerMatch(first, shape, tag, s, i + 1);
        NoLeftStart(first, shape, tag, s, i + 1);
        forall p | 1 <= p <= |t| ensures !ShapeAt(shape, t, p) {
          if p == 1 {
            SecondStart(shape, s[i], u);
          } else {
            ShapeAtShift(shape, [s[i]], u, p - 1);
          }
        }
      }
    }
  }

  /** What the scan writes over the whole text holds no bounded span of the shape anywhere. */
  lemma ReplaceMasks(first: seq<Option<nat>>, shape: string, tag: string, s: string)
    requires Masks(shape, tag) && ShapeTable(first, shape, s)
    ensures forall p :: !ShapeAt(shape, Replace(first, tag, s, 0), p)
  {
    NoInnerMatch(first, shape, tag, s, 0);
    NoLeftStart(first, shape, tag, s, 0);
  }

  /**
   * After `re.sub(r"\b<shape>\b", tag, s)` no position of the result starts a
   * match, so `re.search` finds none and a second substitution changes nothing.
   */
  lemma SubMasks(r: Pattern, shape: string, tag: string, s: string)
    requires Masks(shape, tag) && r == Fixed(shape)
    ensures forall p :: 0 <= p <= |Sub(r, tag, s)| ==> Ends(r, Sub(r, tag, s), p) == []
    ensures !Search(r, Sub(r, tag, s))
    ensures Sub(r, tag, Sub(r, tag, s)) == Sub(r, tag, s)
  {
    var t := Sub(r, tag, s);
    FixedTable(shape, s);
    ReplaceMasks(FirstEnds(r, s), shape, tag, s);
    assert t == Replace(FirstEnds(r, s), tag, s, 0);
    forall p | 0 <= p <= |t| ensures Ends(r, t, p) == [] {
      FixedEnds(shape, t, p);
      assert !ShapeAt(shape, t, p);
    }
    SearchIff(r, t);
    SubFromNoMatch(r, tag, t, 0);
    assert t[0..] == t;
  }
}
