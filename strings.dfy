/** Small datatypes shared by every module. */
module Wrappers {
  datatype Option<+T> = None | Some(value: T)

  datatype Result<+T, +E> = Ok(value: T) | Err(error: E)
}

/**
 * Character classes and the few `str` methods the conversion notebook uses:
 * `str.strip()`, `str.split(sep)`, `sep.join(parts)` and `x in s`.
 */
module Strings {

  /** A Python value as the helpers see it: a `str`, or anything else (left untouched). */
  datatype Value = Str(s: string) | NonString(code: int)

  /** Python's `str.isspace()`, which is also what `\s` matches in a `str` pattern. */
  predicate IsSpace(c: char) {
    || c == ' '
    || ('\t' <= c <= '\r')
    || ('\U{1c}' <= c <= '\U{1f}')
    || c == '\U{85}' || c == '\U{a0}' || c == '\U{1680}'
    || ('\U{2000}' <= c <= '\U{200a}')
    || c == '\U{2028}' || c == '\U{2029}' || c == '\U{202f}' || c == '\U{205f}' || c == '\U{3000}'
  }

  predicate IsDigit(c: char) { '0' <= c <= '9' }
  predicate IsUpper(c: char) { 'A' <= c <= 'Z' }
  predicate IsLower(c: char) { 'a' <= c <= 'z' }

  /** `\w` restricted to ASCII: letters, digits and the underscore. */
  predicate IsWordChar(c: char) { IsDigit(c) || IsUpper(c) || IsLower(c) || c == '_' }

  predicate AllSpace(s: string) {
    forall k :: 0 <= k < |s| ==> IsSpace(s[k])
  }

  /** No two adjacent whitespace characters. */
  predicate NoDoubleSpace(s: string) {
    forall k :: 0 <= k < |s| - 1 ==> !(IsSpace(s[k]) && IsSpace(s[k + 1]))
  }

  /** Neither the first nor the last character is whitespace. */
  predicate Trimmed(s: string) {
    s == [] || (!IsSpace(s[0]) && !IsSpace(s[|s| - 1]))
  }

  /** Number of leading whitespace characters. */
  function LeadingSpace(s: string): (a: nat)
    ensures a <= |s|
    ensures forall k :: 0 <= k < a ==> IsSpace(s[k])
    ensures a < |s| ==> !IsSpace(s[a])
  {
    if s == [] || !IsSpace(s[0]) then 0 else 1 + LeadingSpace(s[1..])
  }

  /** Position where the trailing whitespace starts. */
  function TrailingStart(s: string): (b: nat)
    ensures b <= |s|
    ensures forall k :: b <= k < |s| ==> IsSpace(s[k])
    ensures b > 0 ==> !IsSpace(s[b - 1])
  {
    if s == [] || !IsSpace(s[|s| - 1]) then |s| else TrailingStart(s[..|s| - 1])
  }

  /** Python's `s.strip()`: the slice of `s` left after removing whitespace at both ends. */
  function Strip(s: string): (r: string)
    ensures Trimmed(r)
    ensures r == [] <==> AllSpace(s)
    ensures r != [] ==> LeadingSpace(s) + |r| <= |s|
    ensures r != [] ==> r == s[LeadingSpace(s)..LeadingSpace(s) + |r|]
    ensures r != [] ==> AllSpace(s[LeadingSpace(s) + |r|..])
  {
    var a, b := LeadingSpace(s), TrailingStart(s);
    if a < b then s[a..b] else []
  }

  lemma StripTrimmed(s: string)
    requires Trimmed(s)
    ensures Strip(s) == s
  {
  }

  /** `Strip` removes whitespace only, so a slice of the input keeps the input's spacing. */
  lemma StripKeepsNoDoubleSpace(s: string)
    requires NoDoubleSpace(s)
    ensures NoDoubleSpace(Strip(s))
  {
    var r := Strip(s);
    if r != [] {
      var a := LeadingSpace(s);
      forall k | 0 <= k < |r| - 1 ensures !(IsSpace(r[k]) && IsSpace(r[k + 1])) {
        assert r[k] == s[a + k] && r[k + 1] == s[a + k + 1];
      }
    }
  }

  /** A non-whitespace character of `s` survives `Strip`. */
  lemma StripKeepsNonSpace(s: string, c: char)
    requires c in s && !IsSpace(c)
    ensures c in Strip(s)
  {
    var m :| 0 <= m < |s| && s[m] == c;
    var a := LeadingSpace(s);
    var r := Strip(s);
    assert a <= m;
    assert r != [] by { assert !AllSpace(s); }
    assert m < a + |r|;
    assert r[m - a] == c;
  }

  /** A string with a non-whitespace character does not strip to nothing. */
  lemma StripNonBlank(s: string, k: nat)
    requires k < |s| && !IsSpace(s[k])
    ensures Strip(s) != []
  {
  }

  /** `Strip` only removes characters: whatever it keeps was in the input. */
  lemma StripMember(s: string, c: char)
    ensures c in Strip(s) ==> c in s
  {
    var r := Strip(s);
    if c in r {
      var m :| 0 <= m < |r| && r[m] == c;
      assert s[LeadingSpace(s) + m] == c;
    }
  }

  /** The characters of `s` that are not whitespace, in order. */
  function Visible(s: string): string {
    if s == [] then [] else (if IsSpace(s[0]) then [] else [s[0]]) + Visible(s[1..])
  }

  lemma {:induction false} VisibleAppend(a: string, b: string)
    ensures Visible(a + b) == Visible(a) + Visible(b)
    decreases |a|
  {
    if a == [] {
      assert a + b == b;
    } else {
      assert (a + b)[1..] == a[1..] + b;
      VisibleAppend(a[1..], b);
    }
  }

  /** A character in front adds itself to what is visible, unless it is whitespace. */
  lemma VisibleCons(c: char, u: string)
    ensures Visible([c] + u) == if IsSpace(c) then Visible(u) else [c] + Visible(u)
  {
    assert ([c] + u)[1..] == u;
  }

  /** Skipping a stretch of whitespace hides nothing. */
  lemma {:induction false} VisibleSkipSpace(s: string, i: nat, j: nat)
    requires i <= j <= |s|
    requires forall k :: i <= k < j ==> IsSpace(s[k])
    ensures Visible(s[i..]) == Visible(s[j..])
    decreases j - i
  {
    if i < j {
      VisibleSkipSpace(s, i + 1, j);
      assert s[i..] == [s[i]] + s[i + 1..];
      VisibleCons(s[i], s[i + 1..]);
    }
  }

  lemma {:induction false} VisibleAllSpace(s: string)
    requires AllSpace(s)
    ensures Visible(s) == []
    decreases |s|
  {
    if s != [] {
      VisibleAllSpace(s[1..]);
    }
  }

  /** `Strip` removes whitespace only: every other character stays, in order. */
  lemma StripKeepsVisible(s: string)
    ensures Visible(Strip(s)) == Visible(s)
  {
    var r := Strip(s);
    if r == [] {
      VisibleAllSpace(s);
    } else {
      var a := LeadingSpace(s);
      var head, tail := s[..a], s[a + |r|..];
      assert s == head + (r + tail);
      VisibleAllSpace(head);
      VisibleAllSpace(tail);
      VisibleAppend(head, r + tail);
      VisibleAppend(r, tail);
    }
  }

  /** Index of the first occurrence of `c`. */
  function IndexOf(s: string, c: char): (k: nat)
    requires c in s
    ensures k < |s| && s[k] == c && c !in s[..k]
  {
    if s[0] == c then 0 else 1 + IndexOf(s[1..], c)
  }

  /** Python's `sep.join(parts)`. */
  function Join(parts: seq<string>, sep: string): string {
    if |parts| == 0 then ""
    else if |parts| == 1 then parts[0]
    else parts[0] + sep + Join(parts[1..], sep)
  }

  /** A join of non-empty parts starts with the first part's first character and ends with the last part's last. */
  lemma {:induction false} JoinEnds(parts: seq<string>, sep: string)
    requires |parts| >= 1 && forall k :: 0 <= k < |parts| ==> parts[k] != []
    ensures var j, last := Join(parts, sep), parts[|parts| - 1];
      |j| > 0 && j[0] == parts[0][0] && j[|j| - 1] == last[|last| - 1]
  {
    if |parts| > 1 {
      var tail := parts[1..];
      JoinEnds(tail, sep);
      var rest := Join(tail, sep);
      var j := parts[0] + sep + rest;
      assert Join(parts, sep) == j;
      assert j[0] == parts[0][0];
      assert j[|j| - 1] == rest[|rest| - 1];
      assert tail[|tail| - 1] == parts[|parts| - 1];
    }
  }

  /** Joining trimmed non-empty parts gives a trimmed string. */
  lemma JoinTrimmed(parts: seq<string>, sep: string)
    requires forall k :: 0 <= k < |parts| ==> parts[k] != [] && Trimmed(parts[k])
    ensures Trimmed(Join(parts, sep))
  {
    if |parts| > 0 { JoinEnds(parts, sep); }
  }

  /** Python's `s.split(c)` for a one-character separator: the pieces between the separators. */
  function Split(s: string, c: char): (r: seq<string>)
    ensures |r| >= 1
    ensures forall k :: 0 <= k < |r| ==> c !in r[k]
    ensures Join(r, [c]) == s
    decreases |s|
  {
    if c !in s then [s]
    else
      var k := IndexOf(s, c);
      var rest := Split(s[k + 1..], c);
      assert s == s[..k] + [c] + s[k + 1..];
      [s[..k]] + rest
  }

  /** Joining two or more parts puts the separator in. */
  lemma JoinHasSep(parts: seq<string>, c: char)
    requires |parts| >= 2
    ensures c in Join(parts, [c])
  {
    assert Join(parts, [c])[|parts[0]|] == c;
  }

  /** The first separator of `p0 + [c] + tail` is the one after `p0`. */
  lemma SplitFirst(p0: string, c: char, tail: string)
    requires c !in p0
    ensures Split(p0 + [c] + tail, c) == [p0] + Split(tail, c)
  {
    var s := p0 + [c] + tail;
    assert s[|p0|] == c;
    var k := IndexOf(s, c);
    forall m | 0 <= m < k ensures s[m] != c {
      assert s[..k][m] == s[m];
    }
    forall m | 0 <= m < |p0| ensures s[m] != c {
      assert s[m] == p0[m];
    }
    assert k == |p0|;
    assert s[..k] == p0;
    assert s[k + 1..] == tail;
  }

  /** Splitting undoes joining: `Split` is the unique decomposition of a string at its separators. */
  lemma {:induction false} SplitJoin(parts: seq<string>, c: char)
    requires |parts| >= 1
    requires forall k :: 0 <= k < |parts| ==> c !in parts[k]
    ensures Split(Join(parts, [c]), c) == parts
  {
    if |parts| > 1 {
      var tail := Join(parts[1..], [c]);
      assert Join(parts, [c]) == parts[0] + [c] + tail;
      SplitFirst(parts[0], c, tail);
      SplitJoin(parts[1..], c);
      assert parts == [parts[0]] + parts[1..];
    }
  }

  /** `x` occurs in `t` at position `i`. */
  predicate OccursAt(x: string, t: string, i: nat) {
    i + |x| <= |t| && t[i..i + |x|] == x
  }

  /** A piece of a piece occurs in the whole text. */
  lemma OccursWithin(x: string, y: string, i: nat, t: string, o: nat)
    requires OccursAt(x, y, i) && OccursAt(y, t, o)
    ensures OccursAt(x, t, o + i)
  {
    forall m | 0 <= m < |x| ensures t[o + i + m] == x[m] {
      assert y[i + m] == x[m];
      assert t[o + (i + m)] == y[i + m];
    }
    assert t[o + i..o + i + |x|] == x;
  }

  /** A string occurs at the start of any extension of it. */
  lemma OccursPrefix(x: string, rest: string)
    ensures OccursAt(x, x + rest, 0)
  {
    assert (x + rest)[..|x|] == x;
  }

  /** Text put in front moves an occurrence right by its length. */
  lemma OccursShift(x: string, t: string, i: nat, before: string)
    requires OccursAt(x, t, i)
    ensures OccursAt(x, before + t, |before| + i)
  {
    assert (before + t)[|before| + i..|before| + i + |x|] == t[i..i + |x|];
  }

  /** Text put behind keeps an occurrence where it is. */
  lemma OccursExtend(x: string, t: string, i: nat, after: string)
    requires OccursAt(x, t, i)
    ensures OccursAt(x, t + after, i)
  {
    assert (t + after)[i..i + |x|] == t[i..i + |x|];
  }

  /** An occurrence inside `pre` is carried into `facts + sep + pre + post`. */
  lemma Framed(facts: string, sep: string, pre: string, post: string, i: nat, x: string)
    requires OccursAt(x, pre, i)
    ensures OccursAt(x, facts + sep + pre + post, |facts| + |sep| + i)
  {
    OccursShift(x, pre, i, facts + sep);
    OccursExtend(x, facts + sep + pre, |facts + sep| + i, post);
  }

  /** Whitespace in front of a trimmed, non-empty string is all that `strip` removes. */
  lemma StripPadded(pad: string, e: string)
    requires AllSpace(pad) && e != [] && Trimmed(e)
    ensures Strip(pad + e) == e
  {
    var s := pad + e;
    var a, b := LeadingSpace(s), TrailingStart(s);
    assert forall k :: 0 <= k < |pad| ==> s[k] == pad[k];
    assert s[|pad|] == e[0] && s[|s| - 1] == e[|e| - 1];
    assert a == |pad| && b == |s|;
    assert s[a..b] == e;
  }

  /** The parts after the first, each with `pad` in front. */
  function Padded(es: seq<string>, pad: string): seq<string>
    requires |es| >= 1
  {
    seq(|es|, m requires 0 <= m < |es| => if m == 0 then es[0] else pad + es[m])
  }

  /** Joining with `c` followed by `pad` is joining the padded parts with `c` alone. */
  lemma {:induction false} JoinPadded(es: seq<string>, c: char, pad: string)
    requires |es| >= 1
    ensures Join(es, [c] + pad) == Join(Padded(es, pad), [c])
  {
    if |es| >= 2 {
      var tail := es[1..];
      JoinPadded(tail, c, pad);
      var p, q := Padded(es, pad), Padded(tail, pad);
      assert p[1..] == [pad + q[0]] + q[1..];
      JoinFirstPrefixed(q, pad, [c]);
      assert Join(es, [c] + pad) == es[0] + ([c] + pad) + Join(tail, [c] + pad);
    }
  }

  /** Putting `x` in front of the first part puts it in front of the join. */
  lemma JoinFirstPrefixed(q: seq<string>, x: string, sep: string)
    requires |q| >= 1
    ensures Join([x + q[0]] + q[1..], sep) == x + Join(q, sep)
  {
    var r := [x + q[0]] + q[1..];
    if |q| >= 2 {
      assert r[1..] == q[1..];
    }
  }

  // ---------------------------------------------------------------------------
  // Writing a string character by character

  /** Each character replaced by `f` of it, the results concatenated in order. */
  function ConcatMap(s: string, f: char -> string): string {
    if s == [] then [] else f(s[0]) + ConcatMap(s[1..], f)
  }

  /** A string split before a character, and that character split off the rest, is split after the character. */
  lemma MiddleChar(t: string, a: string, u: string, c: char, w: string, y: string)
    requires t == a + u && u == [c] + w && y == a + [c]
    ensures t == y + w
  {
  }

  /** A slice grows by the character at its end. */
  lemma SliceSnoc(s: string, i: nat, j: nat)
    requires i <= j < |s|
    ensures s[i..j + 1] == s[i..j] + [s[j]]
  {
  }

  /** Writing a string is writing its two halves one after the other. */
  lemma {:induction false} ConcatMapAt(s: string, j: nat, f: char -> string)
    requires j <= |s|
    ensures ConcatMap(s, f) == ConcatMap(s[..j], f) + ConcatMap(s[j..], f)
  {
    if j > 0 {
      var head, rest := s[..j], s[1..];
      ConcatMapAt(rest, j - 1, f);
      assert rest[..j - 1] == head[1..];
      assert rest[j - 1..] == s[j..];
      assert ConcatMap(head, f) == f(s[0]) + ConcatMap(head[1..], f);
    } else {
      assert s[j..] == s;
    }
  }

  /** Characters that `f` writes as themselves come out unchanged. */
  lemma {:induction false} ConcatMapSelf(s: string, f: char -> string)
    requires forall k :: 0 <= k < |s| ==> f(s[k]) == [s[k]]
    ensures ConcatMap(s, f) == s
  {
    if s != [] {
      ConcatMapSelf(s[1..], f);
      assert s == [s[0]] + s[1..];
    }
  }

  /** A middle part written as itself sits unchanged between the written ends. */
  lemma ConcatMapSplit(s: string, j: nat, e: nat, f: char -> string)
    requires j <= e <= |s|
    requires forall k :: j <= k < e ==> f(s[k]) == [s[k]]
    ensures ConcatMap(s, f) == ConcatMap(s[..j], f) + (s[j..e] + ConcatMap(s[e..], f))
  {
    var y, z, rest := s[j..e], s[e..], s[j..];
    forall k | 0 <= k < |y| ensures f(y[k]) == [y[k]] {
      assert y[k] == s[j + k];
    }
    ConcatMapSelf(y, f);
    assert rest[..e - j] == y && rest[e - j..] == z;
    ConcatMapAt(rest, e - j, f);
    assert ConcatMap(rest, f) == y + ConcatMap(z, f);
    ConcatMapAt(s, j, f);
  }

  lemma ConcatMapFirst(s: string, f: char -> string)
    requires s != [] && f(s[0]) != []
    ensures var t := ConcatMap(s, f);
      t != [] && t[0] == f(s[0])[0]
  {
  }

  lemma ConcatMapLast(s: string, f: char -> string)
    requires s != [] && f(s[|s| - 1]) != []
    ensures var t, w := ConcatMap(s, f), f(s[|s| - 1]);
      t != [] && t[|t| - 1] == w[|w| - 1]
  {
    var n := |s| - 1;
    ConcatMapAt(s, n, f);
    assert ConcatMap(s[n..], f) == f(s[n]) + ConcatMap(s[n..][1..], f);
    assert s[n..][1..] == [];
  }
}
