/**
 * Keeping the flagged entries of a list in order: the shape shared by the
 * notebook's list comprehensions with an `if` and by the prompt's "one line
 * per present field".
 */
module Selection {

  /** `[x]` when the flag is set, `[]` otherwise. */
  function When<T>(flag: bool, x: T): seq<T> {
    if flag then [x] else []
  }

  /** The values of the flagged slots, in slot order. */
  function Keep<T>(slots: seq<(bool, T)>): seq<T> {
    if slots == [] then []
    else
      var last := slots[|slots| - 1];
      Keep(slots[..|slots| - 1]) + When(last.0, last.1)
  }

  lemma KeepSnoc<T>(slots: seq<(bool, T)>, slot: (bool, T))
    ensures Keep(slots + [slot]) == Keep(slots) + When(slot.0, slot.1)
  {
    assert (slots + [slot])[..|slots|] == slots;
  }

  /** The positions of the flagged slots. */
  function KeptPositions<T>(slots: seq<(bool, T)>): seq<nat> {
    if slots == [] then []
    else KeptPositions(slots[..|slots| - 1]) + (if slots[|slots| - 1].0 then [|slots| - 1] else [])
  }

  predicate Increasing(idx: seq<nat>) {
    forall a, b :: 0 <= a < b < |idx| ==> idx[a] < idx[b]
  }

  /**
   * `Keep` takes exactly the flagged slots, each once, in their original order:
   * its m-th value is the value of the m-th flagged slot.
   */
  lemma {:induction false} KeepSpec<T>(slots: seq<(bool, T)>)
    ensures var idx, r := KeptPositions(slots), Keep(slots);
      && |idx| == |r|
      && Increasing(idx)
      && (forall m :: 0 <= m < |idx| ==> idx[m] < |slots| && slots[idx[m]].0 && r[m] == slots[idx[m]].1)
      && (forall k :: 0 <= k < |slots| && slots[k].0 ==> k in idx)
  {
    if slots != [] {
      var init := slots[..|slots| - 1];
      KeepSpec(init);
      forall k | 0 <= k < |init| ensures init[k] == slots[k] { }
    }
  }

  /** When every slot is flagged, every value is kept. */
  lemma {:induction false} KeepEverything<T>(slots: seq<(bool, T)>, xs: seq<T>)
    requires |slots| == |xs|
    requires forall k :: 0 <= k < |slots| ==> slots[k] == (true, xs[k])
    ensures Keep(slots) == xs
  {
    if slots != [] {
      var n := |slots| - 1;
      KeepEverything(slots[..n], xs[..n]);
      assert xs == xs[..n] + [xs[n]];
    }
  }

  /** A value is kept exactly when some flagged slot carries it. */
  lemma KeepMember<T>(slots: seq<(bool, T)>, x: T)
    ensures x in Keep(slots) <==> exists k :: 0 <= k < |slots| && slots[k] == (true, x)
  {
    KeepSpec(slots);
    var idx, r := KeptPositions(slots), Keep(slots);
    if x in r {
      var m :| 0 <= m < |r| && r[m] == x;
      assert slots[idx[m]] == (true, x);
    }
    if exists k :: 0 <= k < |slots| && slots[k] == (true, x) {
      var k :| 0 <= k < |slots| && slots[k] == (true, x);
      assert k in idx;
      var m :| 0 <= m < |idx| && idx[m] == k;
      assert r[m] == x;
    }
  }

  /** Every kept value satisfies what every flagged slot's value satisfies. */
  lemma KeepAll<T>(slots: seq<(bool, T)>, P: T -> bool)
    requires forall k :: 0 <= k < |slots| && slots[k].0 ==> P(slots[k].1)
    ensures forall m :: 0 <= m < |Keep(slots)| ==> P(Keep(slots)[m])
  {
    KeepSpec(slots);
  }

  /** How many elements satisfy `P`: a counter bumped once per matching element. */
  function Count<T>(xs: seq<T>, P: T -> bool): nat {
    if xs == [] then 0
    else Count(xs[..|xs| - 1], P) + (if P(xs[|xs| - 1]) then 1 else 0)
  }

  lemma CountSnoc<T>(xs: seq<T>, x: T, P: T -> bool)
    ensures Count(xs + [x], P) == Count(xs, P) + (if P(x) then 1 else 0)
  {
    assert (xs + [x])[..|xs|] == xs;
  }

  /** The count is the number of kept positions: zero exactly when nothing matches, `|xs|` exactly when everything does. */
  lemma {:induction false} CountBounds<T>(xs: seq<T>, P: T -> bool)
    ensures Count(xs, P) <= |xs|
    ensures Count(xs, P) == 0 <==> forall k :: 0 <= k < |xs| ==> !P(xs[k])
    ensures Count(xs, P) == |xs| <==> forall k :: 0 <= k < |xs| ==> P(xs[k])
  {
    if xs != [] {
      var init := xs[..|xs| - 1];
      CountBounds(init, P);
      forall k | 0 <= k < |init| ensures init[k] == xs[k] { }
    }
  }

  /** `[f(x) for x in xs]`. */
  function MapSeq<A, B>(xs: seq<A>, f: A -> B): seq<B> {
    if xs == [] then [] else MapSeq(xs[..|xs| - 1], f) + [f(xs[|xs| - 1])]
  }

  lemma MapSeqSnoc<A, B>(xs: seq<A>, x: A, f: A -> B)
    ensures MapSeq(xs + [x], f) == MapSeq(xs, f) + [f(x)]
  {
    assert (xs + [x])[..|xs|] == xs;
  }

  lemma {:induction false} MapSeqAt<A, B>(xs: seq<A>, f: A -> B, k: nat)
    requires k < |xs|
    ensures |MapSeq(xs, f)| == |xs|
    ensures MapSeq(xs, f)[k] == f(xs[k])
  {
    var n := |xs| - 1;
    MapSeqLength(xs[..n], f);
    if k < n {
      MapSeqAt(xs[..n], f, k);
    }
  }

  lemma {:induction false} MapSeqLength<A, B>(xs: seq<A>, f: A -> B)
    ensures |MapSeq(xs, f)| == |xs|
  {
    if xs != [] {
      MapSeqLength(xs[..|xs| - 1], f);
    }
  }

  /** Counting by two predicates that agree everywhere gives the same count. */
  lemma {:induction false} CountAgree<T>(xs: seq<T>, P: T -> bool, Q: T -> bool)
    requires forall x :: P(x) == Q(x)
    ensures Count(xs, P) == Count(xs, Q)
  {
    if xs != [] {
      CountAgree(xs[..|xs| - 1], P, Q);
    }
  }
}
