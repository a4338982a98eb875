/**
 * Field normalisation over one CSV row: the semicolon-separated list columns
 * and `parse_vitals`, whose result is an insertion-ordered dictionary.
 */
module Fields {
  import opened Wrappers
  import opened Strings
  import opened Selection

  /** `[x.strip() for x in t.split(';') if x.strip()]`, as flagged slots. */
  function ItemSlots(t: string): seq<(bool, string)> {
    var pieces := Split(t, ';');
    seq(|pieces|, k requires 0 <= k < |pieces| => (Strip(pieces[k]) != [], Strip(pieces[k])))
  }

  lemma ItemSlotsShape(t: string)
    ensures forall k :: 0 <= k < |ItemSlots(t)| && ItemSlots(t)[k].0 ==>
      ItemSlots(t)[k].1 != [] && Trimmed(ItemSlots(t)[k].1) && ';' !in ItemSlots(t)[k].1
  {
    var pieces := Split(t, ';');
    forall k | 0 <= k < |pieces| ensures ';' !in Strip(pieces[k]) {
      StripMember(pieces[k], ';');
    }
  }

  /**
   * The list columns (`medical_history`, `medications`): the stripped cell is
   * split at `;` when it holds one, keeping the non-blank stripped pieces;
   * otherwise it is a one-item list, or empty when blank.
   */
  function NormalizeList(cell: string): seq<string> {
    var t := Strip(cell);
    if t != [] && ';' in t then Keep(ItemSlots(t))
    else if t != [] then [t]
    else []
  }

  /**
   * Every item is non-empty, trimmed and free of `;`; a cell without `;` gives
   * its stripped text as the only item, or nothing when blank.
   */
  lemma NormalizeListShape(cell: string)
    ensures var r := NormalizeList(cell);
      && (forall m :: 0 <= m < |r| ==> r[m] != [] && Trimmed(r[m]) && ';' !in r[m])
      && (';' !in Strip(cell) ==> r == (if Strip(cell) == [] then [] else [Strip(cell)]))
  {
    var t := Strip(cell);
    if t != [] && ';' in t {
      ItemSlotsShape(t);
      KeepSpec(ItemSlots(t));
    }
  }

  /**
   * With a `;` in the cell, the list holds every non-blank piece between the
   * separators, stripped, once each and in the order of the cell, and nothing else.
   */
  lemma NormalizeListPieces(cell: string)
    requires ';' in Strip(cell)
    ensures var pieces, r, idx := Split(Strip(cell), ';'), NormalizeList(cell), KeptPositions(ItemSlots(Strip(cell)));
      && |idx| == |r|
      && Increasing(idx)
      && (forall m :: 0 <= m < |idx| ==> idx[m] < |pieces| && r[m] == Strip(pieces[idx[m]]))
      && (forall k :: 0 <= k < |pieces| && Strip(pieces[k]) != [] ==> k in idx)
  {
    KeepSpec(ItemSlots(Strip(cell)));
  }

  lemma ItemSlotsOfItems(t: string, items: seq<string>)
    requires Split(t, ';') == items
    requires forall m :: 0 <= m < |items| ==> items[m] != [] && Trimmed(items[m])
    ensures forall k :: 0 <= k < |ItemSlots(t)| ==> ItemSlots(t)[k] == (true, items[k])
  {
    forall m | 0 <= m < |items| ensures Strip(items[m]) == items[m] { StripTrimmed(items[m]); }
  }

  /**
   * Round trip: writing trimmed, non-empty items separated by `;` and
   * normalising the cell gives the items back.
   */
  lemma NormalizeListJoin(items: seq<string>)
    requires forall m :: 0 <= m < |items| ==> items[m] != [] && Trimmed(items[m]) && ';' !in items[m]
    ensures NormalizeList(Join(items, ";")) == items
  {
    var t := Join(items, ";");
    JoinTrimmed(items, ";");
    StripTrimmed(t);
    if |items| >= 2 {
      JoinHasSep(items, ';');
      KeepItems(t, items);
    } else if |items| == 1 {
      assert items == [t];
    }
  }

  lemma KeepItems(t: string, items: seq<string>)
    requires |items| >= 1 && Join(items, ";") == t
    requires forall m :: 0 <= m < |items| ==> items[m] != [] && Trimmed(items[m]) && ';' !in items[m]
    ensures Keep(ItemSlots(t)) == items
  {
    SplitJoin(items, ';');
    ItemSlotsOfItems(t, items);
    KeepEverything(ItemSlots(t), items);
  }

  // ---------------------------------------------------------------------------
  // Insertion-ordered dictionaries

  /** A Python `dict[str, str]`: its items in insertion order. */
  type Dict = seq<(string, string)>

  predicate DistinctKeys(d: Dict) {
    forall a, b :: 0 <= a < b < |d| ==> d[a].0 != d[b].0
  }

  /** Position of key `k`, if present. */
  function Find(d: Dict, k: string): (r: Option<nat>)
    ensures r.None? <==> forall m :: 0 <= m < |d| ==> d[m].0 != k
    ensures r.Some? ==> r.value < |d| && d[r.value].0 == k && forall m :: 0 <= m < r.value ==> d[m].0 != k
  {
    if d == [] then None
    else if d[0].0 == k then Some(0)
    else match Find(d[1..], k)
      case None => None
      case Some(j) => Some(j + 1)
  }

  /** `d.get(k)`. */
  function Get(d: Dict, k: string): Option<string> {
    match Find(d, k)
    case None => None
    case Some(m) => Some(d[m].1)
  }

  /** `Find` gives the first position holding the key. */
  lemma FindFirst(d: Dict, k: string, x: nat)
    requires x < |d| && d[x].0 == k
    requires forall m :: 0 <= m < x ==> d[m].0 != k
    ensures Find(d, k) == Some(x)
  {
  }

  lemma UpdateOthers(d: Dict, m: nat, k: string, v: string)
    requires Find(d, k) == Some(m)
    ensures Get(d[m := (k, v)], k) == Some(v)
    ensures forall k' :: Get(d[m := (k, v)], k') == if k' == k then Some(v) else Get(d, k')
  {
    var r := d[m := (k, v)];
    forall k' ensures Get(r, k') == if k' == k then Some(v) else Get(d, k') {
      if k' == k {
        FindFirst(r, k, m);
      } else if Find(d, k').Some? {
        FindFirst(r, k', Find(d, k').value);
      }
    }
  }

  lemma AppendOthers(d: Dict, k: string, v: string)
    requires Find(d, k).None?
    ensures forall k' :: Get(d + [(k, v)], k') == if k' == k then Some(v) else Get(d, k')
  {
    var r := d + [(k, v)];
    forall k' ensures Get(r, k') == if k' == k then Some(v) else Get(d, k') {
      if k' == k {
        FindFirst(r, k, |d|);
      } else if Find(d, k').Some? {
        FindFirst(r, k', Find(d, k').value);
      }
    }
  }

  /** `d[k] = v`. */
  function Put(d: Dict, k: string, v: string): Dict {
    match Find(d, k)
    case Some(m) => d[m := (k, v)]
    case None => d + [(k, v)]
  }

  /** After `d[k] = v`, `k` maps to `v` and every other key to what it mapped to before. */
  lemma PutGet(d: Dict, k: string, v: string)
    ensures Get(Put(d, k, v), k) == Some(v)
    ensures forall k' :: k' != k ==> Get(Put(d, k, v), k') == Get(d, k')
  {
    match Find(d, k)
    case Some(m) => UpdateOthers(d, m, k, v);
    case None => AppendOthers(d, k, v);
  }

  /**
   * Python's insertion order: an existing key keeps its position, a new key is
   * appended at the end, and no key is ever repeated.
   */
  lemma PutShape(d: Dict, k: string, v: string)
    ensures var r := Put(d, k, v);
      && |r| == |d| + (if Find(d, k).None? then 1 else 0)
      && (forall m :: 0 <= m < |d| ==> r[m].0 == d[m].0)
      && (Find(d, k).None? ==> r[|d|] == (k, v))
      && (DistinctKeys(d) ==> DistinctKeys(r))
  {
  }

  /** Inserting the pairs one after the other, as a loop of `out[k] = v` or a dict comprehension does. */
  function FromPairs(ps: seq<(string, string)>): Dict {
    if ps == [] then []
    else
      var last := ps[|ps| - 1];
      Put(FromPairs(ps[..|ps| - 1]), last.0, last.1)
  }

  lemma FromPairsSnoc(ps: seq<(string, string)>, i: nat)
    requires i < |ps|
    ensures FromPairs(ps[..i + 1]) == Put(FromPairs(ps[..i]), ps[i].0, ps[i].1)
  {
    assert ps[..i + 1][..i] == ps[..i];
  }

  lemma {:induction false} FromPairsDistinct(ps: seq<(string, string)>)
    ensures DistinctKeys(FromPairs(ps))
  {
    if ps != [] {
      var last := ps[|ps| - 1];
      FromPairsDistinct(ps[..|ps| - 1]);
      PutShape(FromPairs(ps[..|ps| - 1]), last.0, last.1);
    }
  }

  /** A key is present exactly when some pair carries it. */
  lemma {:induction false} FromPairsMissing(ps: seq<(string, string)>, k: string)
    ensures Get(FromPairs(ps), k) == None <==> forall m :: 0 <= m < |ps| ==> ps[m].0 != k
  {
    if ps == [] {
      assert FromPairs(ps) == [];
    } else {
      var init, last := ps[..|ps| - 1], ps[|ps| - 1];
      FromPairsMissing(init, k);
      assert FromPairs(ps) == Put(FromPairs(init), last.0, last.1);
      PutGet(FromPairs(init), last.0, last.1);
      if last.0 == k {
        assert ps[|ps| - 1].0 == k;
      } else {
        forall m | 0 <= m < |init| ensures init[m] == ps[m] { }
      }
    }
  }

  /** Pair `m` is the last one with key `k`, and it carries `v`. */
  predicate LastPairAt(ps: seq<(string, string)>, k: string, v: string, m: int) {
    0 <= m < |ps| && ps[m] == (k, v) && forall m' :: m < m' < |ps| ==> ps[m'].0 != k
  }

  lemma LastPairDrop(ps: seq<(string, string)>, init: seq<(string, string)>, k: string, v: string)
    requires ps != [] && init == ps[..|ps| - 1] && ps[|ps| - 1].0 != k
    ensures (exists m :: LastPairAt(ps, k, v, m)) <==> exists m :: LastPairAt(init, k, v, m)
  {
    var n := |ps| - 1;
    forall m | LastPairAt(init, k, v, m) ensures LastPairAt(ps, k, v, m) {
      forall m' | m < m' < |ps| ensures ps[m'].0 != k {
        if m' < n { assert ps[m'] == init[m']; }
      }
    }
    forall m | LastPairAt(ps, k, v, m) ensures LastPairAt(init, k, v, m) {
      forall m' | m < m' < n ensures init[m'].0 != k {
        assert ps[m'] == init[m'];
      }
    }
  }

  lemma LastPairFinal(ps: seq<(string, string)>, k: string, v: string)
    requires ps != [] && ps[|ps| - 1].0 == k
    ensures (exists m :: LastPairAt(ps, k, v, m)) <==> ps[|ps| - 1].1 == v
  {
    if ps[|ps| - 1].1 == v {
      assert LastPairAt(ps, k, v, |ps| - 1);
    }
  }

  /** The later of two pairs with the same key wins: a key maps to the value of its last pair. */
  lemma {:induction false} FromPairsGet(ps: seq<(string, string)>, k: string, v: string)
    ensures Get(FromPairs(ps), k) == Some(v) <==> exists m :: LastPairAt(ps, k, v, m)
  {
    if ps != [] {
      var n := |ps| - 1;
      FromPairsGet(ps[..n], k, v);
      PutGet(FromPairs(ps[..n]), ps[n].0, ps[n].1);
      if ps[n].0 == k {
        LastPairFinal(ps, k, v);
      } else {
        LastPairDrop(ps, ps[..n], k, v);
      }
    }
  }

  // ---------------------------------------------------------------------------
  // parse_vitals

  /** `[p.strip() for p in t.split(';') if ':' in p]`, as flagged slots. */
  function ColonSlots(t: string): seq<(bool, string)> {
    var pieces := Split(t, ';');
    seq(|pieces|, k requires 0 <= k < |pieces| => (':' in pieces[k], Strip(pieces[k])))
  }

  lemma ColonSlotsHaveColon(t: string)
    ensures forall k :: 0 <= k < |ColonSlots(t)| && ColonSlots(t)[k].0 ==> ':' in ColonSlots(t)[k].1
  {
    var pieces := Split(t, ';');
    forall k | 0 <= k < |pieces| && ':' in pieces[k] ensures ':' in Strip(pieces[k]) {
      StripKeepsNonSpace(pieces[k], ':');
    }
  }

  lemma KeptColonSlots(t: string)
    ensures forall m :: 0 <= m < |Keep(ColonSlots(t))| ==> ':' in Keep(ColonSlots(t))[m]
  {
    ColonSlotsHaveColon(t);
    KeepSpec(ColonSlots(t));
  }

  /** The stripped `;`-separated segments that hold a colon. */
  function ColonSegments(t: string): (r: seq<string>)
    ensures forall m :: 0 <= m < |r| ==> ':' in r[m]
  {
    KeptColonSlots(t);
    Keep(ColonSlots(t))
  }

  /** `k, v = p.split(':', 1)`, both stripped: the key is what precedes the first colon. */
  function SplitPair(p: string): (kv: (string, string))
    requires ':' in p
    ensures ':' !in kv.0
  {
    var c := IndexOf(p, ':');
    StripMember(p[..c], ':');
    (Strip(p[..c]), Strip(p[c + 1..]))
  }

  function PairsOf(segments: seq<string>): seq<(string, string)>
    requires forall m :: 0 <= m < |segments| ==> ':' in segments[m]
  {
    seq(|segments|, m requires 0 <= m < |segments| => SplitPair(segments[m]))
  }

  /**
   * What `parse_vitals` returns. `json` stands for `json.loads` followed by the
   * `isinstance(d, dict)` test and `str(v)` on each value: `Some(items)` when the
   * stripped cell is a JSON object, `None` when it raises or is not an object.
   */
  function VitalsOf(cell: Value, json: string -> Option<Dict>): Dict {
    match cell
    case NonString(_) => []
    case Str(raw) =>
      var t := Strip(raw);
      match json(t)
      case Some(items) => FromPairs(items)
      case None => FromPairs(PairsOf(ColonSegments(t)))
  }

  /** The parsed vitals never repeat a key. */
  lemma VitalsDistinct(cell: Value, json: string -> Option<Dict>)
    ensures DistinctKeys(VitalsOf(cell, json))
  {
    if cell.Str? {
      var t := Strip(cell.s);
      if json(t).Some? {
        FromPairsDistinct(json(t).value);
      } else {
        FromPairsDistinct(PairsOf(ColonSegments(t)));
      }
    }
  }

  /**
   * `parse_vitals`: a non-string gives the empty dict; a JSON object gives its
   * items; otherwise each `key:value` segment sets `key` to `value`, later
   * segments overwriting earlier ones. The result never repeats a key.
   */
  method ParseVitals(cell: Value, json: string -> Option<Dict>) returns (out: Dict)
    ensures out == VitalsOf(cell, json)
    ensures DistinctKeys(out)
    ensures cell.NonString? ==> out == []
  {
    if !cell.Str? {
      return [];
    }
    var t := Strip(cell.s);
    var d := json(t);
    if d.Some? {
      out := FromPairs(d.value);
      FromPairsDistinct(d.value);
      return;
    }
    var segments := ColonSegments(t);
    ghost var ps := PairsOf(segments);
    out := [];
    for i := 0 to |segments|
      invariant out == FromPairs(ps[..i])
    {
      var kv := SplitPair(segments[i]);
      FromPairsSnoc(ps, i);
      out := Put(out, kv.0, kv.1);
    }
    assert ps[..|segments|] == ps;
    FromPairsDistinct(ps);
  }

  /** A dict whose keys are all different is rebuilt unchanged by inserting its items in order. */
  lemma {:induction false} FromPairsDistinctKeys(ps: seq<(string, string)>)
    requires DistinctKeys(ps)
    ensures FromPairs(ps) == ps
  {
    if ps != [] {
      var n := |ps| - 1;
      var init := ps[..n];
      assert DistinctKeys(init) by {
        forall a, b | 0 <= a < b < n ensures init[a].0 != init[b].0 { assert init[a] == ps[a] && init[b] == ps[b]; }
      }
      FromPairsDistinctKeys(init);
      assert Find(init, ps[n].0).None? by {
        forall m | 0 <= m < n ensures init[m].0 != ps[n].0 { assert init[m] == ps[m]; }
      }
      assert FromPairs(ps) == init + [(ps[n].0, ps[n].1)];
      assert init + [ps[n]] == ps;
    }
  }

  /** `key:value`, the text form the fallback parser reads. */
  function Entry(kv: (string, string)): string {
    kv.0 + ":" + kv.1
  }

  function Entries(ps: seq<(string, string)>): seq<string> {
    seq(|ps|, m requires 0 <= m < |ps| => Entry(ps[m]))
  }

  /** A pair the fallback parser can read back: trimmed, no `;`, no `:` in the key. */
  predicate WritablePair(kv: (string, string)) {
    Trimmed(kv.0) && Trimmed(kv.1) && ':' !in kv.0 && ';' !in kv.0 && ';' !in kv.1
  }

  predicate Writable(ps: seq<(string, string)>) {
    forall m :: 0 <= m < |ps| ==> WritablePair(ps[m])
  }

  lemma EntryShape(kv: (string, string))
    requires WritablePair(kv)
    ensures var e := Entry(kv);
      && e != [] && Trimmed(e) && ';' !in e && ':' in e && IndexOf(e, ':') == |kv.0|
      && SplitPair(e) == kv
  {
    var e := Entry(kv);
    assert e[|kv.0|] == ':';
    var c := IndexOf(e, ':');
    assert e[..c] == kv.0;
    assert e[c + 1..] == kv.1;
    StripTrimmed(kv.0);
    StripTrimmed(kv.1);
  }

  lemma EntriesShape(ps: seq<(string, string)>)
    requires Writable(ps)
    ensures var es := Entries(ps);
      && (forall m :: 0 <= m < |es| ==> es[m] != [] && Trimmed(es[m]) && ';' !in es[m] && ':' in es[m])
      && PairsOf(es) == ps
  {
    var es := Entries(ps);
    forall m | 0 <= m < |ps| ensures es[m] != [] && Trimmed(es[m]) && ';' !in es[m] && ':' in es[m] && SplitPair(es[m]) == ps[m] {
      EntryShape(ps[m]);
    }
  }

  /**
   * Segments that are trimmed and all hold a colon, joined by `;` and some
   * whitespace, are all kept, unchanged.
   */
  lemma ColonSegmentsOfJoin(es: seq<string>, pad: string)
    requires |es| >= 1 && AllSpace(pad) && ';' !in pad
    requires forall m :: 0 <= m < |es| ==> es[m] != [] && Trimmed(es[m]) && ';' !in es[m] && ':' in es[m]
    ensures ColonSegments(Join(es, ";" + pad)) == es
  {
    var pieces := Padded(es, pad);
    JoinPadded(es, ';', pad);
    PaddedPieces(es, pad);
    SplitJoin(pieces, ';');
    KeepEverything(ColonSlots(Join(es, ";" + pad)), es);
  }

  lemma PaddedPieces(es: seq<string>, pad: string)
    requires |es| >= 1 && AllSpace(pad) && ';' !in pad
    requires forall m :: 0 <= m < |es| ==> es[m] != [] && Trimmed(es[m]) && ';' !in es[m] && ':' in es[m]
    ensures var pieces := Padded(es, pad);
      forall m :: 0 <= m < |es| ==> ';' !in pieces[m] && ':' in pieces[m] && Strip(pieces[m]) == es[m]
  {
    var pieces := Padded(es, pad);
    forall m | 0 <= m < |es| ensures ';' !in pieces[m] && ':' in pieces[m] && Strip(pieces[m]) == es[m] {
      if m == 0 {
        StripTrimmed(es[m]);
      } else {
        StripPadded(pad, es[m]);
        assert pieces[m] == pad + es[m];
      }
    }
  }

  /**
   * Round trip for the fallback path: writing the pairs as `key:value` joined
   * by `;` and optional whitespace, a cell that is not JSON parses back to the
   * pairs inserted in order, which is the dict itself when its keys are all different.
   */
  lemma VitalsJoin(ps: seq<(string, string)>, pad: string, json: string -> Option<Dict>)
    requires Writable(ps) && AllSpace(pad) && ';' !in pad
    requires json(Join(Entries(ps), ";" + pad)) == None
    ensures VitalsOf(Str(Join(Entries(ps), ";" + pad)), json) == FromPairs(ps)
    ensures DistinctKeys(ps) ==> VitalsOf(Str(Join(Entries(ps), ";" + pad)), json) == ps
  {
    var es := Entries(ps);
    EntriesShape(ps);
    var t := Join(es, ";" + pad);
    JoinTrimmed(es, ";" + pad);
    StripTrimmed(t);
    if ps == [] {
      assert ColonSlots(t) == [(false, "")];
    } else {
      ColonSegmentsOfJoin(es, pad);
    }
    if DistinctKeys(ps) { FromPairsDistinctKeys(ps); }
  }

  // ---------------------------------------------------------------------------
  // Worked cells

  /** A two-item history cell becomes its two items. */
  lemma HistoryCellExample()
    ensures NormalizeList("diabetes;hypertension") == ["diabetes", "hypertension"]
  {
    var items := ["diabetes", "hypertension"];
    assert Join(items, ";") == "diabetes;hypertension";
    NormalizeListJoin(items);
  }

  /** The pairs of the worked vitals cell can be written back and do not repeat a key. */
  lemma VitalsCellPairs()
    ensures Writable([("bp", "120/80"), ("hr", "72")])
    ensures DistinctKeys([("bp", "120/80"), ("hr", "72")])
  {
  }

  lemma VitalsCellText()
    ensures Join(Entries([("bp", "120/80"), ("hr", "72")]), "; ") == "bp:120/80; hr:72"
  {
  }

  /** A `key:value` cell that is not JSON: both pairs, keys and values stripped, in cell order. */
  lemma VitalsCellExample(json: string -> Option<Dict>)
    requires json("bp:120/80; hr:72") == None
    ensures VitalsOf(Str("bp:120/80; hr:72"), json) == [("bp", "120/80"), ("hr", "72")]
  {
    VitalsCellPairs();
    VitalsCellText();
    assert ";" + " " == "; ";
    VitalsJoin([("bp", "120/80"), ("hr", "72")], " ", json);
  }

  /** A blank vitals cell gives the empty dict (`json.loads` raises on it). */
  lemma BlankVitalsExample(json: string -> Option<Dict>)
    requires json("") == None
    ensures VitalsOf(Str(""), json) == []
  {
    assert ColonSlots("") == [(false, "")];
  }
}
