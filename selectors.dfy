/** The selector generator (`SelectorGenerator`): five strategies, tried in a
    fixed priority order, each proposing a CSS selector for an element with a
    confidence; the first that validates becomes the primary selector and the
    later ones its fallbacks. */
module Selectors {
  import opened Common
  import opened Dom
  import opened Dynamic
  import opened Escaping

  datatype Strategy = UniqueId | StableAttributes | StableClasses | StructuralPath
                    | PositionFallback | TagOnly

  /** What one strategy proposes; `confidence` is in tenths. */
  datatype Candidate = Candidate(selector: string, confidence: nat, strategy: Strategy)

  /** What `generateSelector` returns: `selector` None is the `null` selector. */
  datatype Generated = Generated(
    selector: Option<string>,
    confidence: nat,
    strategy: Option<Strategy>,
    fallbacks: seq<string>)

  /** `isValidSelector`: the selector parses and the target is among its
      matches. Uniqueness is not required. */
  predicate IsValidSelector(d: Document, sel: string, e: ElemId) {
    match d.matches(sel)
    case None => false
    case Some(m) => |m| > 0 && e in m
  }

  function TagName(d: Document, e: ElemId): string
    requires e in d.elems
  {
    Lower(d.elems[e].tag)
  }

  // ------------------------------------------------------------ unique id

  /** `generateByUniqueId` */
  function ByUniqueId(d: Document, e: ElemId): (r: Option<Candidate>)
    requires e in d.elems
    ensures IsDynamicValue(d.elems[e].id) ==> r.None?
    ensures r.Some? ==> r.value == Candidate("#" + EscapeSelector(d.elems[e].id), 9, UniqueId)
    ensures r.Some? <==>
      (!IsDynamicValue(d.elems[e].id) && d.matches("#" + EscapeSelector(d.elems[e].id)) == Some({e}))
  {
    var id := d.elems[e].id;
    if IsDynamicValue(id) then None
    else
      var sel := "#" + EscapeSelector(id);
      match d.matches(sel)
      case None => None
      case Some(m) => if m == {e} then Some(Candidate(sel, 9, UniqueId)) else None
  }

  // ---------------------------------------------------- stable attributes

  function AttributePart(name: string, value: string): string {
    "[" + name + "=\"" + EscapeAttributeValue(value) + "\"]"
  }

  predicate StableDataAttribute(a: (string, string)) {
    StartsWith(a.0, "data-") && !IsDynamicValue(a.1) && a.0 !in IgnoredAttributes
  }

  /** The parts the first loop collects from `element.attributes`, in order. */
  function DataParts(attrs: seq<(string, string)>): (r: seq<string>)
    ensures |r| <= |attrs|
  {
    if attrs == [] then []
    else
      var a := attrs[|attrs| - 1];
      DataParts(attrs[..|attrs| - 1]) + (if StableDataAttribute(a) then [AttributePart(a.0, a.1)] else [])
  }

  const StableAttributeNames: seq<string> := ["name", "type", "role", "aria-label"]

  /** The parts the second loop collects: each listed attribute that is present,
      non-empty and not dynamic. */
  function NamedParts(attrs: seq<(string, string)>, names: seq<string>): (r: seq<string>)
    ensures |r| <= |names|
  {
    if names == [] then []
    else
      var n := names[|names| - 1];
      var rest := NamedParts(attrs, names[..|names| - 1]);
      match GetAttribute(attrs, n)
      case Some(v) => if v != "" && !IsDynamicValue(v) then rest + [AttributePart(n, v)] else rest
      case None => rest
  }

  /** The first loop is an order-preserving filter: it distributes over
      concatenation (a single attribute contributing its part exactly when it is
      a stable `data-` attribute, `DataPartsSingle`). */
  lemma {:induction false} DataPartsConcat(a: seq<(string, string)>, b: seq<(string, string)>)
    ensures DataParts(a + b) == DataParts(a) + DataParts(b)
    decreases |b|
  {
    if b == [] {
      assert a + b == a;
    } else {
      var init, x := b[..|b| - 1], b[|b| - 1];
      assert (a + b)[..|a + b| - 1] == a + init && (a + b)[|a + b| - 1] == x;
      var last := if StableDataAttribute(x) then [AttributePart(x.0, x.1)] else [];
      assert DataParts(a + b) == DataParts(a + init) + last;
      assert DataParts(b) == DataParts(init) + last;
      DataPartsConcat(a, init);
      assert (DataParts(a) + DataParts(init)) + last == DataParts(a) + (DataParts(init) + last);
    }
  }

  lemma DataPartsSingle(x: (string, string))
    ensures DataParts([x]) == if StableDataAttribute(x) then [AttributePart(x.0, x.1)] else []
  {
    assert [x][..0] == [];
  }

  /** A value the second loop keeps: present, non-empty and not dynamic. */
  predicate KeptValue(v: Option<string>) {
    v.Some? && v.value != "" && !IsDynamicValue(v.value)
  }

  /** The second loop is an order-preserving filter over the listed names (a
      single name contributing its part exactly when its value is kept,
      `NamedPartsSingle`). */
  lemma {:induction false} NamedPartsConcat(attrs: seq<(string, string)>, a: seq<string>, b: seq<string>)
    ensures NamedParts(attrs, a + b) == NamedParts(attrs, a) + NamedParts(attrs, b)
    decreases |b|
  {
    if b == [] {
      assert a + b == a;
    } else {
      var init, n := b[..|b| - 1], b[|b| - 1];
      assert (a + b)[..|a + b| - 1] == a + init && (a + b)[|a + b| - 1] == n;
      var v := GetAttribute(attrs, n);
      var last := if KeptValue(v) then [AttributePart(n, v.value)] else [];
      assert NamedParts(attrs, a + b) == NamedParts(attrs, a + init) + last;
      assert NamedParts(attrs, b) == NamedParts(attrs, init) + last;
      NamedPartsConcat(attrs, a, init);
      assert (NamedParts(attrs, a) + NamedParts(attrs, init)) + last
        == NamedParts(attrs, a) + (NamedParts(attrs, init) + last);
    }
  }

  lemma NamedPartsSingle(attrs: seq<(string, string)>, n: string)
    ensures NamedParts(attrs, [n]) ==
      if KeptValue(GetAttribute(attrs, n)) then [AttributePart(n, GetAttribute(attrs, n).value)] else []
  {
    assert [n][..0] == [];
  }

  /** The candidate `generateByStableAttributes` proposes. */
  function ByStableAttributes(d: Document, e: ElemId): (r: Option<Candidate>)
    requires e in d.elems
  {
    var attrs := d.elems[e].attributes;
    var parts := DataParts(attrs) + NamedParts(attrs, StableAttributeNames);
    if parts == [] then None
    else
      var sel := TagName(d, e) + Join(parts, "");
      if IsValidSelector(d, sel, e) then Some(Candidate(sel, 8, StableAttributes)) else None
  }

  /** `generateByStableAttributes`, with its two collecting loops. */
  method GenerateByStableAttributes(d: Document, e: ElemId) returns (r: Option<Candidate>)
    requires e in d.elems
    ensures r == ByStableAttributes(d, e)
    ensures r.Some? ==> IsValidSelector(d, r.value.selector, e) && r.value.confidence == 8
  {
    var attrs := d.elems[e].attributes;
    var parts: seq<string> := [];
    var i := 0;
    while i < |attrs|
      invariant 0 <= i <= |attrs|
      invariant parts == DataParts(attrs[..i])
    {
      var a := attrs[i];
      assert attrs[..i + 1][..i] == attrs[..i];
      if StartsWith(a.0, "data-") && !IsDynamicValue(a.1) && a.0 !in IgnoredAttributes {
        parts := parts + [AttributePart(a.0, a.1)];
      }
      i := i + 1;
    }
    assert attrs[..|attrs|] == attrs;
    var k := 0;
    ghost var dataParts := parts;
    while k < |StableAttributeNames|
      invariant 0 <= k <= |StableAttributeNames|
      invariant parts == dataParts + NamedParts(attrs, StableAttributeNames[..k])
    {
      var n := StableAttributeNames[k];
      assert StableAttributeNames[..k + 1][..k] == StableAttributeNames[..k];
      var value := GetAttribute(attrs, n);
      if value.Some? && value.value != "" && !IsDynamicValue(value.value) {
        parts := parts + [AttributePart(n, value.value)];
      }
      k := k + 1;
    }
    assert StableAttributeNames[..|StableAttributeNames|] == StableAttributeNames;
    if |parts| == 0 {
      return None;
    }
    var sel := TagName(d, e) + Join(parts, "");
    if IsValidSelector(d, sel, e) {
      r := Some(Candidate(sel, 8, StableAttributes));
    } else {
      r := None;
    }
  }

  // ------------------------------------------------------- stable classes

  /** `classList.filter(cls => !isDynamicClass(cls))`, order kept. */
  function StableClassList(cs: seq<string>): (r: seq<string>)
    ensures forall c :: c in r <==> c in cs && !IsDynamicClass(c)
    ensures |r| <= |cs|
  {
    if cs == [] then []
    else (if IsDynamicClass(cs[0]) then [] else [cs[0]]) + StableClassList(cs[1..])
  }

  /** The class filter keeps order and multiplicity: it distributes over
      concatenation (a single class kept exactly when it is not dynamic,
      `StableClassListSingle`). */
  lemma {:induction false} StableClassListConcat(a: seq<string>, b: seq<string>)
    ensures StableClassList(a + b) == StableClassList(a) + StableClassList(b)
  {
    if a == [] {
      assert a + b == b;
    } else {
      assert (a + b)[0] == a[0] && (a + b)[1..] == a[1..] + b;
      var h := if IsDynamicClass(a[0]) then [] else [a[0]];
      assert StableClassList(a + b) == h + StableClassList(a[1..] + b);
      StableClassListConcat(a[1..], b);
      var p := StableClassList(a[1..]);
      var q := StableClassList(b);
      assert h + (p + q) == (h + p) + q;
    }
  }

  lemma StableClassListSingle(c: string)
    ensures StableClassList([c]) == if IsDynamicClass(c) then [] else [c]
  {
    assert [c][1..] == [];
  }

  /** `combination.map(cls => '.' + escapeSelector(cls)).join('')` */
  function ClassSuffix(combo: seq<string>): string {
    if combo == [] then "" else "." + EscapeSelector(combo[0]) + ClassSuffix(combo[1..])
  }

  /** The single-class combinations, in list order. */
  function Singles(cs: seq<string>): (r: seq<seq<string>>)
    ensures |r| == |cs|
    ensures forall k :: 0 <= k < |cs| ==> r[k] == [cs[k]]
  {
    seq(|cs|, k requires 0 <= k < |cs| => [cs[k]])
  }

  /** The pairs `[cs[i], cs[j]]`, `j` running from `i + 1`, of row `i`. */
  function Row(cs: seq<string>, i: nat): (r: seq<seq<string>>)
    requires i < |cs|
    ensures |r| == |cs| - i - 1
    ensures forall k :: 0 <= k < |r| ==> r[k] == [cs[i], cs[i + 1 + k]]
  {
    seq(|cs| - i - 1, k requires 0 <= k < |cs| - i - 1 => [cs[i], cs[i + 1 + k]])
  }

  /** The pairs of rows `0 .. i - 1`, in row order. */
  function PairsUpTo(cs: seq<string>, i: nat): seq<seq<string>>
    requires i <= |cs|
  {
    if i == 0 then [] else PairsUpTo(cs, i - 1) + Row(cs, i - 1)
  }

  /** The enumeration order of `generateClassCombinations`: singles, then pairs
      in index order, then the whole list when it has at most four classes. */
  function Combinations(cs: seq<string>): seq<seq<string>> {
    Singles(cs) + PairsUpTo(cs, |cs|) + (if |cs| <= 4 then [cs] else [])
  }

  /** `generateClassCombinations`, with its nested loops. */
  method GenerateClassCombinations(cs: seq<string>) returns (combos: seq<seq<string>>)
    ensures combos == Combinations(cs)
  {
    combos := [];
    for k := 0 to |cs|
      invariant combos == Singles(cs)[..k]
    {
      assert Singles(cs)[..k + 1] == Singles(cs)[..k] + [[cs[k]]];
      combos := combos + [[cs[k]]];
    }
    assert Singles(cs)[..|cs|] == Singles(cs);
    for i := 0 to |cs|
      invariant combos == Singles(cs) + PairsUpTo(cs, i)
    {
      ghost var before := combos;
      ghost var row := Row(cs, i);
      for j := i + 1 to |cs|
        invariant combos == before + row[..j - i - 1]
      {
        assert row[..j - i] == row[..j - i - 1] + [[cs[i], cs[j]]];
        assert (before + row[..j - i - 1]) + [[cs[i], cs[j]]] == before + row[..j - i];
        combos := combos + [[cs[i], cs[j]]];
      }
      assert row[..|cs| - i - 1] == row;
      assert PairsUpTo(cs, i + 1) == PairsUpTo(cs, i) + row;
      assert (Singles(cs) + PairsUpTo(cs, i)) + row == Singles(cs) + PairsUpTo(cs, i + 1);
    }
    if |cs| <= 4 {
      combos := combos + [cs];
    }
  }

  lemma {:induction false} PairsUpToLength(cs: seq<string>, i: nat)
    requires i <= |cs|
    ensures 2 * |PairsUpTo(cs, i)| == i * (2 * |cs| - i - 1)
  {
    if i > 0 {
      PairsUpToLength(cs, i - 1);
    }
  }

  /** There are n singles, n(n-1)/2 pairs and the whole list when n <= 4. */
  lemma CombinationsLength(cs: seq<string>)
    ensures 2 * |Combinations(cs)| == 2 * |cs| + |cs| * (|cs| - 1) + (if |cs| <= 4 then 2 else 0)
  {
    PairsUpToLength(cs, |cs|);
  }

  /** Pair `(i, j)`, for `i < j`, appears among the pairs of the rows up to and
      including `i`, at the position the row order gives it. */
  lemma {:induction false} PairInRows(cs: seq<string>, n: nat, i: nat, j: nat)
    requires i < j < |cs| && i < n <= |cs|
    ensures [cs[i], cs[j]] in PairsUpTo(cs, n)
  {
    if n - 1 == i {
      assert Row(cs, i)[j - i - 1] == [cs[i], cs[j]];
      assert [cs[i], cs[j]] in Row(cs, i);
    } else {
      PairInRows(cs, n - 1, i, j);
    }
  }

  /** Every element of the enumeration is a single class, an ordered pair of
      distinct positions, or the whole list. */
  lemma {:induction false} RowsArePairs(cs: seq<string>, n: nat, c: seq<string>)
    requires n <= |cs| && c in PairsUpTo(cs, n)
    ensures exists i, j :: 0 <= i < j < |cs| && c == [cs[i], cs[j]]
  {
    if n > 0 {
      if c in PairsUpTo(cs, n - 1) {
        RowsArePairs(cs, n - 1, c);
      } else {
        var row := Row(cs, n - 1);
        var k :| 0 <= k < |row| && row[k] == c;
        assert c == [cs[n - 1], cs[n - 1 + 1 + k]];
      }
    }
  }

  lemma CombinationsContents(cs: seq<string>)
    ensures forall k :: 0 <= k < |cs| ==> Combinations(cs)[k] == [cs[k]]
    ensures forall i, j :: 0 <= i < j < |cs| ==> [cs[i], cs[j]] in Combinations(cs)
    ensures cs in Combinations(cs) <== |cs| <= 4
    ensures forall c :: c in Combinations(cs) ==>
      (exists k :: 0 <= k < |cs| && c == [cs[k]])
      || (exists i, j :: 0 <= i < j < |cs| && c == [cs[i], cs[j]])
      || (|cs| <= 4 && c == cs)
  {
    var all := Combinations(cs);
    var pairs := PairsUpTo(cs, |cs|);
    assert all == Singles(cs) + pairs + (if |cs| <= 4 then [cs] else []);
    forall i, j | 0 <= i < j < |cs| ensures [cs[i], cs[j]] in all {
      PairInRows(cs, |cs|, i, j);
    }
    forall c | c in all
      ensures (exists k :: 0 <= k < |cs| && c == [cs[k]])
        || (exists i, j :: 0 <= i < j < |cs| && c == [cs[i], cs[j]])
        || (|cs| <= 4 && c == cs)
    {
      if c in Singles(cs) {
        var k :| 0 <= k < |cs| && Singles(cs)[k] == c;
      } else if c in pairs {
        RowsArePairs(cs, |cs|, c);
      }
    }
  }

  /** `calculateClassConfidence`, in tenths: 0.7, less 0.1 per match beyond the
      first, plus 0.1 for a multi-class combination, clamped to [0.3, 0.9]. */
  function ClassConfidence(classCount: nat, matchCount: nat): (r: nat)
    ensures 3 <= r <= 9
  {
    var c := 7 - (if matchCount > 1 then matchCount - 1 else 0) + (if classCount > 1 then 1 else 0);
    Clamp(c, 3, 9)
  }

  /** `Math.max(lo, Math.min(hi, x))` */
  function Clamp(x: int, lo: int, hi: int): (r: int)
    requires lo <= hi
    ensures lo <= r <= hi
    ensures lo <= x <= hi ==> r == x
    ensures x < lo ==> r == lo
    ensures x > hi ==> r == hi
  {
    var m := if x < hi then x else hi;
    if m > lo then m else lo
  }

  /** On the match counts the strategy accepts (one to five) the clamp never
      applies: each extra match costs exactly a tenth, a second class earns one,
      and 0.9 is never reached. */
  lemma ClassConfidenceAccepted(k: nat, m: nat)
    requires 1 <= m <= 5
    ensures ClassConfidence(k, m) == 8 - m + (if k > 1 then 1 else 0)
    ensures ClassConfidence(k, m) <= 8
  {
  }

  /** Fewer matches, or a combination of several classes, never lowers confidence. */
  lemma ClassConfidenceMonotone(k1: nat, m1: nat, k2: nat, m2: nat)
    requires m1 <= m2 && (k2 > 1 ==> k1 > 1)
    ensures ClassConfidence(k1, m1) >= ClassConfidence(k2, m2)
  {
  }

  /** The candidate of the first combination whose selector matches one to five
      elements including the target. A selector that does not parse makes
      `querySelectorAll` throw, which ends the whole strategy. */
  function ClassSearch(d: Document, e: ElemId, tag: string, combos: seq<seq<string>>): (r: Option<Candidate>)
    ensures r.Some? ==> IsValidSelector(d, r.value.selector, e)
    ensures r.Some? ==> r.value.strategy == StableClasses && 3 <= r.value.confidence <= 8
    ensures r.Some? ==> exists k :: 0 <= k < |combos| && r.value.selector == tag + ClassSuffix(combos[k])
  {
    if combos == [] then None
    else
      var sel := tag + ClassSuffix(combos[0]);
      match d.matches(sel)
      case None => None
      case Some(m) =>
        if 0 < |m| <= 5 && e in m then
          ClassConfidenceAccepted(|combos[0]|, |m|);
          Some(Candidate(sel, ClassConfidence(|combos[0]|, |m|), StableClasses))
        else
          var r := ClassSearch(d, e, tag, combos[1..]);
          assert r.Some? ==> exists k :: 0 <= k < |combos| && r.value.selector == tag + ClassSuffix(combos[k]) by {
            if r.Some? {
              var k :| 0 <= k < |combos[1..]| && r.value.selector == tag + ClassSuffix(combos[1..][k]);
              assert combos[1..][k] == combos[k + 1];
            }
          }
          r
  }

  /** Combination `c` is accepted: its selector parses and matches one to five
      elements, the target among them. */
  predicate ComboMatches(d: Document, e: ElemId, tag: string, c: seq<string>) {
    var m := d.matches(tag + ClassSuffix(c));
    m.Some? && 0 < |m.value| <= 5 && e in m.value
  }

  /** The selector of combination `c` does not parse, so `querySelectorAll` throws. */
  predicate ComboUnparsed(d: Document, e: ElemId, tag: string, c: seq<string>) {
    d.matches(tag + ClassSuffix(c)).None?
  }

  /** Combination `c` parses and is not accepted, so the search moves on. */
  predicate ComboPasses(d: Document, e: ElemId, tag: string, c: seq<string>) {
    !ComboUnparsed(d, e, tag, c) && !ComboMatches(d, e, tag, c)
  }

  /** `cand` is the candidate of combination `k`, which is accepted, with the
      confidence `calculateClassConfidence` gives its class and match counts,
      after `k` combinations that parsed and were not accepted. */
  predicate FoundAt(d: Document, e: ElemId, tag: string, combos: seq<seq<string>>, k: int, cand: Candidate) {
    0 <= k < |combos| && ComboMatches(d, e, tag, combos[k])
    && cand == Candidate(tag + ClassSuffix(combos[k]),
                         ClassConfidence(|combos[k]|, |d.matches(tag + ClassSuffix(combos[k])).value|), StableClasses)
    && forall i :: 0 <= i < k ==> ComboPasses(d, e, tag, combos[i])
  }

  lemma FoundAtShift(d: Document, e: ElemId, tag: string, combos: seq<seq<string>>, k: int, cand: Candidate)
    requires combos != [] && ComboPasses(d, e, tag, combos[0])
    requires FoundAt(d, e, tag, combos[1..], k, cand)
    ensures FoundAt(d, e, tag, combos, k + 1, cand)
  {
    assert combos[k + 1] == combos[1..][k];
    forall i | 0 <= i < k + 1 ensures ComboPasses(d, e, tag, combos[i]) {
      if i > 0 {
        assert combos[i] == combos[1..][i - 1];
      }
    }
  }

  /** A found candidate is that of the first accepted combination, every
      earlier one having parsed (`FoundAt`). */
  lemma {:induction false} ClassSearchFound(d: Document, e: ElemId, tag: string, combos: seq<seq<string>>)
    ensures var r := ClassSearch(d, e, tag, combos);
      r.Some? ==> exists k :: FoundAt(d, e, tag, combos, k, r.value)
  {
    if combos != [] {
      var sel := tag + ClassSuffix(combos[0]);
      if d.matches(sel).Some? && !ComboMatches(d, e, tag, combos[0]) {
        var r := ClassSearch(d, e, tag, combos[1..]);
        assert ClassSearch(d, e, tag, combos) == r;
        ClassSearchFound(d, e, tag, combos[1..]);
        if r.Some? {
          var k :| FoundAt(d, e, tag, combos[1..], k, r.value);
          FoundAtShift(d, e, tag, combos, k, r.value);
        }
      } else if d.matches(sel).Some? {
        assert FoundAt(d, e, tag, combos, 0, ClassSearch(d, e, tag, combos).value);
      }
    }
  }

  /** Some combination before `k` does not parse. */
  predicate UnparsedBefore(d: Document, e: ElemId, tag: string, combos: seq<seq<string>>, k: int) {
    exists i :: 0 <= i < k && i < |combos| && ComboUnparsed(d, e, tag, combos[i])
  }

  lemma UnparsedBeforeShift(d: Document, e: ElemId, tag: string, combos: seq<seq<string>>, k: int)
    requires combos != [] && !ComboUnparsed(d, e, tag, combos[0]) && 0 < k
    ensures UnparsedBefore(d, e, tag, combos, k) <==> UnparsedBefore(d, e, tag, combos[1..], k - 1)
  {
    if UnparsedBefore(d, e, tag, combos, k) {
      var i :| 0 <= i < k && i < |combos| && ComboUnparsed(d, e, tag, combos[i]);
      assert i > 0 && combos[1..][i - 1] == combos[i];
    }
    if UnparsedBefore(d, e, tag, combos[1..], k - 1) {
      var i :| 0 <= i < k - 1 && i < |combos[1..]| && ComboUnparsed(d, e, tag, combos[1..][i]);
      assert combos[i + 1] == combos[1..][i];
    }
  }

  /** The search finds nothing exactly when every accepted combination comes
      after one whose selector does not parse (which ends the strategy). */
  lemma {:induction false} ClassSearchNone(d: Document, e: ElemId, tag: string, combos: seq<seq<string>>)
    ensures ClassSearch(d, e, tag, combos).None? <==>
      forall k :: 0 <= k < |combos| && ComboMatches(d, e, tag, combos[k]) ==> UnparsedBefore(d, e, tag, combos, k)
  {
    if combos != [] {
      var sel := tag + ClassSuffix(combos[0]);
      if d.matches(sel).Some? && !ComboMatches(d, e, tag, combos[0]) {
        var rest := combos[1..];
        assert ClassSearch(d, e, tag, combos) == ClassSearch(d, e, tag, rest);
        ClassSearchNone(d, e, tag, rest);
        if ClassSearch(d, e, tag, rest).None? {
          forall k | 0 <= k < |combos| && ComboMatches(d, e, tag, combos[k])
            ensures UnparsedBefore(d, e, tag, combos, k)
          {
            assert k > 0 && rest[k - 1] == combos[k];
            UnparsedBeforeShift(d, e, tag, combos, k);
          }
        } else {
          var k :| 0 <= k < |rest| && ComboMatches(d, e, tag, rest[k]) && !UnparsedBefore(d, e, tag, rest, k);
          assert rest[k] == combos[k + 1];
          UnparsedBeforeShift(d, e, tag, combos, k + 1);
        }
      } else if d.matches(sel).None? {
        forall k | 0 <= k < |combos| && ComboMatches(d, e, tag, combos[k])
          ensures UnparsedBefore(d, e, tag, combos, k)
        {
          assert k > 0 && ComboUnparsed(d, e, tag, combos[0]);
        }
      } else {
        assert ComboMatches(d, e, tag, combos[0]) && !UnparsedBefore(d, e, tag, combos, 0);
      }
    }
  }

  /** `generateByStableClasses`: the stable classes, sorted, searched in the
      enumeration order. */
  function ByStableClasses(d: Document, e: ElemId): (r: Option<Candidate>)
    requires e in d.elems
    ensures r.Some? ==> IsValidSelector(d, r.value.selector, e) && 3 <= r.value.confidence <= 8
  {
    var classes := SortStrings(StableClassList(d.elems[e].classes));
    if classes == [] then None
    else ClassSearch(d, e, TagName(d, e), Combinations(classes))
  }

  /** The strategy on the target's sorted stable classes: nothing without a
      stable class; otherwise the first accepted combination in enumeration
      order, unless an earlier one failed to parse, with its confidence. */
  lemma ByStableClassesFirst(d: Document, e: ElemId)
    requires e in d.elems
    ensures var classes := SortStrings(StableClassList(d.elems[e].classes));
      var combos := Combinations(classes);
      var tag := TagName(d, e);
      var r := ByStableClasses(d, e);
      (classes == [] ==> r.None?)
      && (classes != [] ==>
        (r.Some? ==> exists k :: FoundAt(d, e, tag, combos, k, r.value))
        && (r.None? <==> forall k :: 0 <= k < |combos| && ComboMatches(d, e, tag, combos[k]) ==>
              UnparsedBefore(d, e, tag, combos, k)))
  {
    var classes := SortStrings(StableClassList(d.elems[e].classes));
    if classes != [] {
      ClassSearchFound(d, e, TagName(d, e), Combinations(classes));
      ClassSearchNone(d, e, TagName(d, e), Combinations(classes));
    }
  }

  // ------------------------------------------------------ structural path

  /** The class part of a path segment: at most the first two stable classes. */
  function SegmentClasses(cs: seq<string>): (r: string)
    ensures r == "" <==> StableClassList(cs) == []
  {
    var st := StableClassList(cs);
    var two := if |st| <= 2 then st else st[..2];
    assert two != [] ==> ClassSuffix(two) != "";
    ClassSuffix(two)
  }

  function NthOfTypePart(i: nat): string {
    ":nth-of-type(" + NatToString(i) + ")"
  }

  /** The path segment for `c` once no id stopped the walk: its stable classes,
      or else its position among same-tag siblings under `p`. */
  function PlainSegment(d: Document, c: ElemId, p: ElemId): string
    requires c in d.elems && p in d.elems
  {
    var ident := SegmentClasses(d.elems[c].classes);
    if ident != "" then TagName(d, c) + ident
    else TagName(d, c) + NthOfTypePart(TypeIndex(d, p, c))
  }

  predicate HasStableId(d: Document, c: ElemId)
    requires c in d.elems
  {
    !IsDynamicValue(d.elems[c].id)
  }

  /** The segments the walk from `c` upwards collects within `depth` levels,
      outermost first. An element without a parent ends the walk, and so does a
      stable id, whose segment is the last one collected. */
  function PathFrom(d: Document, c: ElemId, depth: nat): (r: seq<string>)
    ensures |r| <= depth
    decreases depth
  {
    match ParentOf(d, c)
    case None => []
    case Some(p) =>
      if depth == 0 then []
      else if HasStableId(d, c) then [TagName(d, c) + "#" + EscapeSelector(d.elems[c].id)]
      else PathFrom(d, p, depth - 1) + [PlainSegment(d, c, p)]
  }

  const MaxPathDepth: nat := 8

  lemma PathFromStep(d: Document, c: ElemId, depth: nat)
    requires ParentOf(d, c).Some? && depth > 0
    ensures var p := ParentOf(d, c).value;
      PathFrom(d, c, depth) ==
        if HasStableId(d, c) then [TagName(d, c) + "#" + EscapeSelector(d.elems[c].id)]
        else PathFrom(d, p, depth - 1) + [PlainSegment(d, c, p)]
  {
  }

  function ByStructuralPath(d: Document, e: ElemId): (r: Option<Candidate>)
    requires e in d.elems
  {
    var path := PathFrom(d, e, MaxPathDepth);
    if path == [] then None
    else
      var sel := Join(path, " > ");
      if IsValidSelector(d, sel, e) then Some(Candidate(sel, 6, StructuralPath)) else None
  }

  /** One level of the walk that does not stop: the segment of `c` goes in
      front of what has been collected, and the walk goes on from the parent
      with one level less. */
  lemma WalkStep(d: Document, total: seq<string>, c: ElemId, depth: nat, seg: string,
                 path: seq<string>, parent: ElemId, next: nat, path': seq<string>)
    requires ParentOf(d, c) == Some(parent) && depth > 0 && !HasStableId(d, c)
    requires seg == PlainSegment(d, c, parent) && next == depth - 1 && path' == [seg] + path
    requires total == PathFrom(d, c, depth) + path
    ensures total == PathFrom(d, parent, next) + path'
  {
    var rest := PathFrom(d, parent, next);
    assert (rest + [seg]) + path == rest + ([seg] + path);
    PathFromStep(d, c, depth);
  }

  /** The walk of `generateByStructuralPath` from `start` up to `depth`
      ancestors, each level putting its segment in front of the path. */
  method WalkPath(d: Document, start: ElemId, depth: nat) returns (path: seq<string>)
    ensures path == PathFrom(d, start, depth)
  {
    path := [];
    var current := start;
    var maxDepth := depth;
    while ParentOf(d, current).Some? && maxDepth > 0
      invariant PathFrom(d, start, depth) == PathFrom(d, current, maxDepth) + path
      decreases maxDepth
    {
      var parent := ParentOf(d, current).value;
      var tag := TagName(d, current);
      var el := d.elems[current];
      if !IsDynamicValue(el.id) {
        PathFromStep(d, current, maxDepth);
        path := [tag + "#" + EscapeSelector(el.id)] + path;
        return;
      }
      var identifier := SegmentClasses(el.classes);
      if identifier == "" {
        var index := TypeIndex(d, parent, current);
        identifier := NthOfTypePart(index);
      }
      var path' := [tag + identifier] + path;
      var next := maxDepth - 1;
      WalkStep(d, PathFrom(d, start, depth), current, maxDepth, tag + identifier, path, parent, next, path');
      path, current, maxDepth := path', parent, next;
    }
  }

  /** `generateByStructuralPath`: a path of at most eight levels, joined with
      the child combinator. */
  method GenerateByStructuralPath(d: Document, e: ElemId) returns (r: Option<Candidate>)
    requires e in d.elems
    ensures r == ByStructuralPath(d, e)
    ensures r.Some? ==> IsValidSelector(d, r.value.selector, e) && r.value.confidence == 6
  {
    var path := WalkPath(d, e, MaxPathDepth);
    if |path| == 0 {
      return None;
    }
    var sel := Join(path, " > ");
    if IsValidSelector(d, sel, e) {
      r := Some(Candidate(sel, 6, StructuralPath));
    } else {
      r := None;
    }
  }

  // ------------------------------------------------------------- position

  /** `generateByPosition` */
  function ByPosition(d: Document, e: ElemId): (r: Candidate)
    requires e in d.elems
  {
    var tag := TagName(d, e);
    match ParentOf(d, e)
    case None => Candidate(tag, 3, PositionFallback)
    case Some(p) =>
      var index := TypeIndex(d, p, e);
      if index > 0 then Candidate(tag + NthOfTypePart(index), 4, PositionFallback)
      else Candidate(tag, 2, TagOnly)
  }

  /** Every element lists as children exactly the elements whose parent it is. */
  predicate WellFormed(d: Document) {
    forall c :: c in d.elems && d.elems[c].parent.Some? && d.elems[c].parent.value in d.elems
      ==> c in d.elems[d.elems[c].parent.value].children
  }

  /** In a well-formed document an element with a parent gets an `nth-of-type`
      selector (confidence 0.4) whose index designates exactly that element
      among its same-tag siblings; without a parent it gets the bare tag at 0.3,
      and the tag-only case (0.2) never arises. */
  lemma PositionDesignates(d: Document, e: ElemId)
    requires WellFormed(d) && e in d.elems
    ensures ParentOf(d, e).None? ==> ByPosition(d, e) == Candidate(TagName(d, e), 3, PositionFallback)
    ensures ParentOf(d, e).Some? ==>
      var p := ParentOf(d, e).value;
      var i := TypeIndex(d, p, e);
      i >= 1 && NthOfType(d, p, d.elems[e].tag, i) == Some(e)
      && ByPosition(d, e) == Candidate(TagName(d, e) + NthOfTypePart(i), 4, PositionFallback)
    ensures ByPosition(d, e).strategy != TagOnly
  {
    if ParentOf(d, e).Some? {
      TypeIndexDesignates(d, ParentOf(d, e).value, e);
    }
  }

  // ------------------------------------------------------------ the driver

  /** The five proposals in priority order. */
  function Proposals(d: Document, e: ElemId): (r: seq<Option<Candidate>>)
    requires e in d.elems
    ensures |r| == 5
  {
    [ByUniqueId(d, e), ByStableAttributes(d, e), ByStableClasses(d, e),
     ByStructuralPath(d, e), Some(ByPosition(d, e))]
  }

  /** `result && result.selector && isValidSelector(result.selector, element)` */
  predicate Accepted(d: Document, e: ElemId, p: Option<Candidate>) {
    p.Some? && p.value.selector != "" && IsValidSelector(d, p.value.selector, e)
  }

  /** The accepted proposals, in order. */
  function AcceptedOf(d: Document, e: ElemId, ps: seq<Option<Candidate>>): (r: seq<Candidate>)
    ensures |r| <= |ps|
    ensures forall k :: 0 <= k < |r| ==> Some(r[k]) in ps && Accepted(d, e, Some(r[k]))
  {
    if ps == [] then []
    else
      var rest := AcceptedOf(d, e, ps[..|ps| - 1]);
      var r := rest + (if Accepted(d, e, ps[|ps| - 1]) then [ps[|ps| - 1].value] else []);
      assert forall k :: 0 <= k < |rest| ==> Some(r[k]) in ps by {
        forall k | 0 <= k < |rest| ensures Some(r[k]) in ps {
          assert Some(rest[k]) in ps[..|ps| - 1];
        }
      }
      r
  }

  function Selectors(cs: seq<Candidate>): (r: seq<string>)
    ensures |r| == |cs| && forall k :: 0 <= k < |cs| ==> r[k] == cs[k].selector
  {
    seq(|cs|, k requires 0 <= k < |cs| => cs[k].selector)
  }

  function Take(s: seq<string>, n: nat): (r: seq<string>)
    ensures r == if |s| <= n then s else s[..n]
  {
    if |s| <= n then s else s[..n]
  }

  const NoSelector: Generated := Generated(None, 0, None, [])

  /** The outcome of the strategy loop over proposals `ps`: the first accepted
      one is the primary, the selectors of the later accepted ones, at most
      three, are the fallbacks. */
  function Pick(d: Document, e: ElemId, ps: seq<Option<Candidate>>): Generated {
    var acc := AcceptedOf(d, e, ps);
    if acc == [] then NoSelector
    else Generated(Some(acc[0].selector), acc[0].confidence, Some(acc[0].strategy),
                   Take(Selectors(acc[1..]), 3))
  }

  /** `generateSelector`: nothing for a missing element or one without a tag
      name; otherwise the pick among the five proposals. */
  function Generate(d: Document, e: ElemId): Generated {
    if e !in d.elems || d.elems[e].tag == "" then NoSelector
    else Pick(d, e, Proposals(d, e))
  }

  lemma AcceptedStep(d: Document, e: ElemId, ps: seq<Option<Candidate>>, i: nat)
    requires i < |ps|
    ensures AcceptedOf(d, e, ps[..i + 1])
      == AcceptedOf(d, e, ps[..i]) + (if Accepted(d, e, ps[i]) then [ps[i].value] else [])
  {
    assert ps[..i + 1][..i] == ps[..i] && ps[..i + 1][i] == ps[i];
  }

  /** The accepted proposals form an order-preserving filter: it distributes
      over concatenation (a single proposal kept exactly when it is accepted,
      `AcceptedOfSingle`). */
  lemma {:induction false} AcceptedOfConcat(d: Document, e: ElemId, a: seq<Option<Candidate>>, b: seq<Option<Candidate>>)
    ensures AcceptedOf(d, e, a + b) == AcceptedOf(d, e, a) + AcceptedOf(d, e, b)
    decreases |b|
  {
    if b == [] {
      assert a + b == a;
    } else {
      var init, p := b[..|b| - 1], b[|b| - 1];
      assert (a + b)[..|a + b| - 1] == a + init && (a + b)[|a + b| - 1] == p;
      var last := if Accepted(d, e, p) then [p.value] else [];
      assert AcceptedOf(d, e, a + b) == AcceptedOf(d, e, a + init) + last;
      assert AcceptedOf(d, e, b) == AcceptedOf(d, e, init) + last;
      AcceptedOfConcat(d, e, a, init);
      assert (AcceptedOf(d, e, a) + AcceptedOf(d, e, init)) + last
        == AcceptedOf(d, e, a) + (AcceptedOf(d, e, init) + last);
    }
  }

  lemma AcceptedOfSingle(d: Document, e: ElemId, p: Option<Candidate>)
    ensures AcceptedOf(d, e, [p]) == if Accepted(d, e, p) then [p.value] else []
  {
    assert [p][..0] == [];
  }

  /** With `j` the first accepted proposal, the accepted list is that proposal
      followed by the accepted proposals after it. */
  lemma AcceptedOfSplit(d: Document, e: ElemId, ps: seq<Option<Candidate>>, j: nat)
    requires j < |ps| && Accepted(d, e, ps[j])
    requires forall i :: 0 <= i < j ==> !Accepted(d, e, ps[i])
    ensures AcceptedOf(d, e, ps) == [ps[j].value] + AcceptedOf(d, e, ps[j + 1..])
  {
    var pre := ps[..j];
    assert ps == pre + ([ps[j]] + ps[j + 1..]);
    AcceptedOfConcat(d, e, pre, [ps[j]] + ps[j + 1..]);
    AcceptedOfConcat(d, e, [ps[j]], ps[j + 1..]);
    AcceptedOfSingle(d, e, ps[j]);
    AcceptedOfFirst(d, e, pre);
    assert AcceptedOf(d, e, pre) == [];
  }

  /** The loop of `generateSelector` over the strategies' results. */
  method PickFirst(d: Document, e: ElemId, ps: seq<Option<Candidate>>) returns (g: Generated)
    ensures g == Pick(d, e, ps)
  {
    var results: seq<Candidate> := [];
    var fallbacks: seq<string> := [];
    ghost var acc: seq<Candidate> := [];
    for i := 0 to |ps|
      invariant acc == AcceptedOf(d, e, ps[..i])
      invariant results == (if acc == [] then [] else [acc[0]])
      invariant acc == [] ==> fallbacks == []
      invariant acc != [] ==> |fallbacks| == |acc| - 1
      invariant forall k :: 0 <= k < |fallbacks| ==> fallbacks[k] == acc[k + 1].selector
    {
      AcceptedStep(d, e, ps, i);
      var result := ps[i];
      if result.Some? && result.value.selector != "" && IsValidSelector(d, result.value.selector, e) {
        if |results| == 0 {
          results := results + [result.value];
        } else {
          fallbacks := fallbacks + [result.value.selector];
        }
        acc := acc + [result.value];
      }
    }
    assert ps[..|ps|] == ps;
    if |results| == 0 {
      g := NoSelector;
    } else {
      assert fallbacks == Selectors(acc[1..]);
      g := Generated(Some(results[0].selector), results[0].confidence, Some(results[0].strategy),
                     Take(fallbacks, 3));
    }
  }

  /** `generateSelector` */
  method GenerateSelector(d: Document, e: ElemId) returns (g: Generated)
    ensures g == Generate(d, e)
  {
    if e !in d.elems || d.elems[e].tag == "" {
      return NoSelector;
    }
    var byAttributes := GenerateByStableAttributes(d, e);
    var byPath := GenerateByStructuralPath(d, e);
    var proposals := [ByUniqueId(d, e), byAttributes, ByStableClasses(d, e), byPath,
                      Some(ByPosition(d, e))];
    assert proposals == Proposals(d, e);
    g := PickFirst(d, e, proposals);
  }

  // --------------------------------------------------------- driver lemmas

  /** The accepted list is empty exactly when no proposal is accepted, and
      otherwise starts with the first accepted proposal. */
  lemma {:induction false} AcceptedOfFirst(d: Document, e: ElemId, ps: seq<Option<Candidate>>)
    ensures AcceptedOf(d, e, ps) == [] <==> forall i :: 0 <= i < |ps| ==> !Accepted(d, e, ps[i])
    ensures AcceptedOf(d, e, ps) != [] ==> exists j :: (0 <= j < |ps| && Accepted(d, e, ps[j])
      && ps[j] == Some(AcceptedOf(d, e, ps)[0]) && forall i :: 0 <= i < j ==> !Accepted(d, e, ps[i]))
  {
    if ps != [] {
      var init := ps[..|ps| - 1];
      AcceptedOfFirst(d, e, init);
      assert forall i :: 0 <= i < |init| ==> init[i] == ps[i];
      if AcceptedOf(d, e, init) != [] {
        var j :| 0 <= j < |init| && Accepted(d, e, init[j])
          && init[j] == Some(AcceptedOf(d, e, init)[0]) && forall i :: 0 <= i < j ==> !Accepted(d, e, init[i]);
        assert ps[j] == init[j];
      }
    }
  }

  /** What `generateSelector` promises: its primary selector and every fallback
      match the element (the round trip from element to selector and back); at
      most three fallbacks are kept; and without a primary there is nothing at
      all (selector null, confidence 0, no fallbacks). */
  lemma GenerateSound(d: Document, e: ElemId)
    ensures var g := Generate(d, e);
      (g.selector.Some? ==> IsValidSelector(d, g.selector.value, e))
      && (forall k :: 0 <= k < |g.fallbacks| ==> IsValidSelector(d, g.fallbacks[k], e))
      && |g.fallbacks| <= 3
      && (g.selector.None? ==> g == Generated(None, 0, None, []))
  {
    if e in d.elems && d.elems[e].tag != "" {
      var acc := AcceptedOf(d, e, Proposals(d, e));
      if acc != [] {
        assert Accepted(d, e, Some(acc[0]));
        var f := Take(Selectors(acc[1..]), 3);
        forall k | 0 <= k < |f| ensures IsValidSelector(d, f[k], e) {
          assert f[k] == acc[k + 1].selector;
          assert Accepted(d, e, Some(acc[k + 1]));
        }
      }
    }
  }

  /** Strategies are tried by priority: the primary selector comes from a
      proposal that is accepted while every proposal before it is not; and
      there is no primary exactly when the element is missing, has no tag name,
      or no proposal is accepted. */
  lemma GeneratePriority(d: Document, e: ElemId)
    ensures var g := Generate(d, e);
      g.selector.None? <==>
        (e !in d.elems || d.elems[e].tag == ""
         || forall i :: 0 <= i < 5 ==> !Accepted(d, e, Proposals(d, e)[i]))
    ensures var g := Generate(d, e);
      g.selector.Some? ==> exists j :: (0 <= j < 5 && Accepted(d, e, Proposals(d, e)[j])
        && Proposals(d, e)[j].value.selector == g.selector.value
        && Proposals(d, e)[j].value.confidence == g.confidence
        && Some(Proposals(d, e)[j].value.strategy) == g.strategy
        && forall i :: 0 <= i < j ==> !Accepted(d, e, Proposals(d, e)[i]))
  {
    if e in d.elems && d.elems[e].tag != "" {
      AcceptedOfFirst(d, e, Proposals(d, e));
    }
  }

  /** The fallbacks are exactly the selectors of the proposals accepted after
      the primary one, in strategy order, cut to the first three. */
  lemma GenerateFallbacks(d: Document, e: ElemId)
    ensures var g := Generate(d, e);
      g.selector.Some? ==> exists j :: (0 <= j < 5 && Accepted(d, e, Proposals(d, e)[j])
        && Proposals(d, e)[j].value.selector == g.selector.value
        && (forall i :: 0 <= i < j ==> !Accepted(d, e, Proposals(d, e)[i]))
        && g.fallbacks == Take(Selectors(AcceptedOf(d, e, Proposals(d, e)[j + 1..])), 3))
  {
    if e in d.elems && d.elems[e].tag != "" {
      var ps := Proposals(d, e);
      AcceptedOfFirst(d, e, ps);
      var acc := AcceptedOf(d, e, ps);
      if acc != [] {
        var j :| 0 <= j < |ps| && Accepted(d, e, ps[j])
          && ps[j] == Some(acc[0]) && forall i :: 0 <= i < j ==> !Accepted(d, e, ps[i]);
        AcceptedOfSplit(d, e, ps, j);
        assert acc[1..] == AcceptedOf(d, e, ps[j + 1..]);
      }
    }
  }

  /** A document in which the position selector of an element is accepted
      always yields a primary selector for it: the last strategy is the safety
      net. */
  lemma PositionIsLastResort(d: Document, e: ElemId)
    requires e in d.elems && d.elems[e].tag != ""
    requires IsValidSelector(d, ByPosition(d, e).selector, e)
    ensures Generate(d, e).selector.Some?
  {
    var ps := Proposals(d, e);
    assert |Lower(d.elems[e].tag)| > 0;
    assert ps[4] == Some(ByPosition(d, e)) && Accepted(d, e, ps[4]);
    AcceptedOfFirst(d, e, ps);
  }

  // ----------------------------------------------------------- element info

  /** `getElementInfo` without the bounding rectangle. */
  datatype ElementInfo = ElementInfo(
    tag: string,
    id: string,
    classes: seq<string>,
    text: string,
    attributes: seq<(string, string)>)

  const RelevantAttributeNames: seq<string> := ["name", "type", "role", "aria-label", "title"]

  /** The relevant attributes that are present with a non-empty value, in the
      order of the list. */
  function RelevantAttributes(attrs: seq<(string, string)>, names: seq<string>): (r: seq<(string, string)>)
    ensures forall k :: 0 <= k < |r| ==>
      (r[k].0 in names && r[k].1 != "" && GetAttribute(attrs, r[k].0) == Some(r[k].1))
    ensures forall n :: (n in names && GetAttribute(attrs, n).Some? && GetAttribute(attrs, n).value != ""
      ==> exists k :: 0 <= k < |r| && r[k].0 == n)
  {
    if names == [] then []
    else
      var rest := RelevantAttributes(attrs, names[1..]);
      match GetAttribute(attrs, names[0])
      case Some(v) =>
        if v != "" then
          var r := [(names[0], v)] + rest;
          assert forall k :: 1 <= k < |r| ==> r[k] == rest[k - 1];
          assert forall n :: (n in names[1..] && GetAttribute(attrs, n).Some? && GetAttribute(attrs, n).value != ""
            ==> exists k :: 0 <= k < |r| && r[k].0 == n) by {
            forall n | n in names[1..] && GetAttribute(attrs, n).Some? && GetAttribute(attrs, n).value != ""
              ensures exists k :: 0 <= k < |r| && r[k].0 == n
            {
              var k :| 0 <= k < |rest| && rest[k].0 == n;
              assert r[k + 1].0 == n;
            }
          }
          assert forall n :: n in names ==> n == names[0] || n in names[1..];
          assert r[0].0 == names[0];
          r
        else
          assert forall n :: n in names ==> n == names[0] || n in names[1..];
          rest
      case None =>
        assert forall n :: n in names ==> n == names[0] || n in names[1..];
        rest
  }

  function GetElementInfo(d: Document, e: ElemId): (r: Option<ElementInfo>)
    ensures r.Some? <==> e in d.elems
    ensures r.Some? ==>
      (|r.value.text| <= 50 && StartsWith(Trim(d.elems[e].text), r.value.text)
       && (|r.value.text| < 50 ==> r.value.text == Trim(d.elems[e].text)))
  {
    if e !in d.elems then None
    else
      var el := d.elems[e];
      var t := Trim(el.text);
      var text := if |t| <= 50 then t else t[..50];
      Some(ElementInfo(Lower(el.tag), el.id, el.classes, text,
                       RelevantAttributes(el.attributes, RelevantAttributeNames)))
  }
}
