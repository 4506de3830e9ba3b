/** The element hider (`ElementHider`): the tracked rules keyed by selector, the
    extension's stylesheet of `display: none !important` rules, the marker
    attributes it writes on hidden elements, and the active flag that gates the
    mutation observer. */
module Hider {
  import opened Common
  import opened Rules
  import opened Dom

  /** The markers `hideElement` and `showElement` read and write on one
      element: the `hidebox-hidden` class, the `data-hidebox-rule-id`,
      `data-hidebox-hidden-by` and `data-hidebox-original-display` attributes,
      and the inline `style.display`. */
  datatype Marks = Marks(
    hiddenClass: bool,
    ruleId: Option<string>,
    hiddenBy: Option<string>,
    originalDisplay: Option<string>,
    inlineDisplay: string)

  /** An element the extension has never touched and that has no inline display. */
  const Pristine: Marks := Marks(false, None, None, None, "")

  const HiddenByMarker: string := "HideBox Extension"

  /** The markers of an element; one not in the map is pristine. */
  function MarksOf(ms: map<ElemId, Marks>, x: ElemId): Marks {
    if x in ms then ms[x] else Pristine
  }

  /** `hideElement`: an element whose inline display is already `none` is left
      alone; otherwise the computed display is saved unless a snapshot is
      already there, and the three markers are set. */
  function HideMarks(m: Marks, ruleId: string, computedDisplay: string): (r: Marks)
    ensures m.inlineDisplay == "none" ==> r == m
    ensures m.inlineDisplay != "none" ==>
      r.hiddenClass && r.ruleId == Some(ruleId) && r.hiddenBy == Some(HiddenByMarker)
      && r.inlineDisplay == m.inlineDisplay
      && r.originalDisplay == (if m.originalDisplay.Some? then m.originalDisplay else Some(computedDisplay))
  {
    if m.inlineDisplay == "none" then m
    else
      var snapshot := if m.originalDisplay.None? then Some(computedDisplay) else m.originalDisplay;
      Marks(true, Some(ruleId), Some(HiddenByMarker), snapshot, m.inlineDisplay)
  }

  /** `showElement`: the markers go; a non-empty snapshot is written back as the
      inline display (`none` becoming the empty string) and removed. An empty
      snapshot is falsy and stays. */
  function ShowMarks(m: Marks): (r: Marks)
    ensures !r.hiddenClass && r.ruleId.None? && r.hiddenBy.None?
    ensures m.originalDisplay.Some? && m.originalDisplay.value != "" ==>
      r.originalDisplay.None?
      && r.inlineDisplay == (if m.originalDisplay.value == "none" then "" else m.originalDisplay.value)
    ensures !(m.originalDisplay.Some? && m.originalDisplay.value != "") ==>
      r.originalDisplay == m.originalDisplay && r.inlineDisplay == m.inlineDisplay
  {
    var cleared := m.(hiddenClass := false, ruleId := None, hiddenBy := None);
    match m.originalDisplay
    case Some(od) =>
      if od != "" then cleared.(inlineDisplay := if od == "none" then "" else od, originalDisplay := None)
      else cleared
    case None => cleared
  }

  /** Repeated hides never overwrite the first snapshot, whatever the computed
      display is by then; the later rule id wins. */
  lemma HideKeepsSnapshot(m: Marks, id1: string, c1: string, id2: string, c2: string)
    requires m.inlineDisplay != "none"
    ensures HideMarks(HideMarks(m, id1, c1), id2, c2).originalDisplay == HideMarks(m, id1, c1).originalDisplay
    ensures HideMarks(HideMarks(m, id1, c1), id2, c2).ruleId == Some(id2)
  {
  }

  /** Showing twice is showing once. */
  lemma ShowIdempotent(m: Marks)
    ensures ShowMarks(ShowMarks(m)) == ShowMarks(m)
  {
  }

  /** Hiding an untouched element and showing it again: the markers are gone and
      the inline display is the saved computed display, except that `none` (what
      the extension's own stylesheet rule normally makes it) comes back as the
      empty string and an empty snapshot is left behind. So an element hidden
      while the stylesheet rule applies is restored exactly. */
  lemma HideThenShow(m: Marks, id: string, c: string)
    requires !m.hiddenClass && m.ruleId.None? && m.hiddenBy.None? && m.originalDisplay.None?
    requires m.inlineDisplay != "none"
    ensures ShowMarks(HideMarks(m, id, c)) ==
      if c == "" then m.(originalDisplay := Some(""))
      else m.(inlineDisplay := if c == "none" then "" else c)
    ensures c == "none" && m.inlineDisplay == "" ==> ShowMarks(HideMarks(m, id, c)) == m
  {
  }

  /** The elements of `s` a hide actually touches. */
  function Hit(ms: map<ElemId, Marks>, s: set<ElemId>): set<ElemId> {
    set x | x in s && MarksOf(ms, x).inlineDisplay != "none"
  }

  /** The markers after hiding every element of `s` for rule `id`. */
  function HideOn(ms: map<ElemId, Marks>, s: set<ElemId>, id: string, computed: ElemId -> string): (r: map<ElemId, Marks>)
    ensures forall x :: MarksOf(r, x) == if x in s then HideMarks(MarksOf(ms, x), id, computed(x)) else MarksOf(ms, x)
  {
    map x | x in ms.Keys + Hit(ms, s) ::
      if x in Hit(ms, s) then HideMarks(MarksOf(ms, x), id, computed(x)) else ms[x]
  }

  /** The markers after showing every element of `s`. */
  function ShowOn(ms: map<ElemId, Marks>, s: set<ElemId>): (r: map<ElemId, Marks>)
    ensures forall x :: MarksOf(r, x) == if x in s then ShowMarks(MarksOf(ms, x)) else MarksOf(ms, x)
  {
    map x | x in ms.Keys + s :: if x in s then ShowMarks(MarksOf(ms, x)) else ms[x]
  }

  /** One element more for a hide in progress. */
  lemma HideOnStep(m0: map<ElemId, Marks>, done: set<ElemId>, x: ElemId, id: string, computed: ElemId -> string)
    requires x !in done
    ensures var ms := HideOn(m0, done, id, computed);
      (if MarksOf(ms, x).inlineDisplay == "none" then ms
       else ms[x := HideMarks(MarksOf(ms, x), id, computed(x))])
      == HideOn(m0, done + {x}, id, computed)
  {
    var ms := HideOn(m0, done, id, computed);
    var next := HideOn(m0, done + {x}, id, computed);
    assert MarksOf(ms, x) == MarksOf(m0, x);
    if MarksOf(m0, x).inlineDisplay == "none" {
      assert Hit(m0, done + {x}) == Hit(m0, done);
    } else {
      assert Hit(m0, done + {x}) == Hit(m0, done) + {x};
    }
  }

  /** One element more for a show in progress. */
  lemma ShowOnStep(m0: map<ElemId, Marks>, done: set<ElemId>, x: ElemId)
    requires x !in done
    ensures var ms := ShowOn(m0, done);
      ms[x := ShowMarks(MarksOf(ms, x))] == ShowOn(m0, done + {x})
  {
    var ms := ShowOn(m0, done);
    assert MarksOf(ms, x) == MarksOf(m0, x);
  }

  // ------------------------------------------------------------ the state

  /** A `hiddenElements` entry: the elements the rule hid, and the rule. */
  datatype HideRecord = HideRecord(elements: set<ElemId>, rule: Rule)

  /** The hider's state as a value: the `hiddenElements` keys in insertion
      order, the entries, the stylesheet as its rules' selectors, the
      per-element markers, `isActive`, and whether the observer is connected. */
  datatype HState = HState(
    order: seq<string>,
    hidden: map<string, HideRecord>,
    sheet: seq<string>,
    marks: map<ElemId, Marks>,
    active: bool,
    observing: bool)

  /** The bookkeeping invariant: the insertion order lists each key once, the
      stylesheet holds exactly one rule per tracked selector in that order, and
      every entry holds an enabled rule for its own, non-empty, selector. */
  ghost predicate Valid(s: HState) {
    Distinct(s.order)
    && s.sheet == s.order
    && (forall k :: k in s.hidden <==> k in s.order)
    && (forall k :: k in s.hidden ==> s.hidden[k].rule.selector == k && s.hidden[k].rule.enabled && k != "")
  }

  /** `addCSSRule`: append a rule at the end unless one for the selector exists. */
  function AddCss(sheet: seq<string>, sel: string): (r: seq<string>)
    ensures sel in r
    ensures sel in sheet ==> r == sheet
    ensures sel !in sheet ==> r == sheet + [sel]
  {
    if sel in sheet then sheet else sheet + [sel]
  }

  /** Adding the same stylesheet rule twice is adding it once. */
  lemma AddCssIdempotent(sheet: seq<string>, sel: string)
    ensures AddCss(AddCss(sheet, sel), sel) == AddCss(sheet, sel)
    ensures Distinct(sheet) ==> Distinct(AddCss(sheet, sel))
  {
    var r := AddCss(sheet, sel);
    if sel !in sheet && Distinct(sheet) {
      forall i, j | 0 <= i < j < |r| ensures r[i] != r[j] {
        if j == |sheet| {
          assert r[i] == sheet[i];
        }
      }
    }
  }

  /** `addRule` */
  function AddRuleSpec(s: HState, rule: Rule, matches: Matcher, computed: ElemId -> string): HState {
    if rule.selector == "" || !rule.enabled then s
    else
      match matches(rule.selector)
      case None => s
      case Some(m) =>
        s.(sheet := AddCss(s.sheet, rule.selector),
           marks := HideOn(s.marks, m, rule.id, computed),
           hidden := s.hidden[rule.selector := HideRecord(m, rule)],
           order := if rule.selector in s.hidden then s.order else s.order + [rule.selector])
  }

  /** `removeRule` */
  function RemoveRuleSpec(s: HState, sel: string): HState {
    if sel !in s.hidden then s
    else
      s.(marks := ShowOn(s.marks, s.hidden[sel].elements),
         sheet := RemoveAll(s.sheet, sel),
         hidden := s.hidden - {sel},
         order := RemoveAll(s.order, sel))
  }

  /** `removeRule` for each selector of `keys`, in order. */
  function RemoveEach(s: HState, keys: seq<string>): HState {
    if keys == [] then s else RemoveRuleSpec(RemoveEach(s, keys[..|keys| - 1]), keys[|keys| - 1])
  }

  /** `clearAllRules`: every tracked rule removed in insertion order, then
      whatever is left in the stylesheet deleted. */
  function ClearSpec(s: HState): HState {
    RemoveEach(s, s.order).(sheet := [])
  }

  /** The loop of `applyRules`: each enabled rule with a selector is added. */
  function AddEach(s: HState, rules: seq<Rule>, matches: Matcher, computed: ElemId -> string): HState {
    if rules == [] then s
    else
      var before := AddEach(s, rules[..|rules| - 1], matches, computed);
      var rule := rules[|rules| - 1];
      if rule.enabled && rule.selector != "" then AddRuleSpec(before, rule, matches, computed) else before
  }

  /** `applyRules`: a non-array argument (None) changes nothing; otherwise all
      rules are cleared and the given ones added. */
  function ApplySpec(s: HState, rules: Option<seq<Rule>>, matches: Matcher, computed: ElemId -> string): HState {
    match rules
    case None => s
    case Some(rs) => AddEach(ClearSpec(s), rs, matches, computed)
  }

  /** The rules of the entries, in insertion order. */
  function RulesIn(order: seq<string>, hidden: map<string, HideRecord>): (r: seq<Rule>)
    ensures |r| <= |order|
    ensures forall x :: x in r ==> exists k :: k in order && k in hidden && hidden[k].rule == x
  {
    if order == [] then []
    else
      var rest := RulesIn(order[1..], hidden);
      assert forall k :: k in order[1..] ==> k in order;
      (if order[0] in hidden then [hidden[order[0]].rule] else []) + rest
  }

  /** `reapplyAllRules` */
  function ReapplySpec(s: HState, matches: Matcher, computed: ElemId -> string): HState {
    ApplySpec(s, Some(RulesIn(s.order, s.hidden)), matches, computed)
  }

  /** `setActive` */
  function SetActiveSpec(s: HState, active: bool, matches: Matcher, computed: ElemId -> string): HState {
    if active then ReapplySpec(s.(active := true), matches, computed).(observing := true)
    else ClearSpec(s.(active := false)).(observing := false)
  }

  // ------------------------------------------------ lemmas on the state

  lemma AddRulePreservesValid(s: HState, rule: Rule, matches: Matcher, computed: ElemId -> string)
    requires Valid(s)
    ensures Valid(AddRuleSpec(s, rule, matches, computed))
    ensures var t := AddRuleSpec(s, rule, matches, computed);
      forall k :: k in t.hidden <==>
        k in s.hidden || (k == rule.selector && k != "" && rule.enabled && matches(k).Some?)
  {
    if rule.selector != "" && rule.enabled && matches(rule.selector).Some? {
      var sel := rule.selector;
      var t := AddRuleSpec(s, rule, matches, computed);
      AddCssIdempotent(s.sheet, sel);
      assert t.sheet == AddCss(s.sheet, sel) && t.hidden == s.hidden[sel := HideRecord(matches(sel).value, rule)];
      if sel in s.hidden {
        assert t.order == s.order && t.sheet == s.sheet;
      } else {
        assert t.order == s.order + [sel] && t.sheet == s.sheet + [sel];
      }
    }
  }

  lemma RemoveRulePreservesValid(s: HState, sel: string)
    requires Valid(s)
    ensures Valid(RemoveRuleSpec(s, sel))
    ensures forall k :: k in RemoveRuleSpec(s, sel).hidden <==> k in s.hidden && k != sel
  {
    if sel in s.hidden {
      RemoveAllDistinct(s.order, sel);
    }
  }

  /** `removeRule(s)`: untracked selectors change nothing; otherwise the entry
      and every stylesheet rule for `s` go, every element the entry recorded is
      shown, and all other entries and elements are untouched. */
  lemma RemoveRuleEffect(s: HState, sel: string)
    ensures sel !in s.hidden ==> RemoveRuleSpec(s, sel) == s
    ensures sel in s.hidden ==>
      var t := RemoveRuleSpec(s, sel);
      sel !in t.hidden && sel !in t.sheet && sel !in t.order
      && (forall k :: k != sel && k in s.hidden ==> k in t.hidden && t.hidden[k] == s.hidden[k])
      && (forall x :: x in s.hidden[sel].elements ==> MarksOf(t.marks, x) == ShowMarks(MarksOf(s.marks, x)))
      && (forall x :: x !in s.hidden[sel].elements ==> MarksOf(t.marks, x) == MarksOf(s.marks, x))
  {
  }

  /** Removing the first `i` keys of the insertion order of a valid state
      leaves exactly the rest, in order, in the map and the stylesheet. */
  lemma {:induction false} RemoveEachPrefix(s: HState, i: nat)
    requires Valid(s) && i <= |s.order|
    ensures var t := RemoveEach(s, s.order[..i]);
      Valid(t) && t.order == s.order[i..]
  {
    if i > 0 {
      var k := s.order[i - 1];
      assert s.order[..i][..i - 1] == s.order[..i - 1];
      assert s.order[i - 1..] == [k] + s.order[i..];
      assert k !in s.order[i..] by {
        forall j | i <= j < |s.order| ensures s.order[j] != k { }
      }
      assert RemoveAll([k] + s.order[i..], k) == s.order[i..];
      RemoveEachPrefix(s, i - 1);
      var t := RemoveEach(s, s.order[..i - 1]);
      assert k in t.hidden;
      RemoveRulePreservesValid(t, k);
    }
  }

  /** `clearAllRules` empties the map and the stylesheet. */
  lemma ClearEmpties(s: HState)
    requires Valid(s)
    ensures var t := ClearSpec(s);
      Valid(t) && t.order == [] && t.hidden == map[] && t.sheet == []
      && t.active == s.active && t.observing == s.observing
  {
    RemoveEachPrefix(s, |s.order|);
    assert s.order[..|s.order|] == s.order;
    RemoveEachFlags(s, s.order);
  }

  lemma {:induction false} RemoveEachFlags(s: HState, keys: seq<string>)
    ensures RemoveEach(s, keys).active == s.active && RemoveEach(s, keys).observing == s.observing
  {
    if keys != [] {
      RemoveEachFlags(s, keys[..|keys| - 1]);
    }
  }

  /** A selector `applyRules` will track. */
  predicate Tracks(rules: seq<Rule>, k: string, matches: Matcher) {
    exists i :: 0 <= i < |rules| && rules[i].enabled && rules[i].selector == k && k != "" && matches(k).Some?
  }

  lemma {:induction false} AddEachKeys(s: HState, rules: seq<Rule>, matches: Matcher, computed: ElemId -> string)
    requires Valid(s)
    ensures var t := AddEach(s, rules, matches, computed);
      Valid(t) && (forall k :: k in t.hidden <==> k in s.hidden || Tracks(rules, k, matches))
      && t.active == s.active && t.observing == s.observing
  {
    if rules != [] {
      var init := rules[..|rules| - 1];
      var rule := rules[|rules| - 1];
      AddEachKeys(s, init, matches, computed);
      var before := AddEach(s, init, matches, computed);
      forall k ensures Tracks(rules, k, matches) <==>
        Tracks(init, k, matches) || (rule.enabled && rule.selector == k && k != "" && matches(k).Some?)
      {
        if Tracks(rules, k, matches) {
          var i :| 0 <= i < |rules| && rules[i].enabled && rules[i].selector == k && k != "" && matches(k).Some?;
          if i < |init| {
            assert init[i] == rules[i];
          }
        }
        if Tracks(init, k, matches) {
          var i :| 0 <= i < |init| && init[i].enabled && init[i].selector == k && k != "" && matches(k).Some?;
          assert rules[i] == init[i];
        }
      }
      if rule.enabled && rule.selector != "" {
        AddRulePreservesValid(before, rule, matches, computed);
      }
    }
  }

  /** After `applyRules(rules)` the tracked selectors are exactly those of the
      given rules that are enabled, non-empty and parse; the bookkeeping
      invariant holds; a non-array argument changes nothing. */
  lemma ApplyKeys(s: HState, rules: Option<seq<Rule>>, matches: Matcher, computed: ElemId -> string)
    requires Valid(s)
    ensures rules.None? ==> ApplySpec(s, rules, matches, computed) == s
    ensures rules.Some? ==>
      var t := ApplySpec(s, rules, matches, computed);
      Valid(t) && forall k :: k in t.hidden <==> Tracks(rules.value, k, matches)
  {
    if rules.Some? {
      ClearEmpties(s);
      AddEachKeys(ClearSpec(s), rules.value, matches, computed);
    }
  }

  /** `reapplyAllRules` keeps exactly the tracked selectors that still parse. */
  lemma ReapplyKeys(s: HState, matches: Matcher, computed: ElemId -> string)
    requires Valid(s)
    ensures var t := ReapplySpec(s, matches, computed);
      Valid(t) && forall k :: k in t.hidden <==> k in s.hidden && matches(k).Some?
  {
    var rs := RulesIn(s.order, s.hidden);
    ApplyKeys(s, Some(rs), matches, computed);
    forall k ensures Tracks(rs, k, matches) <==> k in s.hidden && matches(k).Some? {
      if k in s.hidden && matches(k).Some? {
        RulesInHas(s.order, s.hidden, k);
      }
      if Tracks(rs, k, matches) {
        var i :| 0 <= i < |rs| && rs[i].enabled && rs[i].selector == k && k != "" && matches(k).Some?;
        assert rs[i] in rs;
      }
    }
  }

  lemma {:induction false} RulesInHas(order: seq<string>, hidden: map<string, HideRecord>, k: string)
    requires k in order && k in hidden
    ensures exists i :: 0 <= i < |RulesIn(order, hidden)| && RulesIn(order, hidden)[i] == hidden[k].rule
  {
    var rest := RulesIn(order[1..], hidden);
    var r := RulesIn(order, hidden);
    if order[0] == k {
      assert r[0] == hidden[k].rule;
    } else {
      RulesInHas(order[1..], hidden, k);
      var i :| 0 <= i < |rest| && rest[i] == hidden[k].rule;
      var off := if order[0] in hidden then 1 else 0;
      assert r[i + off] == rest[i];
    }
  }

  /** `setActive(false)` leaves nothing tracked and nothing in the stylesheet,
      and because the map is empty a following `setActive(true)` reapplies
      nothing: the rules stay off until they are applied again. */
  lemma DeactivateThenActivate(s: HState, m1: Matcher, c1: ElemId -> string, m2: Matcher, c2: ElemId -> string)
    requires Valid(s)
    ensures var off := SetActiveSpec(s, false, m1, c1);
      off.hidden == map[] && off.sheet == [] && !off.active && !off.observing
    ensures var on := SetActiveSpec(SetActiveSpec(s, false, m1, c1), true, m2, c2);
      on.hidden == map[] && on.sheet == [] && on.order == [] && on.active && on.observing
  {
    var s0 := s.(active := false);
    assert Valid(s0);
    ClearEmpties(s0);
    var off := SetActiveSpec(s, false, m1, c1);
    assert off == ClearSpec(s0).(observing := false);
    var s1 := off.(active := true);
    assert Valid(s1);
    assert RulesIn(s1.order, s1.hidden) == [];
    ClearEmpties(s1);
  }

  // ------------------------------------------------------------ mutations

  const ElementNode: nat := 1

  /** A mutation record: whether it is a `childList` record, and the
      `nodeType` of each added node. */
  datatype Mutation = Mutation(childList: bool, addedNodeTypes: seq<nat>)

  predicate AddsElement(m: Mutation) {
    m.childList && exists j :: 0 <= j < |m.addedNodeTypes| && m.addedNodeTypes[j] == ElementNode
  }

  // ---------------------------------------------------------------- stats

  datatype RuleStat = RuleStat(selector: string, rule: Rule, elementCount: nat, isValid: bool)

  datatype Stats = Stats(totalRules: nat, totalElements: nat, ruleStats: seq<RuleStat>, isActive: bool)

  /** The sizes of the entries' element sets, summed over `keys`. */
  function ElementTotal(keys: seq<string>, hidden: map<string, HideRecord>): nat
    requires forall k :: k in keys ==> k in hidden
  {
    if keys == [] then 0
    else ElementTotal(keys[..|keys| - 1], hidden) + |hidden[keys[|keys| - 1]].elements|
  }

  /** What `getStats` reports for state `h`: the number of tracked selectors,
      the active flag, the elements hidden summed over the entries, and one
      entry per selector in insertion order with its rule and element count,
      valid when it hid at least one element. */
  predicate StatsOf(h: HState, st: Stats)
    requires forall k :: k in h.order ==> k in h.hidden
  {
    st.totalRules == |h.order| && st.isActive == h.active
    && st.totalElements == ElementTotal(h.order, h.hidden)
    && |st.ruleStats| == |h.order|
    && forall k :: 0 <= k < |h.order| ==>
      st.ruleStats[k] == RuleStat(h.order[k], h.hidden[h.order[k]].rule, |h.hidden[h.order[k]].elements|,
                                  |h.hidden[h.order[k]].elements| > 0)
  }

  lemma {:induction false} ElementTotalZero(keys: seq<string>, hidden: map<string, HideRecord>)
    requires forall k :: k in keys ==> k in hidden
    ensures ElementTotal(keys, hidden) == 0 <==> forall k :: k in keys ==> hidden[k].elements == {}
  {
    if keys != [] {
      var init := keys[..|keys| - 1];
      assert forall k :: k in init ==> k in keys;
      ElementTotalZero(init, hidden);
      assert forall k :: k in keys ==> k in init || k == keys[|keys| - 1];
    }
  }

  /** Entry `k` of the insertion order holds `rule`, whose id is `id`, and no
      earlier entry has that id. */
  predicate FirstWithId(order: seq<string>, hidden: map<string, HideRecord>, k: int, rule: Rule, id: Option<string>)
    requires forall j :: 0 <= j < |order| ==> order[j] in hidden
  {
    0 <= k < |order| && hidden[order[k]].rule == rule && Some(rule.id) == id
    && forall j :: 0 <= j < k ==> Some(hidden[order[j]].rule.id) != id
  }

  // ---------------------------------------------------------------- class

  class ElementHider {
    var order: seq<string>
    var hidden: map<string, HideRecord>
    var sheet: seq<string>
    var marks: map<ElemId, Marks>
    var isActive: bool
    var observing: bool

    function State(): HState
      reads this
    {
      HState(order, hidden, sheet, marks, isActive, observing)
    }

    /** A fresh hider over a page whose elements carry `page` markers: nothing
        tracked, an empty stylesheet, active and observing. */
    constructor(page: map<ElemId, Marks>)
      ensures State() == HState([], map[], [], page, true, true)
      ensures Valid(State())
    {
      order := [];
      hidden := map[];
      sheet := [];
      marks := page;
      isActive := true;
      observing := true;
    }

    method HideElement(x: ElemId, rule: Rule, computed: ElemId -> string)
      modifies this
      ensures State() == old(State()).(marks :=
        if MarksOf(old(marks), x).inlineDisplay == "none" then old(marks)
        else old(marks)[x := HideMarks(MarksOf(old(marks), x), rule.id, computed(x))])
    {
      var m := MarksOf(marks, x);
      if m.inlineDisplay == "none" {
        return;
      }
      var snapshot := m.originalDisplay;
      if snapshot.None? {
        snapshot := Some(computed(x));
      }
      marks := marks[x := Marks(true, Some(rule.id), Some(HiddenByMarker), snapshot, m.inlineDisplay)];
    }

    method ShowElement(x: ElemId)
      modifies this
      ensures State() == old(State()).(marks := old(marks)[x := ShowMarks(MarksOf(old(marks), x))])
    {
      var m := MarksOf(marks, x);
      m := m.(hiddenClass := false, ruleId := None, hiddenBy := None);
      if m.originalDisplay.Some? && m.originalDisplay.value != "" {
        var od := m.originalDisplay.value;
        m := m.(inlineDisplay := if od == "none" then "" else od, originalDisplay := None);
      }
      marks := marks[x := m];
    }

    method AddCssRule(sel: string)
      modifies this
      ensures State() == old(State()).(sheet := AddCss(old(sheet), sel))
    {
      var ruleExists := sel in sheet;
      if !ruleExists {
        sheet := sheet + [sel];
      }
    }

    /** The reverse loop deleting every stylesheet rule for `sel`. */
    method RemoveCssRule(sel: string)
      modifies this
      ensures State() == old(State()).(sheet := RemoveAll(old(sheet), sel))
    {
      var rules := sheet;
      var live := rules;
      var i := |rules|;
      while i > 0
        invariant 0 <= i <= |rules|
        invariant live == rules[..i] + RemoveAll(rules[i..], sel)
      {
        i := i - 1;
        live := DeleteStep(rules, live, i, sel);
      }
      assert rules[0..] == rules;
      sheet := live;
    }

    method AddRule(rule: Rule, matches: Matcher, computed: ElemId -> string)
      modifies this
      ensures State() == AddRuleSpec(old(State()), rule, matches, computed)
    {
      if rule.selector == "" || !rule.enabled {
        return;
      }
      var found := matches(rule.selector);
      if found.None? {
        return;
      }
      AddCssRule(rule.selector);
      var elements: set<ElemId> := {};
      var todo := found.value;
      ghost var m0 := marks;
      while todo != {}
        invariant elements + todo == found.value && elements !! todo
        invariant marks == HideOn(m0, elements, rule.id, computed)
        invariant State() == old(State()).(sheet := AddCss(old(sheet), rule.selector), marks := marks)
        decreases todo
      {
        var x :| x in todo;
        HideOnStep(m0, elements, x, rule.id, computed);
        elements := elements + {x};
        HideElement(x, rule, computed);
        todo := todo - {x};
      }
      if rule.selector !in hidden {
        order := order + [rule.selector];
      }
      hidden := hidden[rule.selector := HideRecord(elements, rule)];
    }

    method RemoveRule(sel: string)
      modifies this
      ensures State() == RemoveRuleSpec(old(State()), sel)
    {
      if sel !in hidden {
        return;
      }
      var ruleData := hidden[sel];
      var todo := ruleData.elements;
      ghost var done: set<ElemId> := {};
      ghost var m0 := marks;
      while todo != {}
        invariant done + todo == ruleData.elements && done !! todo
        invariant marks == ShowOn(m0, done)
        invariant State() == old(State()).(marks := marks)
        decreases todo
      {
        var x :| x in todo;
        ShowOnStep(m0, done, x);
        ShowElement(x);
        done := done + {x};
        todo := todo - {x};
      }
      RemoveCssRule(sel);
      hidden := hidden - {sel};
      order := RemoveAll(order, sel);
    }

    method ClearAllRules()
      modifies this
      ensures State() == ClearSpec(old(State()))
    {
      var keys := order;
      for i := 0 to |keys|
        invariant State() == RemoveEach(old(State()), keys[..i])
      {
        assert keys[..i + 1][..i] == keys[..i];
        RemoveRule(keys[i]);
      }
      assert keys[..|keys|] == keys;
      while |sheet| > 0
        invariant State() == RemoveEach(old(State()), keys).(sheet := sheet)
      {
        sheet := sheet[1..];
      }
    }

    method ApplyRules(rules: Option<seq<Rule>>, matches: Matcher, computed: ElemId -> string)
      modifies this
      ensures State() == ApplySpec(old(State()), rules, matches, computed)
    {
      if rules.None? {
        return;
      }
      var rs := rules.value;
      ClearAllRules();
      ghost var cleared := State();
      for i := 0 to |rs|
        invariant State() == AddEach(cleared, rs[..i], matches, computed)
      {
        assert rs[..i + 1][..i] == rs[..i];
        var rule := rs[i];
        if rule.enabled && rule.selector != "" {
          AddRule(rule, matches, computed);
        }
      }
      assert rs[..|rs|] == rs;
    }

    method ReapplyAllRules(matches: Matcher, computed: ElemId -> string)
      modifies this
      ensures State() == ReapplySpec(old(State()), matches, computed)
    {
      var current := RulesIn(order, hidden);
      ApplyRules(Some(current), matches, computed);
    }

    /** The decision of `handleDOMChanges`, with its nested loops and breaks. */
    static method ShouldReapply(mutations: seq<Mutation>) returns (shouldReapply: bool)
      ensures shouldReapply <==> exists i :: 0 <= i < |mutations| && AddsElement(mutations[i])
    {
      shouldReapply := false;
      var i := 0;
      while i < |mutations|
        invariant 0 <= i <= |mutations|
        invariant shouldReapply <==> exists k :: 0 <= k < i && AddsElement(mutations[k])
      {
        var mutation := mutations[i];
        if mutation.childList {
          var j := 0;
          while j < |mutation.addedNodeTypes|
            invariant 0 <= j <= |mutation.addedNodeTypes|
            invariant shouldReapply <==>
              (exists k :: 0 <= k < i && AddsElement(mutations[k]))
              || (exists k :: 0 <= k < j && mutation.addedNodeTypes[k] == ElementNode)
          {
            if mutation.addedNodeTypes[j] == ElementNode {
              shouldReapply := true;
              break;
            }
            j := j + 1;
          }
        }
        if shouldReapply {
          break;
        }
        i := i + 1;
      }
    }

    method HandleDomChanges(mutations: seq<Mutation>, matches: Matcher, computed: ElemId -> string)
      modifies this
      ensures (exists i :: 0 <= i < |mutations| && AddsElement(mutations[i])) ==>
        State() == ReapplySpec(old(State()), matches, computed)
      ensures (forall i :: 0 <= i < |mutations| ==> !AddsElement(mutations[i])) ==>
        State() == old(State())
    {
      var shouldReapply := ShouldReapply(mutations);
      if shouldReapply {
        ReapplyAllRules(matches, computed);
      }
    }

    /** The observer callback: nothing happens while the hider is inactive.
        The 100 ms debounce is not modelled. */
    method OnMutations(mutations: seq<Mutation>, matches: Matcher, computed: ElemId -> string)
      modifies this
      ensures !old(isActive) ==> State() == old(State())
      ensures old(isActive) && (exists i :: 0 <= i < |mutations| && AddsElement(mutations[i])) ==>
        State() == ReapplySpec(old(State()), matches, computed)
      ensures old(isActive) && (forall i :: 0 <= i < |mutations| ==> !AddsElement(mutations[i])) ==>
        State() == old(State())
    {
      if !isActive {
        return;
      }
      HandleDomChanges(mutations, matches, computed);
    }

    method SetActive(active: bool, matches: Matcher, computed: ElemId -> string)
      modifies this
      ensures State() == SetActiveSpec(old(State()), active, matches, computed)
    {
      isActive := active;
      if active {
        ReapplyAllRules(matches, computed);
        observing := true;
      } else {
        ClearAllRules();
        observing := false;
      }
    }

    /** `getStats`: one entry per tracked selector in insertion order; an entry
        is valid when it hid at least one element. */
    method GetStats() returns (st: Stats)
      requires Valid(State())
      ensures StatsOf(State(), st)
    {
      var totalElements := 0;
      var ruleStats: seq<RuleStat> := [];
      for i := 0 to |order|
        invariant totalElements == ElementTotal(order[..i], hidden)
        invariant |ruleStats| == i
        invariant forall k :: 0 <= k < i ==>
          ruleStats[k] == RuleStat(order[k], hidden[order[k]].rule, |hidden[order[k]].elements|,
                                   |hidden[order[k]].elements| > 0)
      {
        assert order[..i + 1][..i] == order[..i];
        var selector := order[i];
        var data := hidden[selector];
        var elementCount := |data.elements|;
        totalElements := totalElements + elementCount;
        ruleStats := ruleStats + [RuleStat(selector, data.rule, elementCount, elementCount > 0)];
      }
      assert order[..|order|] == order;
      KeysCount(State());
      st := Stats(|hidden|, totalElements, ruleStats, isActive);
    }

    /** `isElementHidden` */
    predicate IsElementHidden(x: ElemId)
      reads this
    {
      MarksOf(marks, x).hiddenClass
    }

    /** `getElementRule`: for a hidden element with a rule-id marker, the rule of
        the first entry in insertion order with that id. */
    method GetElementRule(x: ElemId) returns (r: Option<Rule>)
      requires Valid(State())
      ensures !IsElementHidden(x) ==> r.None?
      ensures MarksOf(marks, x).ruleId.None? || MarksOf(marks, x).ruleId.value == "" ==> r.None?
      ensures r.Some? ==> exists k :: FirstWithId(order, hidden, k, r.value, MarksOf(marks, x).ruleId)
      ensures r.None? && IsElementHidden(x) && MarksOf(marks, x).ruleId.Some? && MarksOf(marks, x).ruleId.value != "" ==>
        forall j :: 0 <= j < |order| ==> Some(hidden[order[j]].rule.id) != MarksOf(marks, x).ruleId
    {
      if !IsElementHidden(x) {
        return None;
      }
      var ruleId := MarksOf(marks, x).ruleId;
      if ruleId.None? || ruleId.value == "" {
        return None;
      }
      for i := 0 to |order|
        invariant forall j :: 0 <= j < i ==> Some(hidden[order[j]].rule.id) != ruleId
      {
        var data := hidden[order[i]];
        if data.rule.id == ruleId.value {
          assert FirstWithId(order, hidden, i, data.rule, ruleId);
          return Some(data.rule);
        }
      }
      return None;
    }
  }

  /** One step of the reverse deletion loop: `deleteRule(i)` when rule `i` is
      for `sel`. */
  function DeleteStep(rules: seq<string>, live: seq<string>, i: nat, sel: string): (r: seq<string>)
    requires i < |rules| && live == rules[..i + 1] + RemoveAll(rules[i + 1..], sel)
    ensures r == rules[..i] + RemoveAll(rules[i..], sel)
  {
    DeleteStepFacts(rules, live, i, sel);
    if rules[i] == sel then live[..i] + live[i + 1..] else live
  }

  lemma DeleteStepFacts(rules: seq<string>, live: seq<string>, i: nat, sel: string)
    requires i < |rules| && live == rules[..i + 1] + RemoveAll(rules[i + 1..], sel)
    ensures i < |live|
    ensures rules[i] == sel ==> live[..i] + live[i + 1..] == rules[..i] + RemoveAll(rules[i..], sel)
    ensures rules[i] != sel ==> live == rules[..i] + RemoveAll(rules[i..], sel)
  {
    var pre, x, tail := rules[..i], rules[i], RemoveAll(rules[i + 1..], sel);
    assert rules[..i + 1] == pre + [x];
    assert live == (pre + [x]) + tail;
    assert (pre + [x]) + tail == pre + ([x] + tail);
    assert |pre| == i && live[..i] == pre && live[i + 1..] == tail;
    RemoveAllStep(rules, i, sel);
    if x == sel {
      assert RemoveAll(rules[i..], sel) == tail;
    } else {
      assert RemoveAll(rules[i..], sel) == [x] + tail;
    }
  }

  lemma RemoveAllStep(rules: seq<string>, i: nat, sel: string)
    requires i < |rules|
    ensures RemoveAll(rules[i..], sel) ==
      (if rules[i] == sel then [] else [rules[i]]) + RemoveAll(rules[i + 1..], sel)
  {
    assert rules[i..][1..] == rules[i + 1..];
  }

  /** The map has as many entries as the insertion order has keys. */
  lemma KeysCount(s: HState)
    requires Valid(s)
    ensures |s.hidden| == |s.order|
  {
    DistinctCard(s.order);
    assert s.hidden.Keys == set k | k in s.order;
  }

  lemma {:induction false} DistinctCard(s: seq<string>)
    requires Distinct(s)
    ensures |set k | k in s| == |s|
  {
    if s != [] {
      var t := s[1..];
      assert Distinct(t);
      DistinctCard(t);
      assert s[0] !in t by {
        forall j | 0 <= j < |t| ensures t[j] != s[0] {
          assert t[j] == s[j + 1];
        }
      }
      assert (set k | k in s) == (set k | k in t) + {s[0]};
    }
  }
}
