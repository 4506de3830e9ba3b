/** The content script (`HideBoxContentScript`): the element-selection session
    with its set of selected elements and its undo stack, the edits it makes to
    the current domain's rule list, the rule lookup for the page, and the
    message switch. The stores are passed in and out as values. */
module Content {
  import opened Common
  import opened Rules
  import opened Dom
  import opened Selectors
  import opened Hider

  // ------------------------------------------------------------ rule lookup

  /** The rule list used for the page (the lookup of `loadAndApplyRules`): the
      entry stored for the exact hostname when there is one, and only when
      there is none, the first stored entry that applies to subdomains and of
      which the hostname is a subdomain. */
  function LookupDomainData(ds: Domains, host: string): (r: Option<DomainData>)
    ensures Get(ds, host).Some? ==> r == Get(ds, host)
    ensures Get(ds, host).None? && FirstInheriting(ds, host).Some? ==>
      r == Some(ds[FirstInheriting(ds, host).value].1)
    ensures r.None? <==> Get(ds, host).None? && forall j :: 0 <= j < |ds| ==> !Inherits(ds[j], host)
  {
    match Get(ds, host)
    case Some(data) => Some(data)
    case None =>
      match FirstInheriting(ds, host)
      case Some(i) => Some(ds[i].1)
      case None => None
  }

  /** The rules handed to the hider on page load: the enabled ones of the
      looked-up entry; None when no entry applies and the hider is not called. */
  function RulesToApply(ds: Domains, host: string): (r: Option<seq<Rule>>)
    ensures r.None? <==> LookupDomainData(ds, host).None?
    ensures r.Some? ==> forall x :: x in r.value <==> x in LookupDomainData(ds, host).value.rules && x.enabled
    ensures r.Some? ==> r.value == Enabled(LookupDomainData(ds, host).value.rules)
  {
    match LookupDomainData(ds, host)
    case Some(data) => Some(Enabled(data.rules))
    case None => None
  }

  // ------------------------------------------------------------- storage

  /** A new domain entry, as `saveRuleToStorage` creates it. */
  function NewEntry(now: int): DomainData {
    DomainData(false, [], now)
  }

  /** `saveRuleToStorage` on the stored domains: the rule is appended to the
      domain's list (the entry created if missing) unless a rule with the same
      selector is there. The flag tells whether the store was written. */
  function SaveRuleToStorage(ds: Domains, host: string, rule: Rule, now: int): (r: (Domains, bool))
    ensures var old_ := if Get(ds, host).Some? then Get(ds, host).value.rules else [];
      r.1 <==> !HasSelector(old_, rule.selector)
    ensures !r.1 ==> r.0 == ds
    ensures r.1 ==> var old_ := if Get(ds, host).Some? then Get(ds, host).value.rules else [];
      Get(r.0, host).Some? && Get(r.0, host).value.rules == old_ + [rule]
      && Get(r.0, host).value.updatedAt == now
    ensures Get(r.0, host).Some? && HasSelector(Get(r.0, host).value.rules, rule.selector)
    ensures forall k :: k != host ==> Get(r.0, k) == Get(ds, k)
    ensures KeysDistinct(ds) ==> KeysDistinct(r.0)
  {
    var entry := match Get(ds, host) case Some(e) => e case None => NewEntry(now);
    if HasSelector(entry.rules, rule.selector) then (ds, false)
    else
      var rules := entry.rules + [rule];
      assert rules[|entry.rules|].selector == rule.selector;
      (Put(ds, host, entry.(rules := rules, updatedAt := now)), true)
  }

  /** `removeRuleFromStorage` on the stored domains: every rule of the domain's
      list with the selector goes; the store is written, and true returned,
      exactly when the list got shorter. */
  function RemoveRuleFromStorage(ds: Domains, host: string, sel: string, now: int): (r: (Domains, bool))
    ensures r.1 <==> Get(ds, host).Some? && HasSelector(Get(ds, host).value.rules, sel)
    ensures !r.1 ==> r.0 == ds
    ensures r.1 ==> Get(r.0, host) == Some(Get(ds, host).value.(
      rules := WithoutSelector(Get(ds, host).value.rules, sel), updatedAt := now))
    ensures forall k :: k != host ==> Get(r.0, k) == Get(ds, k)
    ensures Get(r.0, host).Some? ==> !HasSelector(Get(r.0, host).value.rules, sel) || !r.1
  {
    match Get(ds, host)
    case None => (ds, false)
    case Some(entry) =>
      var filtered := WithoutSelector(entry.rules, sel);
      if |filtered| < |entry.rules| then (Put(ds, host, entry.(rules := filtered, updatedAt := now)), true)
      else (ds, false)
  }

    /** Saving a new rule and removing its selector again restores the domain's
      rule list (only the timestamp has moved). */
  lemma SaveThenRemove(ds: Domains, host: string, rule: Rule, t1: int, t2: int)
    requires Get(ds, host).Some? && !HasSelector(Get(ds, host).value.rules, rule.selector)
    ensures var saved := SaveRuleToStorage(ds, host, rule, t1);
      var removed := RemoveRuleFromStorage(saved.0, host, rule.selector, t2);
      saved.1 && removed.1
      && Get(removed.0, host) == Some(Get(ds, host).value.(updatedAt := t2))
  {
    var saved := SaveRuleToStorage(ds, host, rule, t1);
    WithoutAppended(Get(ds, host).value.rules, rule);
  }

  // --------------------------------------------------------- element note

  /** The text part of the note: cut to 20 characters plus "..." when longer. */
  function NoteText(t: string): (r: string)
    ensures |t| <= 20 ==> r == t
    ensures |t| > 20 ==> |r| == 23 && StartsWith(t, r[..20]) && EndsWith(r, "...")
  {
    if |t| > 20 then t[..20] + "..." else t
  }

  /** The note built from an element's description. */
  function NoteOf(info: ElementInfo): string {
    var ident := if info.id != "" then " #" + info.id
                 else if |info.classes| > 0 then " ." + info.classes[0] else "";
    var quoted := if info.text != "" then " \"" + NoteText(info.text) + "\"" else "";
    Upper(info.tag) + ident + quoted
  }

  lemma NoteOfShape(info: ElementInfo)
    ensures StartsWith(NoteOf(info), Upper(info.tag))
    ensures info.id != "" ==> StartsWith(NoteOf(info), Upper(info.tag) + " #" + info.id)
    ensures info.id == "" && |info.classes| > 0 ==>
      StartsWith(NoteOf(info), Upper(info.tag) + " ." + info.classes[0])
    ensures info.id == "" && info.classes == [] && info.text == "" ==> NoteOf(info) == Upper(info.tag)
  {
    var head := Upper(info.tag);
    var ident := if info.id != "" then " #" + info.id
                 else if |info.classes| > 0 then " ." + info.classes[0] else "";
    var quoted := if info.text != "" then " \"" + NoteText(info.text) + "\"" else "";
    assert NoteOf(info) == (head + ident) + quoted;
    assert ((head + ident) + quoted)[..|head + ident|] == head + ident;
    assert (head + ident)[..|head|] == head;
  }

  /** The note in full: the upper-cased tag, then ` #id`, or else ` .firstClass`,
      or nothing; then, when there is text, the cut text in double quotes,
      which the note ends with. */
  lemma NoteOfExact(info: ElementInfo)
    ensures var base := NoteOf(info.(text := ""));
      NoteOf(info) == base + (if info.text != "" then " \"" + NoteText(info.text) + "\"" else "")
      && (info.id != "" ==> base == Upper(info.tag) + " #" + info.id)
      && (info.id == "" && |info.classes| > 0 ==> base == Upper(info.tag) + " ." + info.classes[0])
      && (info.id == "" && info.classes == [] ==> base == Upper(info.tag))
    ensures info.text != "" ==> EndsWith(NoteOf(info), " \"" + NoteText(info.text) + "\"")
  {
    var base := NoteOf(info.(text := ""));
    var quoted := if info.text != "" then " \"" + NoteText(info.text) + "\"" else "";
    assert NoteOf(info) == base + quoted;
    assert (base + quoted)[|base + quoted| - |quoted|..] == quoted;
  }

  /** `generateElementNote`: the upper-cased tag, then " #id" or else
      " .firstClass", then the quoted text; empty for a missing element. */
  function GenerateElementNote(d: Document, e: ElemId): (r: string)
    ensures e !in d.elems ==> r == ""
    ensures e in d.elems ==> StartsWith(r, Upper(Lower(d.elems[e].tag)))
  {
    match GetElementInfo(d, e)
    case None => ""
    case Some(info) =>
      NoteOfShape(info);
      NoteOf(info)
  }

  /** The note of an element with an id names the id and not its classes; one
      without an id names its first class. */
  lemma NoteNamesElement(d: Document, e: ElemId)
    requires e in d.elems
    ensures var el := d.elems[e];
      var tag := Upper(Lower(el.tag));
      var r := GenerateElementNote(d, e);
      (el.id != "" ==> StartsWith(r, tag + " #" + el.id))
      && (el.id == "" && |el.classes| > 0 ==> StartsWith(r, tag + " ." + el.classes[0]))
      && (el.id == "" && el.classes == [] && Trim(el.text) == "" ==> r == tag)
  {
    var info := GetElementInfo(d, e).value;
    var el := d.elems[e];
    assert info.tag == Lower(el.tag) && info.id == el.id && info.classes == el.classes;
    assert Trim(el.text) == "" ==> info.text == "";
    NoteOfShape(info);
  }

  /** The 50-character cut of `getElementInfo` never shows in the note: the
      note quotes the element's trimmed text as cut to 20 characters. */
  lemma NoteTextOfCut(t: string)
    ensures NoteText(if |t| <= 50 then t else t[..50]) == NoteText(t)
  {
    if |t| > 50 {
      assert t[..50][..20] == t[..20];
    }
  }

  /** The note of a document element in full, from the element itself: the
      upper-cased tag, ` #id` or else ` .firstClass`, then the trimmed text,
      cut to 20 characters plus "...", in double quotes when it is not empty. */
  lemma ElementNoteExact(d: Document, e: ElemId)
    requires e in d.elems
    ensures var el := d.elems[e];
      var t := Trim(el.text);
      var base := Upper(Lower(el.tag))
        + (if el.id != "" then " #" + el.id else if |el.classes| > 0 then " ." + el.classes[0] else "");
      var quoted := if t != "" then " \"" + NoteText(t) + "\"" else "";
      GenerateElementNote(d, e) == base + quoted
      && (t != "" ==> EndsWith(GenerateElementNote(d, e), quoted))
  {
    var info := GetElementInfo(d, e).value;
    var el := d.elems[e];
    var t := Trim(el.text);
    assert info.tag == Lower(el.tag) && info.id == el.id && info.classes == el.classes;
    assert info.text == if |t| <= 50 then t else t[..50];
    assert info.text == "" <==> t == "";
    NoteTextOfCut(t);
    NoteOfExact(info);
  }

  // -------------------------------------------------------------- session

  /** A `tempRules` entry: the rule and the element it was made for. */
  datatype TempRule = TempRule(rule: Rule, element: ElemId)

  function ElementsOf(ts: seq<TempRule>): set<ElemId> {
    set t | t in ts :: t.element
  }

  predicate ElementsDistinct(ts: seq<TempRule>) {
    forall i, j :: 0 <= i < j < |ts| ==> ts[i].element != ts[j].element
  }

  /** `tempRules.filter(rule => rule.element !== element)` */
  function WithoutElement(ts: seq<TempRule>, x: ElemId): (r: seq<TempRule>)
    ensures forall t :: t in r <==> t in ts && t.element != x
    ensures ElementsOf(r) == ElementsOf(ts) - {x}
  {
    if ts == [] then []
    else (if ts[0].element == x then [] else [ts[0]]) + WithoutElement(ts[1..], x)
  }

  /** Filtering keeps the remaining entries in order, so their elements stay distinct. */
  lemma {:induction false} WithoutElementDistinct(ts: seq<TempRule>, x: ElemId)
    requires ElementsDistinct(ts)
    ensures ElementsDistinct(WithoutElement(ts, x))
  {
    if ts != [] {
      var tail := ts[1..];
      assert ElementsDistinct(tail);
      WithoutElementDistinct(tail, x);
      var rest := WithoutElement(tail, x);
      if ts[0].element != x {
        var r := [ts[0]] + rest;
        forall j | 0 < j < |r| ensures r[0].element != r[j].element {
          assert r[j] in rest;
          var k :| 0 <= k < |tail| && tail[k] == r[j];
          assert ts[k + 1] == r[j];
        }
        forall i, j | 0 <= i < j < |r| ensures r[i].element != r[j].element {
          if i > 0 {
            assert r[i] == rest[i - 1] && r[j] == rest[j - 1];
          }
        }
      }
    }
  }

  /** `tempRules.find(rule => rule.element === element)` */
  function FindTemp(ts: seq<TempRule>, x: ElemId): (r: Option<TempRule>)
    ensures r.Some? ==> r.value in ts && r.value.element == x
    ensures r.None? <==> x !in ElementsOf(ts)
  {
    if ts == [] then None
    else if ts[0].element == x then Some(ts[0])
    else
      assert forall t :: t in ts <==> t == ts[0] || t in ts[1..];
      FindTemp(ts[1..], x)
  }

  /** Popping the last entry of a stack of distinct elements drops exactly its element. */
  lemma PopElements(ts: seq<TempRule>)
    requires ts != [] && ElementsDistinct(ts)
    ensures ElementsOf(ts[..|ts| - 1]) == ElementsOf(ts) - {ts[|ts| - 1].element}
    ensures ElementsDistinct(ts[..|ts| - 1])
  {
    var init := ts[..|ts| - 1];
    var last := ts[|ts| - 1];
    assert ts == init + [last];
    assert last.element !in ElementsOf(init) by {
      forall t | t in init ensures t.element != last.element {
        var i :| 0 <= i < |init| && init[i] == t;
        assert ts[i] == t;
      }
    }
  }

  /** Pushing an element not yet on the stack. */
  lemma PushElements(ts: seq<TempRule>, t: TempRule)
    requires ElementsDistinct(ts) && t.element !in ElementsOf(ts)
    ensures ElementsOf(ts + [t]) == ElementsOf(ts) + {t.element}
    ensures ElementsDistinct(ts + [t])
  {
    var r := ts + [t];
    forall i, j | 0 <= i < j < |r| ensures r[i].element != r[j].element {
      if j == |ts| {
        assert r[i] == ts[i] && r[i] in ts;
      }
    }
  }

  /** What the page offers a session method: the document, the computed
      display of each element, the id a new rule would get and the clock. */
  datatype Env = Env(doc: Document, computed: ElemId -> string, ruleId: string, now: int)

  /** The message switch of `handleMessage`. */
  datatype Action = ToggleSelection | GetSelection | UpdateRules | Snooze | GetStatsAction | Unknown

  function Route(action: string): (r: Action)
    ensures r == Unknown <==>
      action !in {"toggleSelectionMode", "getSelectionMode", "updateRules", "snoozeDomain", "getStats"}
  {
    if action == "toggleSelectionMode" then ToggleSelection
    else if action == "getSelectionMode" then GetSelection
    else if action == "updateRules" then UpdateRules
    else if action == "snoozeDomain" then Snooze
    else if action == "getStats" then GetStatsAction
    else Unknown
  }

  /** The content script has no case for the popup's liveness probe. */
  lemma PingIsUnknown()
    ensures Route("ping") == Unknown
  {
    assert "ping" != "getStats";
  }

  datatype Message = Message(action: string, enabled: Option<bool>, rules: Option<seq<Rule>>, minutes: int)

  datatype Response = Success | SelectionMode(enabled: bool) | StatsReply(stats: Stats) | Error(error: string)

  /** The rule object `selectElement` builds for an element: none when the
      generator gives no selector (or an empty one); otherwise the generated
      selector, confidence and fallbacks, the element's note, the fresh id and
      the current time, enabled. */
  function SelectionRule(env: Env, x: ElemId): (r: Option<Rule>)
    ensures r.None? <==> Generate(env.doc, x).selector.None? || Generate(env.doc, x).selector.value == ""
    ensures r.Some? ==>
      r.value.selector == Generate(env.doc, x).selector.value && r.value.id == env.ruleId
      && r.value.enabled && r.value.note == GenerateElementNote(env.doc, x)
  {
    var g := Generate(env.doc, x);
    if g.selector.None? || g.selector.value == "" then None
    else Some(Rule(env.ruleId, g.selector.value, g.confidence, g.fallbacks,
                   GenerateElementNote(env.doc, x), true, env.now))
  }

  /** What `selectElement(x)` does, from the store, undo stack, selected set
      and hider state before the call to those after it: nothing for a
      selected element or one without a selector; otherwise the rule is saved,
      pushed with the element, the element selected and the rule hidden. */
  ghost predicate SelectEffect(x: ElemId, env: Env, host: string,
                               ds: Domains, ts: seq<TempRule>, sel: set<ElemId>, h: HState,
                               ds': Domains, ts': seq<TempRule>, sel': set<ElemId>, h': HState)
  {
    if x in sel || SelectionRule(env, x).None? then
      ds' == ds && ts' == ts && sel' == sel && h' == h
    else
      var rule := SelectionRule(env, x).value;
      ds' == SaveRuleToStorage(ds, host, rule, env.now).0
      && ts' == ts + [TempRule(rule, x)]
      && sel' == sel + {x}
      && h' == AddRuleSpec(h, rule, env.doc.matches, env.computed)
  }

  /** What `selectParentElement(x)` does: nothing without a parent or when the
      parent is the body; otherwise `selectElement` of the parent. */
  ghost predicate ParentEffect(x: ElemId, env: Env, host: string,
                               ds: Domains, ts: seq<TempRule>, sel: set<ElemId>, h: HState,
                               ds': Domains, ts': seq<TempRule>, sel': set<ElemId>, h': HState)
  {
    var p := ParentOf(env.doc, x);
    if p.None? || p == env.doc.body then
      ds' == ds && ts' == ts && sel' == sel && h' == h
    else
      SelectEffect(p.value, env, host, ds, ts, sel, h, ds', ts', sel', h')
  }

  /** What `unselectElement(x)` does: nothing for an element not selected;
      otherwise the element and every undo entry for it go, and when it has an
      entry, that rule's selector leaves the store and the hider. */
  ghost predicate UnselectEffect(x: ElemId, env: Env, host: string,
                                 ds: Domains, ts: seq<TempRule>, sel: set<ElemId>, h: HState,
                                 ds': Domains, ts': seq<TempRule>, sel': set<ElemId>, h': HState)
  {
    if x !in sel then
      ds' == ds && ts' == ts && sel' == sel && h' == h
    else
      ts' == WithoutElement(ts, x) && sel' == sel - {x}
      && if FindTemp(ts, x).None? then ds' == ds && h' == h
         else
           var selector := FindTemp(ts, x).value.rule.selector;
           ds' == RemoveRuleFromStorage(ds, host, selector, env.now).0
           && h' == RemoveRuleSpec(h, selector)
  }

  /** What `undoLastSelection` does: nothing on an empty stack; otherwise the
      last entry is popped, its element unselected and its selector removed
      from the store and the hider. */
  ghost predicate UndoEffect(env: Env, host: string,
                             ds: Domains, ts: seq<TempRule>, sel: set<ElemId>, h: HState,
                             ds': Domains, ts': seq<TempRule>, sel': set<ElemId>, h': HState)
  {
    if ts == [] then
      ds' == ds && ts' == ts && sel' == sel && h' == h
    else
      var last := ts[|ts| - 1];
      ts' == ts[..|ts| - 1]
      && sel' == sel - {last.element}
      && ds' == RemoveRuleFromStorage(ds, host, last.rule.selector, env.now).0
      && h' == RemoveRuleSpec(h, last.rule.selector)
  }

  /** A selection that acted saved, pushed, selected and hid its rule. */
  lemma SelectActed(x: ElemId, env: Env, host: string,
                    ds: Domains, ts: seq<TempRule>, sel: set<ElemId>, h: HState,
                    ds1: Domains, ts1: seq<TempRule>, sel1: set<ElemId>, h1: HState)
    requires x !in sel && SelectionRule(env, x).Some?
    requires SelectEffect(x, env, host, ds, ts, sel, h, ds1, ts1, sel1, h1)
    ensures var rule := SelectionRule(env, x).value;
      ds1 == SaveRuleToStorage(ds, host, rule, env.now).0
      && ts1 == ts + [TempRule(rule, x)] && sel1 == sel + {x}
      && h1 == AddRuleSpec(h, rule, env.doc.matches, env.computed)
  {
  }

  /** Undo right after a selection that acted gives back the undo stack and
      the selected set. */
  lemma SelectThenUndoSession(x: ElemId, env: Env, env2: Env, host: string,
      ds: Domains, ts: seq<TempRule>, sel: set<ElemId>, h: HState,
      ds1: Domains, ts1: seq<TempRule>, sel1: set<ElemId>, h1: HState,
      ds2: Domains, ts2: seq<TempRule>, sel2: set<ElemId>, h2: HState)
    requires x !in sel && SelectionRule(env, x).Some?
    requires SelectEffect(x, env, host, ds, ts, sel, h, ds1, ts1, sel1, h1)
    requires UndoEffect(env2, host, ds1, ts1, sel1, h1, ds2, ts2, sel2, h2)
    ensures ts2 == ts && sel2 == sel
  {
    var rule := SelectionRule(env, x).value;
    SelectActed(x, env, host, ds, ts, sel, h, ds1, ts1, sel1, h1);
    PushThenPop(ts, TempRule(rule, x));
    AddThenRemove(sel, x);
  }

  lemma PushThenPop(ts: seq<TempRule>, t: TempRule)
    ensures var ts1 := ts + [t]; ts1 != [] && ts1[|ts1| - 1] == t && ts1[..|ts1| - 1] == ts
  {
    var ts1 := ts + [t];
    assert ts1[..|ts1| - 1] == ts;
  }

  lemma AddThenRemove(sel: set<ElemId>, x: ElemId)
    requires x !in sel
    ensures (sel + {x}) - {x} == sel
  {
  }

  /** Undo right after a selection that acted leaves the hider tracking the
      same selectors as before when the new selector was not tracked. */
  lemma SelectThenUndoHider(x: ElemId, env: Env, env2: Env, host: string,
      ds: Domains, ts: seq<TempRule>, sel: set<ElemId>, h: HState,
      ds1: Domains, ts1: seq<TempRule>, sel1: set<ElemId>, h1: HState,
      ds2: Domains, ts2: seq<TempRule>, sel2: set<ElemId>, h2: HState)
    requires x !in sel && SelectionRule(env, x).Some?
    requires SelectEffect(x, env, host, ds, ts, sel, h, ds1, ts1, sel1, h1)
    requires UndoEffect(env2, host, ds1, ts1, sel1, h1, ds2, ts2, sel2, h2)
    requires Hider.Valid(h)
    ensures SelectionRule(env, x).value.selector !in h.hidden ==> h2.hidden.Keys == h.hidden.Keys
  {
    var rule := SelectionRule(env, x).value;
    SelectActed(x, env, host, ds, ts, sel, h, ds1, ts1, sel1, h1);
    assert ts1 != [] && ts1[|ts1| - 1] == TempRule(rule, x);
    assert h2 == RemoveRuleSpec(h1, rule.selector);
    if rule.selector !in h.hidden {
      UndoRestoresKeys(h, rule, env.doc.matches, env.computed);
    }
  }

  /** Undo right after a selection that acted gives a domain entry that
      lacked the selector its rule list back. */
  lemma SelectThenUndoStore(x: ElemId, env: Env, env2: Env, host: string,
      ds: Domains, ts: seq<TempRule>, sel: set<ElemId>, h: HState,
      ds1: Domains, ts1: seq<TempRule>, sel1: set<ElemId>, h1: HState,
      ds2: Domains, ts2: seq<TempRule>, sel2: set<ElemId>, h2: HState)
    requires x !in sel && SelectionRule(env, x).Some?
    requires SelectEffect(x, env, host, ds, ts, sel, h, ds1, ts1, sel1, h1)
    requires UndoEffect(env2, host, ds1, ts1, sel1, h1, ds2, ts2, sel2, h2)
    ensures Get(ds, host).Some? && !HasSelector(Get(ds, host).value.rules, SelectionRule(env, x).value.selector) ==>
      Get(ds2, host) == Some(Get(ds, host).value.(updatedAt := env2.now))
  {
    var rule := SelectionRule(env, x).value;
    SelectActed(x, env, host, ds, ts, sel, h, ds1, ts1, sel1, h1);
    assert ts1 != [] && ts1[|ts1| - 1] == TempRule(rule, x);
    assert ds2 == RemoveRuleFromStorage(ds1, host, rule.selector, env2.now).0;
    if Get(ds, host).Some? && !HasSelector(Get(ds, host).value.rules, rule.selector) {
      SaveThenRemove(ds, host, rule, env.now, env2.now);
    }
  }

  /** Adding a rule whose selector was untracked and removing it again leaves
      the same tracked selectors. */
  lemma UndoRestoresKeys(h: HState, rule: Rule, matches: Matcher, computed: ElemId -> string)
    requires Hider.Valid(h) && rule.selector !in h.hidden
    ensures RemoveRuleSpec(AddRuleSpec(h, rule, matches, computed), rule.selector).hidden.Keys == h.hidden.Keys
  {
    AddRulePreservesValid(h, rule, matches, computed);
    RemoveRulePreservesValid(AddRuleSpec(h, rule, matches, computed), rule.selector);
  }

  class Session {
    var isSelectionMode: bool
    const currentDomain: string
    var selectedElements: set<ElemId>
    var tempRules: seq<TempRule>
    const hider: ElementHider

    /** The set of selected elements is the set of elements on the undo stack,
        each there once, and the hider keeps its own invariant. */
    ghost predicate Valid()
      reads this, hider
    {
      selectedElements == ElementsOf(tempRules) && ElementsDistinct(tempRules)
      && Hider.Valid(hider.State())
    }

    constructor(host: string, page: map<ElemId, Marks>)
      ensures Valid() && !isSelectionMode && currentDomain == host
      ensures selectedElements == {} && tempRules == []
      ensures fresh(hider) && hider.State() == HState([], map[], [], page, true, true)
    {
      isSelectionMode := false;
      currentDomain := host;
      selectedElements := {};
      tempRules := [];
      hider := new ElementHider(page);
    }

    /** The lookup and apply part of `loadAndApplyRules`. */
    method LoadAndApplyRules(ds: Domains, env: Env)
      requires Valid()
      modifies hider
      ensures Valid()
      ensures RulesToApply(ds, currentDomain).None? ==> hider.State() == old(hider.State())
      ensures RulesToApply(ds, currentDomain).Some? ==>
        hider.State() == ApplySpec(old(hider.State()), RulesToApply(ds, currentDomain), env.doc.matches, env.computed)
    {
      var found := LookupDomainData(ds, currentDomain);
      if found.Some? {
        var enabledRules := Enabled(found.value.rules);
        ApplyKeys(hider.State(), Some(enabledRules), env.doc.matches, env.computed);
        hider.ApplyRules(Some(enabledRules), env.doc.matches, env.computed);
      }
    }

    /** `checkSnoozeStatus`: a live snooze (non-zero and in the future)
        switches the hider off; an expired one is deleted from the returned
        snooze map. */
    method CheckSnoozeStatus(snooze: map<string, int>, env: Env) returns (snooze': map<string, int>)
      requires Valid()
      modifies hider
      ensures Valid()
      ensures var live := currentDomain in snooze && snooze[currentDomain] != 0 && env.now < snooze[currentDomain];
        (live ==> snooze' == snooze && hider.State() == SetActiveSpec(old(hider.State()), false, env.doc.matches, env.computed))
        && (!live ==> hider.State() == old(hider.State()))
        && (!live && currentDomain in snooze && snooze[currentDomain] != 0 ==> snooze' == snooze - {currentDomain})
        && (currentDomain !in snooze || snooze[currentDomain] == 0 ==> snooze' == snooze)
    {
      snooze' := snooze;
      if currentDomain in snooze && snooze[currentDomain] != 0 {
        var until := snooze[currentDomain];
        if env.now < until {
          ClearEmpties(hider.State().(active := false));
          hider.SetActive(false, env.doc.matches, env.computed);
        } else {
          snooze' := snooze - {currentDomain};
        }
      }
    }

    /** `clearTempSelections` */
    method ClearTempSelections()
      requires Valid()
      modifies this
      ensures Valid() && selectedElements == {} && tempRules == [] && isSelectionMode == old(isSelectionMode)
    {
      selectedElements := {};
      tempRules := [];
    }

    /** `toggleSelectionMode`: an explicit value is taken, no value flips the
        mode; turning it off ends the session with no hider call, so the rules
        hidden during it stay hidden. */
    method ToggleSelectionMode(enabled: Option<bool>)
      requires Valid()
      modifies this
      ensures Valid()
      ensures isSelectionMode == if enabled.Some? then enabled.value else !old(isSelectionMode)
      ensures !isSelectionMode ==> selectedElements == {} && tempRules == []
      ensures isSelectionMode ==> selectedElements == old(selectedElements) && tempRules == old(tempRules)
      ensures hider.State() == old(hider.State())
    {
      if enabled.Some? {
        isSelectionMode := enabled.value;
      } else {
        isSelectionMode := !isSelectionMode;
      }
      if !isSelectionMode {
        ClearTempSelections();
      }
    }

    /** `selectElement`: nothing for an element already selected or one the
        generator has no selector for; otherwise the rule is saved for the
        domain (unless its selector is listed), pushed with its element on the
        undo stack, and added to the hider whatever the store did. */
    method SelectElement(x: ElemId, ds: Domains, env: Env) returns (ds': Domains)
      requires Valid()
      modifies this, hider
      ensures Valid()
      ensures isSelectionMode == old(isSelectionMode)
      ensures SelectEffect(x, env, currentDomain, ds, old(tempRules), old(selectedElements), old(hider.State()),
                           ds', tempRules, selectedElements, hider.State())
    {
      ds' := ds;
      if x in selectedElements {
        return;
      }
      var selectorData := GenerateSelector(env.doc, x);
      if selectorData.selector.None? || selectorData.selector.value == "" {
        return;
      }
      var rule := Rule(env.ruleId, selectorData.selector.value, selectorData.confidence,
                       selectorData.fallbacks, GenerateElementNote(env.doc, x), true, env.now);
      assert SelectionRule(env, x) == Some(rule);
      var saved := SaveRuleToStorage(ds, currentDomain, rule, env.now);
      ds' := saved.0;
      PushElements(tempRules, TempRule(rule, x));
      selectedElements := selectedElements + {x};
      tempRules := tempRules + [TempRule(rule, x)];
      AddRulePreservesValid(hider.State(), rule, env.doc.matches, env.computed);
      hider.AddRule(rule, env.doc.matches, env.computed);
    }

    /** `selectParentElement`: the parent is selected unless there is none or
        it is the body. */
    method SelectParentElement(x: ElemId, ds: Domains, env: Env) returns (ds': Domains)
      requires Valid()
      modifies this, hider
      ensures Valid()
      ensures isSelectionMode == old(isSelectionMode)
      ensures ParentEffect(x, env, currentDomain, ds, old(tempRules), old(selectedElements), old(hider.State()),
                           ds', tempRules, selectedElements, hider.State())
    {
      ds' := ds;
      var parent := ParentOf(env.doc, x);
      if parent.Some? && parent != env.doc.body {
        ds' := SelectElement(parent.value, ds, env);
      }
    }

    /** `unselectElement`: nothing for an element not selected; otherwise its
        rule is removed from the store and the hider, and every undo entry for
        the element goes with the element itself. */
    method UnselectElement(x: ElemId, ds: Domains, env: Env) returns (ds': Domains)
      requires Valid()
      modifies this, hider
      ensures Valid()
      ensures isSelectionMode == old(isSelectionMode)
      ensures UnselectEffect(x, env, currentDomain, ds, old(tempRules), old(selectedElements), old(hider.State()),
                             ds', tempRules, selectedElements, hider.State())
    {
      ds' := ds;
      if x !in selectedElements {
        return;
      }
      var tempRule := FindTemp(tempRules, x);
      var sel := tempRule.value.rule.selector;
      ds' := RemoveRuleFromStorage(ds, currentDomain, sel, env.now).0;
      WithoutElementDistinct(tempRules, x);
      RemoveRulePreservesValid(hider.State(), sel);
      hider.RemoveRule(sel);
      selectedElements := selectedElements - {x};
      tempRules := WithoutElement(tempRules, x);
    }

    /** `undoLastSelection`: nothing on an empty stack; otherwise exactly the
        last entry is popped, its element unselected, and its selector removed
        from the store and the hider. */
    method UndoLastSelection(ds: Domains, env: Env) returns (ds': Domains)
      requires Valid()
      modifies this, hider
      ensures Valid()
      ensures isSelectionMode == old(isSelectionMode)
      ensures UndoEffect(env, currentDomain, ds, old(tempRules), old(selectedElements), old(hider.State()),
                         ds', tempRules, selectedElements, hider.State())
    {
      ds' := ds;
      if |tempRules| == 0 {
        return;
      }
      var lastRule := tempRules[|tempRules| - 1];
      PopElements(tempRules);
      tempRules := tempRules[..|tempRules| - 1];
      ds' := RemoveRuleFromStorage(ds, currentDomain, lastRule.rule.selector, env.now).0;
      RemoveRulePreservesValid(hider.State(), lastRule.rule.selector);
      hider.RemoveRule(lastRule.rule.selector);
      selectedElements := selectedElements - {lastRule.element};
    }

    /** `saveSelectedElements`: the session ends; nothing is undone. */
    method SaveSelectedElements()
      requires Valid()
      modifies this
      ensures Valid() && !isSelectionMode && selectedElements == {} && tempRules == []
      ensures hider.State() == old(hider.State())
    {
      ClearTempSelections();
      ToggleSelectionMode(Some(false));
    }

    /** The `click` listener: ignored outside selection mode, without a target
        or on the extension's own overlay; Shift selects the parent, Ctrl or
        Meta unselects, a plain click selects. */
    method HandleMouseClick(target: Option<ElemId>, onOverlay: bool, shift: bool, ctrl: bool, meta: bool,
                            ds: Domains, env: Env) returns (ds': Domains)
      requires Valid()
      modifies this, hider
      ensures Valid()
      ensures isSelectionMode == old(isSelectionMode)
      ensures !old(isSelectionMode) || target.None? || onOverlay ==>
        ds' == ds && tempRules == old(tempRules) && selectedElements == old(selectedElements)
        && hider.State() == old(hider.State())
      ensures old(isSelectionMode) && target.Some? && !onOverlay && shift ==>
        ParentEffect(target.value, env, currentDomain, ds, old(tempRules), old(selectedElements), old(hider.State()),
                     ds', tempRules, selectedElements, hider.State())
      ensures old(isSelectionMode) && target.Some? && !onOverlay && !shift && (ctrl || meta) ==>
        UnselectEffect(target.value, env, currentDomain, ds, old(tempRules), old(selectedElements), old(hider.State()),
                       ds', tempRules, selectedElements, hider.State())
      ensures old(isSelectionMode) && target.Some? && !onOverlay && !shift && !ctrl && !meta ==>
        SelectEffect(target.value, env, currentDomain, ds, old(tempRules), old(selectedElements), old(hider.State()),
                     ds', tempRules, selectedElements, hider.State())
    {
      ds' := ds;
      if !isSelectionMode {
        return;
      }
      if target.None? || onOverlay {
        return;
      }
      if shift {
        ds' := SelectParentElement(target.value, ds, env);
      } else if ctrl || meta {
        ds' := UnselectElement(target.value, ds, env);
      } else {
        ds' := SelectElement(target.value, ds, env);
      }
    }

    /** The selection-mode `keydown` listener: Escape leaves the mode, Ctrl+U
        or Meta+U undoes, Enter saves; other keys and keys outside selection
        mode do nothing. The capture-phase Escape listener installed at start
        (content/content-script.js:36-45) has the same effect as the Escape case. */
    method HandleKeyDown(key: string, ctrl: bool, meta: bool, ds: Domains, env: Env) returns (ds': Domains)
      requires Valid()
      modifies this, hider
      ensures Valid()
      ensures !old(isSelectionMode) || key !in {"Escape", "u", "U", "Enter"} || (key in {"u", "U"} && !ctrl && !meta) ==>
        ds' == ds && tempRules == old(tempRules) && selectedElements == old(selectedElements)
        && hider.State() == old(hider.State()) && isSelectionMode == old(isSelectionMode)
      ensures old(isSelectionMode) && key in {"Escape", "Enter"} ==>
        ds' == ds && !isSelectionMode && tempRules == [] && selectedElements == {} && hider.State() == old(hider.State())
      ensures old(isSelectionMode) && key in {"u", "U"} && (ctrl || meta) ==>
        isSelectionMode && UndoEffect(env, currentDomain, ds, old(tempRules), old(selectedElements), old(hider.State()),
                                      ds', tempRules, selectedElements, hider.State())
    {
      ds' := ds;
      if !isSelectionMode {
        return;
      }
      if key == "Escape" {
        ToggleSelectionMode(Some(false));
      } else if key == "u" || key == "U" {
        if ctrl || meta {
          ds' := UndoLastSelection(ds, env);
        }
      } else if key == "Enter" {
        SaveSelectedElements();
      }
    }

    /** `handleMessage`; `snoozeDomain` is `handleSnooze`, which switches the
        hider off. */
    method HandleMessage(msg: Message, env: Env) returns (resp: Response)
      requires Valid()
      modifies this, hider
      ensures Valid()
      ensures Route(msg.action) == Unknown ==>
        resp == Error("Unknown action") && isSelectionMode == old(isSelectionMode)
        && tempRules == old(tempRules) && selectedElements == old(selectedElements)
        && hider.State() == old(hider.State())
      ensures Route(msg.action) == GetSelection ==>
        resp == SelectionMode(old(isSelectionMode)) && hider.State() == old(hider.State())
        && isSelectionMode == old(isSelectionMode)
        && tempRules == old(tempRules) && selectedElements == old(selectedElements)
      ensures Route(msg.action) == ToggleSelection ==>
        resp == Success && isSelectionMode == (if msg.enabled.Some? then msg.enabled.value else !old(isSelectionMode))
        && hider.State() == old(hider.State())
        && (!isSelectionMode ==> selectedElements == {} && tempRules == [])
        && (isSelectionMode ==> selectedElements == old(selectedElements) && tempRules == old(tempRules))
      ensures Route(msg.action) == UpdateRules ==>
        resp == Success && hider.State() == ApplySpec(old(hider.State()), msg.rules, env.doc.matches, env.computed)
        && isSelectionMode == old(isSelectionMode)
        && tempRules == old(tempRules) && selectedElements == old(selectedElements)
      ensures Route(msg.action) == Snooze ==>
        resp == Success && hider.State() == SetActiveSpec(old(hider.State()), false, env.doc.matches, env.computed)
        && isSelectionMode == old(isSelectionMode)
        && tempRules == old(tempRules) && selectedElements == old(selectedElements)
      ensures Route(msg.action) == GetStatsAction ==>
        resp.StatsReply? && Hider.StatsOf(old(hider.State()), resp.stats) && hider.State() == old(hider.State())
        && isSelectionMode == old(isSelectionMode)
        && tempRules == old(tempRules) && selectedElements == old(selectedElements)
    {
      match Route(msg.action)
      case ToggleSelection =>
        ToggleSelectionMode(msg.enabled);
        resp := Success;
      case GetSelection =>
        resp := SelectionMode(isSelectionMode);
      case UpdateRules =>
        ApplyKeys(hider.State(), msg.rules, env.doc.matches, env.computed);
        hider.ApplyRules(msg.rules, env.doc.matches, env.computed);
        resp := Success;
      case Snooze =>
        ClearEmpties(hider.State().(active := false));
        hider.SetActive(false, env.doc.matches, env.computed);
        resp := Success;
      case GetStatsAction =>
        var st := hider.GetStats();
        resp := StatsReply(st);
      case Unknown =>
        resp := Error("Unknown action");
    }
  }
}
