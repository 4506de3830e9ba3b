/** The popup (popup/popup.js): the rule list of the current domain, edited in
    place and written back to the synchronised store, the tag label shown per
    rule and the "enabled/total" counter. The store, the snooze map and the
    answers of the active tab are passed in and handed back as values. */
module Popup {
  import opened Common
  import opened Rules

  // ------------------------------------------------------------- tag label

  predicate IsWordChar(c: char) { IsAsciiLetter(c) || IsDigit(c) }

  /** The length of the longest prefix of `s` made of ASCII letters and digits. */
  function WordRunLen(s: string): (n: nat)
    ensures n <= |s|
    ensures forall i :: 0 <= i < n ==> IsWordChar(s[i])
    ensures n < |s| ==> !IsWordChar(s[n])
  {
    if s != [] && IsWordChar(s[0]) then 1 + WordRunLen(s[1..]) else 0
  }

  /** `s[..n]` is what `/^([a-zA-Z][a-zA-Z0-9]*)/` captures in `s`: it starts
      with a letter, holds only letters and digits, and cannot be extended. */
  predicate LeadingMatch(s: string, n: nat) {
    0 < n <= |s| && IsAsciiLetter(s[0])
    && (forall i :: 0 <= i < n ==> IsWordChar(s[i]))
    && (n == |s| || !IsWordChar(s[n]))
  }

  /** `getElementTagFromSelector`: the captured leading name, upper-cased, or
      "ELEMENT" when the selector does not start with a letter. */
  function TagFromSelector(selector: string): (r: string)
    ensures (selector == [] || !IsAsciiLetter(selector[0])) ==> r == "ELEMENT"
    ensures selector != [] && IsAsciiLetter(selector[0]) ==>
      exists n: nat :: LeadingMatch(selector, n) && r == Upper(selector[..n])
    ensures forall i :: 0 <= i < |r| ==> !('a' <= r[i] <= 'z')
  {
    if selector != [] && IsAsciiLetter(selector[0]) then
      var n := WordRunLen(selector);
      assert LeadingMatch(selector, n);
      Upper(selector[..n])
    else "ELEMENT"
  }

  /** The regular expression captures at most one prefix. */
  lemma LeadingMatchUnique(s: string, n: nat, m: nat)
    requires LeadingMatch(s, n) && LeadingMatch(s, m)
    ensures n == m
  {
  }

  /** Whatever prefix the regular expression captures, the label is that prefix
      upper-cased. */
  lemma TagOfMatch(s: string, n: nat)
    requires LeadingMatch(s, n)
    ensures TagFromSelector(s) == Upper(s[..n])
  {
    var m: nat :| LeadingMatch(s, m) && TagFromSelector(s) == Upper(s[..m]);
    LeadingMatchUnique(s, n, m);
  }

  lemma TagOfTagSelector()
    ensures TagFromSelector("div.ad") == "DIV"
  {
    var s := "div.ad";
    assert LeadingMatch(s, 3);
    TagOfMatch(s, 3);
    assert s[..3] == "div";
  }

  lemma TagOfDigitName()
    ensures TagFromSelector("h2 > span") == "H2"
  {
    var s := "h2 > span";
    assert LeadingMatch(s, 2);
    TagOfMatch(s, 2);
    assert s[..2] == "h2";
  }

  lemma TagOfClassSelector()
    ensures TagFromSelector(".ad") == "ELEMENT"
    ensures TagFromSelector("") == "ELEMENT"
  {
  }

  // ----------------------------------------------------------- rule count

  /** `r` reads as two decimal numbers `a/b`. */
  predicate CountText(r: string, a: nat, b: nat) {
    exists k :: 0 <= k < |r| && r[k] == '/'
      && AllDigits(r[..k]) && AllDigits(r[k + 1..])
      && DigitsValue(r[..k]) == a && DigitsValue(r[k + 1..]) == b
  }

  /** `updateRuleCount`: the counter text. */
  function RuleCount(rs: seq<Rule>): (r: string)
    ensures CountText(r, |Enabled(rs)|, |rs|)
  {
    var e := NatToString(|Enabled(rs)|);
    var t := NatToString(|rs|);
    var r := e + "/" + t;
    NatToStringRoundTrip(|Enabled(rs)|);
    NatToStringRoundTrip(|rs|);
    assert r[..|e|] == e && r[|e| + 1..] == t && r[|e|] == '/';
    r
  }

  /** The enabled count of a list in which one rule is replaced. */
  lemma {:induction false} EnabledUpdate(rs: seq<Rule>, i: nat, x: Rule)
    requires i < |rs|
    ensures |Enabled(rs[i := x])|
      == |Enabled(rs)| - (if rs[i].enabled then 1 else 0) + (if x.enabled then 1 else 0)
  {
    if i > 0 {
      EnabledUpdate(rs[1..], i - 1, x);
      assert rs[i := x][1..] == rs[1..][i - 1 := x];
    } else {
      assert rs[i := x][1..] == rs[1..];
    }
  }

  // -------------------------------------------------------- rule list edits

  /** `i` is the position `domainRules.find(r => r.id === id)` lands on. */
  predicate IsFirstId(rs: seq<Rule>, id: string, i: int) {
    0 <= i < |rs| && rs[i].id == id && forall j :: 0 <= j < i ==> rs[j].id != id
  }

  function FindRule(rs: seq<Rule>, id: string): (r: Option<nat>)
    ensures r.Some? ==> IsFirstId(rs, id, r.value)
    ensures r.None? ==> forall j :: 0 <= j < |rs| ==> rs[j].id != id
  {
    if rs == [] then None
    else if rs[0].id == id then Some(0)
    else match FindRule(rs[1..], id)
      case None => None
      case Some(i) => Some(i + 1)
  }

  lemma FirstIdUnique(rs: seq<Rule>, id: string, i: int, j: int)
    requires IsFirstId(rs, id, i) && IsFirstId(rs, id, j)
    ensures i == j
  {
  }

  /** `toggleRule`'s effect on the list: the first rule with the id has its
      `enabled` flag flipped, every other rule stays as it was. */
  function ToggleSpec(rs: seq<Rule>, id: string): (r: seq<Rule>)
    ensures |r| == |rs|
    ensures forall j :: 0 <= j < |rs| ==>
      r[j] == (if IsFirstId(rs, id, j) then rs[j].(enabled := !rs[j].enabled) else rs[j])
    ensures (forall j :: 0 <= j < |rs| ==> rs[j].id != id) ==> r == rs
  {
    match FindRule(rs, id)
    case None => rs
    case Some(i) =>
      forall j | 0 <= j < |rs| && IsFirstId(rs, id, j) ensures j == i {
        FirstIdUnique(rs, id, i, j);
      }
      rs[i := rs[i].(enabled := !rs[i].enabled)]
  }

  /** Toggling twice restores the list. */
  lemma ToggleTwice(rs: seq<Rule>, id: string)
    ensures ToggleSpec(ToggleSpec(rs, id), id) == rs
  {
    var once := ToggleSpec(rs, id);
    forall j | 0 <= j < |rs| ensures IsFirstId(once, id, j) == IsFirstId(rs, id, j) {
      if 0 <= j < |rs| {
        assert forall k :: 0 <= k < |rs| ==> once[k].id == rs[k].id;
      }
    }
  }

  /** Toggling an existing rule moves the enabled counter by exactly one. */
  lemma ToggleCount(rs: seq<Rule>, id: string, i: nat)
    requires IsFirstId(rs, id, i)
    ensures |Enabled(ToggleSpec(rs, id))| == |Enabled(rs)| + (if rs[i].enabled then -1 else 1)
  {
    var r := ToggleSpec(rs, id);
    assert r == rs[i := rs[i].(enabled := !rs[i].enabled)];
    EnabledUpdate(rs, i, rs[i].(enabled := !rs[i].enabled));
  }

  /** `editRule`'s effect on the list: the first rule with the id gets the
      new note, nothing else changes. */
  function EditSpec(rs: seq<Rule>, id: string, note: string): (r: seq<Rule>)
    ensures |r| == |rs|
    ensures forall j :: 0 <= j < |rs| ==>
      r[j] == (if IsFirstId(rs, id, j) then rs[j].(note := note) else rs[j])
    ensures (forall j :: 0 <= j < |rs| ==> rs[j].id != id) ==> r == rs
  {
    match FindRule(rs, id)
    case None => rs
    case Some(i) =>
      forall j | 0 <= j < |rs| && IsFirstId(rs, id, j) ensures j == i {
        FirstIdUnique(rs, id, i, j);
      }
      rs[i := rs[i].(note := note)]
  }

  /** Entering the same note twice is the same as entering it once. */
  lemma EditIdempotent(rs: seq<Rule>, id: string, note: string)
    ensures EditSpec(EditSpec(rs, id, note), id, note) == EditSpec(rs, id, note)
  {
    var once := EditSpec(rs, id, note);
    var twice := EditSpec(once, id, note);
    forall j | 0 <= j < |rs| ensures twice[j] == once[j] {
      assert forall k :: 0 <= k < |rs| ==> once[k].id == rs[k].id;
      assert IsFirstId(once, id, j) == IsFirstId(rs, id, j);
    }
  }

  // ------------------------------------------------------------- messages

  /** What the popup listens to from the content script; any other action is
      ignored. */
  datatype PopupMessage =
    | ElementSelected(rule: Rule)
    | ElementUnselected(selector: string)
    | SelectionModeChanged(enabled: bool)
    | OtherMessage(action: string)

  /** The chosen file of the import dialog: none, one whose text is not JSON,
      or a parsed object whose `domains` member is a non-null object (Some) or
      is missing or of another type (None). */
  datatype ImportFile = NoFile | Unparsable | Parsed(domains: Option<Domains>)

  /** The popup of one tab. `applySubdomains` is the checkbox state. */
  class HideBoxPopup {
    var currentDomain: string
    var domainRules: seq<Rule>
    var isSelectionMode: bool
    var applySubdomains: bool

    constructor ()
      ensures currentDomain == "" && domainRules == []
      ensures !isSelectionMode && !applySubdomains
    {
      currentDomain := "";
      domainRules := [];
      isSelectionMode := false;
      applySubdomains := false;
    }

    /** `loadDomainData`: the rules and the checkbox of the current domain's
        entry, or an empty list and an unticked box when there is none. */
    method LoadDomainData(ds: Domains)
      modifies this
      ensures currentDomain == old(currentDomain) && isSelectionMode == old(isSelectionMode)
      ensures Get(ds, currentDomain).Some? ==>
        domainRules == Get(ds, currentDomain).value.rules
        && applySubdomains == Get(ds, currentDomain).value.applyToSubdomains
      ensures Get(ds, currentDomain).None? ==> domainRules == [] && !applySubdomains
    {
      match Get(ds, currentDomain)
      case Some(data) =>
        domainRules := data.rules;
        applySubdomains := data.applyToSubdomains;
      case None =>
        domainRules := [];
        applySubdomains := false;
    }

    /** `loadCurrentDomain`: `host` is the active tab's hostname, None when the
        tab has no URL; `mode` is the content script's answer to
        `getSelectionMode`, None when there is none or it is not a boolean. */
    method LoadCurrentDomain(host: Option<string>, ds: Domains, mode: Option<bool>)
      modifies this
      ensures host.None? ==> (currentDomain == old(currentDomain) && domainRules == old(domainRules)
        && applySubdomains == old(applySubdomains) && isSelectionMode == old(isSelectionMode))
      ensures host.Some? ==> (currentDomain == host.value
        && (Get(ds, host.value).Some? ==> domainRules == Get(ds, host.value).value.rules)
        && (Get(ds, host.value).None? ==> domainRules == [])
        && applySubdomains == (if Get(ds, host.value).Some? then Get(ds, host.value).value.applyToSubdomains else false)
        && isSelectionMode == (if mode.Some? then mode.value else old(isSelectionMode)))
    {
      if host.Some? {
        currentDomain := host.value;
        LoadDomainData(ds);
        if mode.Some? {
          isSelectionMode := mode.value;
        }
      }
    }

    /** `saveDomainData`: the store with the current domain's entry replaced,
        and the `updateRules` message to the tab (only the enabled rules),
        sent when there is an active tab. */
    method SaveDomainData(ds: Domains, now: int, tabPresent: bool)
      returns (ds': Domains, update: Option<seq<Rule>>)
      ensures Get(ds', currentDomain) == Some(DomainData(applySubdomains, domainRules, now))
      ensures forall k :: k != currentDomain ==> Get(ds', k) == Get(ds, k)
      ensures KeysDistinct(ds) ==> KeysDistinct(ds')
      ensures update == if tabPresent then Some(Enabled(domainRules)) else None
      ensures update.Some? ==> forall x :: x in update.value <==> x in domainRules && x.enabled
    {
      ds' := Put(ds, currentDomain, DomainData(applySubdomains, domainRules, now));
      update := if tabPresent then Some(Enabled(domainRules)) else None;
    }

    /** `toggleRule`: an unknown id changes nothing and saves nothing. */
    method ToggleRule(id: string, ds: Domains, now: int, tabPresent: bool)
      returns (ds': Domains, update: Option<seq<Rule>>)
      modifies this
      ensures domainRules == ToggleSpec(old(domainRules), id)
      ensures currentDomain == old(currentDomain) && applySubdomains == old(applySubdomains)
      ensures isSelectionMode == old(isSelectionMode)
      ensures FindRule(old(domainRules), id).None? ==> ds' == ds && update.None?
      ensures FindRule(old(domainRules), id).Some? ==>
        Get(ds', currentDomain) == Some(DomainData(applySubdomains, domainRules, now))
        && (forall k :: k != currentDomain ==> Get(ds', k) == Get(ds, k))
        && update == (if tabPresent then Some(Enabled(domainRules)) else None)
    {
      ds', update := ds, None;
      if FindRule(domainRules, id).Some? {
        domainRules := ToggleSpec(domainRules, id);
        ds', update := SaveDomainData(ds, now, tabPresent);
      }
    }

    /** `editRule`: `newNote` is the answer to the prompt, None when it was
        cancelled. */
    method EditRule(id: string, newNote: Option<string>, ds: Domains, now: int, tabPresent: bool)
      returns (ds': Domains, update: Option<seq<Rule>>)
      modifies this
      ensures newNote.None? || FindRule(old(domainRules), id).None? ==>
        domainRules == old(domainRules) && ds' == ds && update.None?
      ensures newNote.Some? && FindRule(old(domainRules), id).Some? ==>
        domainRules == EditSpec(old(domainRules), id, Trim(newNote.value))
        && Get(ds', currentDomain) == Some(DomainData(applySubdomains, domainRules, now))
        && (forall k :: k != currentDomain ==> Get(ds', k) == Get(ds, k))
        && update == (if tabPresent then Some(Enabled(domainRules)) else None)
      ensures currentDomain == old(currentDomain) && applySubdomains == old(applySubdomains)
      ensures isSelectionMode == old(isSelectionMode)
    {
      ds', update := ds, None;
      if FindRule(domainRules, id).Some? && newNote.Some? {
        domainRules := EditSpec(domainRules, id, Trim(newNote.value));
        ds', update := SaveDomainData(ds, now, tabPresent);
      }
    }

    /** `deleteRule`: `confirmed` is the answer to the confirmation dialog. */
    method DeleteRule(id: string, confirmed: bool, ds: Domains, now: int, tabPresent: bool)
      returns (ds': Domains, update: Option<seq<Rule>>)
      modifies this
      ensures confirmed ==> (domainRules == WithoutId(old(domainRules), id)
        && Get(ds', currentDomain) == Some(DomainData(applySubdomains, domainRules, now))
        && (forall k :: k != currentDomain ==> Get(ds', k) == Get(ds, k))
        && update == (if tabPresent then Some(Enabled(domainRules)) else None))
      ensures !confirmed ==> domainRules == old(domainRules) && ds' == ds && update.None?
      ensures currentDomain == old(currentDomain) && applySubdomains == old(applySubdomains)
      ensures isSelectionMode == old(isSelectionMode)
    {
      ds', update := ds, None;
      if confirmed {
        domainRules := WithoutId(domainRules, id);
        ds', update := SaveDomainData(ds, now, tabPresent);
      }
    }

    /** `updateDomainSettings`, run when the checkbox changes to `checked`. */
    method UpdateDomainSettings(checked: bool, ds: Domains, now: int, tabPresent: bool)
      returns (ds': Domains, update: Option<seq<Rule>>)
      modifies this
      ensures applySubdomains == checked
      ensures domainRules == old(domainRules) && currentDomain == old(currentDomain)
      ensures isSelectionMode == old(isSelectionMode)
      ensures Get(ds', currentDomain) == Some(DomainData(checked, domainRules, now))
      ensures forall k :: k != currentDomain ==> Get(ds', k) == Get(ds, k)
      ensures update == if tabPresent then Some(Enabled(domainRules)) else None
    {
      applySubdomains := checked;
      ds', update := SaveDomainData(ds, now, tabPresent);
    }

    /** `clearDomainRules`. */
    method ClearDomainRules(confirmed: bool, ds: Domains, now: int, tabPresent: bool)
      returns (ds': Domains, update: Option<seq<Rule>>)
      modifies this
      ensures confirmed ==> (domainRules == []
        && Get(ds', currentDomain) == Some(DomainData(applySubdomains, [], now))
        && (forall k :: k != currentDomain ==> Get(ds', k) == Get(ds, k))
        && update == (if tabPresent then Some([]) else None))
      ensures !confirmed ==> domainRules == old(domainRules) && ds' == ds && update.None?
      ensures currentDomain == old(currentDomain) && applySubdomains == old(applySubdomains)
      ensures isSelectionMode == old(isSelectionMode)
    {
      ds', update := ds, None;
      if confirmed {
        domainRules := [];
        ds', update := SaveDomainData(ds, now, tabPresent);
      }
    }

    /** `importConfiguration`: a parsed file whose `domains` is an object
        replaces the whole `domains` store and reloads the list; anything else
        writes nothing. `ok` is whether the success status is shown. */
    method ImportConfiguration(file: ImportFile, ds: Domains) returns (ds': Domains, ok: bool)
      modifies this
      ensures ok <==> file.Parsed? && file.domains.Some?
      ensures ok ==> (ds' == file.domains.value
        && (Get(ds', currentDomain).Some? ==> domainRules == Get(ds', currentDomain).value.rules)
        && (Get(ds', currentDomain).None? ==> domainRules == [])
        && applySubdomains == (if Get(ds', currentDomain).Some? then Get(ds', currentDomain).value.applyToSubdomains else false))
      ensures !ok ==> (ds' == ds && domainRules == old(domainRules)
        && applySubdomains == old(applySubdomains))
      ensures currentDomain == old(currentDomain) && isSelectionMode == old(isSelectionMode)
    {
      ds', ok := ds, false;
      if file.Parsed? && file.domains.Some? {
        ds', ok := file.domains.value, true;
        LoadDomainData(ds');
      }
    }

    /** `addNewRule`: a rule from the page is appended to the list shown,
        unless its selector is already listed. The store is not written. */
    method AddNewRule(rule: Rule) returns (added: bool)
      modifies this
      ensures added <==> !HasSelector(old(domainRules), rule.selector)
      ensures domainRules == AppendIfNew(old(domainRules), rule)
      ensures currentDomain == old(currentDomain) && applySubdomains == old(applySubdomains)
      ensures isSelectionMode == old(isSelectionMode)
    {
      if HasSelector(domainRules, rule.selector) {
        return false;
      }
      domainRules := domainRules + [rule];
      added := true;
    }

    /** `removeRuleFromUI`: every rule with the selector leaves the list shown;
        `removed` is whether the list got shorter. */
    method RemoveRuleFromUI(selector: string) returns (removed: bool)
      modifies this
      ensures domainRules == WithoutSelector(old(domainRules), selector)
      ensures removed <==> HasSelector(old(domainRules), selector)
      ensures currentDomain == old(currentDomain) && applySubdomains == old(applySubdomains)
      ensures isSelectionMode == old(isSelectionMode)
    {
      var originalLength := |domainRules|;
      domainRules := WithoutSelector(domainRules, selector);
      removed := |domainRules| < originalLength;
    }

    /** `handleMessage`. */
    method HandleMessage(msg: PopupMessage)
      modifies this
      ensures msg.ElementSelected? ==> domainRules == AppendIfNew(old(domainRules), msg.rule)
      ensures msg.ElementUnselected? ==> domainRules == WithoutSelector(old(domainRules), msg.selector)
      ensures !msg.ElementSelected? && !msg.ElementUnselected? ==> domainRules == old(domainRules)
      ensures isSelectionMode == (if msg.SelectionModeChanged? then msg.enabled else old(isSelectionMode))
      ensures currentDomain == old(currentDomain) && applySubdomains == old(applySubdomains)
    {
      match msg
      case ElementSelected(rule) =>
        var _ := AddNewRule(rule);
      case ElementUnselected(selector) =>
        var _ := RemoveRuleFromUI(selector);
      case SelectionModeChanged(enabled) =>
        isSelectionMode := enabled;
      case OtherMessage(_) =>
    }

    /** `toggleSelectionMode`: without an active tab nothing happens; otherwise
        the mode flips and the new mode is sent to the tab. */
    method ToggleSelectionMode(tabPresent: bool) returns (sent: Option<bool>)
      modifies this
      ensures tabPresent ==> isSelectionMode == !old(isSelectionMode) && sent == Some(isSelectionMode)
      ensures !tabPresent ==> isSelectionMode == old(isSelectionMode) && sent.None?
      ensures domainRules == old(domainRules) && currentDomain == old(currentDomain)
      ensures applySubdomains == old(applySubdomains)
    {
      if !tabPresent {
        return None;
      }
      isSelectionMode := !isSelectionMode;
      sent := Some(isSelectionMode);
    }

    /** `snoozeDomain`: the snooze map with the current domain snoozed for
        `minutes` from `now`, and the `snoozeDomain` message to the tab. */
    method SnoozeDomain(minutes: int, snooze: map<string, int>, now: int, tabPresent: bool)
      returns (snooze': map<string, int>, notify: Option<int>)
      ensures snooze'.Keys == snooze.Keys + {currentDomain}
      ensures snooze'[currentDomain] == now + minutes * 60000
      ensures forall k :: k in snooze && k != currentDomain ==> snooze'[k] == snooze[k]
      ensures notify == (if tabPresent then Some(minutes) else None)
    {
      var until := now + (minutes * 60 * 1000);
      snooze' := snooze[currentDomain := until];
      notify := if tabPresent then Some(minutes) else None;
    }
  }
}
