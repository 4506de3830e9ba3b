/** The background worker (`HideBoxBackground`): version comparison and the
    migration decision, the rule resolution a tab gets when it finishes
    loading, snoozing and its expiry, the batch save, the per-domain statistics
    and the merging import. The stores are passed in and out as values. */
module Background {
  import opened Common
  import opened Rules
  import Content

  // ------------------------------------------------------------- versions

  /** `s.split('.')`: the pieces between dots, in order; the empty string
      gives one empty piece. */
  function SplitDot(s: string): (r: seq<string>)
    ensures |r| >= 1
    ensures forall k :: 0 <= k < |r| ==> '.' !in r[k]
  {
    if s == [] then [""]
    else if s[0] == '.' then [""] + SplitDot(s[1..])
    else
      var rest := SplitDot(s[1..]);
      [[s[0]] + rest[0]] + rest[1..]
  }

  /** Splitting at the dots and joining with dots gives the string back. */
  lemma {:induction false} JoinSplitDot(s: string)
    ensures Join(SplitDot(s), ".") == s
  {
    if s != [] {
      JoinSplitDot(s[1..]);
      var rest := SplitDot(s[1..]);
      if s[0] == '.' {
        assert ([""] + rest)[1..] == rest;
      } else {
        var r := [[s[0]] + rest[0]] + rest[1..];
        if |rest| > 1 {
          assert r[1..] == rest[1..];
          assert Join(rest, ".") == rest[0] + "." + Join(rest[1..], ".");
        }
      }
    }
  }

  /** `Number(part) || 0` for a piece of a version string: its value when it is
      a run of decimal digits (the empty piece is 0), and 0 otherwise. That is
      what `|| 0` makes of a NaN; pieces `Number` reads as other values
      (hexadecimal, exponents, signs, surrounding blanks, `Infinity`) are not
      modelled. */
  function PartValue(p: string): nat {
    if AllDigits(p) then DigitsValue(p) else 0
  }

  function Parts(v: string): (r: seq<nat>)
    ensures |r| == |SplitDot(v)|
  {
    var pieces := SplitDot(v);
    seq(|pieces|, k requires 0 <= k < |pieces| => PartValue(pieces[k]))
  }

  /** Part `i`, missing parts counting as 0. */
  function At(a: seq<nat>, i: nat): nat {
    if i < |a| then a[i] else 0
  }

  function Max(x: nat, y: nat): nat { if x < y then y else x }

  /** The comparison from part `i` on: the first differing part decides. */
  function CompareFrom(a: seq<nat>, b: seq<nat>, i: nat): (r: int)
    ensures -1 <= r <= 1
    decreases Max(|a|, |b|) - i
  {
    if i >= Max(|a|, |b|) then 0
    else if At(a, i) < At(b, i) then -1
    else if At(a, i) > At(b, i) then 1
    else CompareFrom(a, b, i + 1)
  }

  /** `compareVersions` on two version strings. */
  function CompareVersionStrings(a: string, b: string): int {
    CompareFrom(Parts(a), Parts(b), 0)
  }

  /** The loop of `compareVersions`, with its early returns. */
  method CompareVersions(a: string, b: string) returns (r: int)
    ensures r == CompareVersionStrings(a, b)
    ensures r in {-1, 0, 1}
  {
    var aParts := Parts(a);
    var bParts := Parts(b);
    var n := Max(|aParts|, |bParts|);
    for i := 0 to n
      invariant CompareFrom(aParts, bParts, i) == CompareFrom(aParts, bParts, 0)
    {
      var aPart := At(aParts, i);
      var bPart := At(bParts, i);
      if aPart < bPart {
        return -1;
      }
      if aPart > bPart {
        return 1;
      }
    }
    return 0;
  }

  /** The comparison is 0 exactly when the two part lists agree once padded
      with zeros. */
  lemma {:induction false} CompareZeroIff(a: seq<nat>, b: seq<nat>, i: nat)
    ensures CompareFrom(a, b, i) == 0 <==> forall j :: i <= j < Max(|a|, |b|) ==> At(a, j) == At(b, j)
    decreases Max(|a|, |b|) - i
  {
    if i < Max(|a|, |b|) && At(a, i) == At(b, i) {
      CompareZeroIff(a, b, i + 1);
    }
  }

  /** Parts `i` up to `j` (exclusive) agree. */
  predicate EqualBetween(a: seq<nat>, b: seq<nat>, i: nat, j: nat) {
    forall k: nat :: i <= k < j ==> At(a, k) == At(b, k)
  }

  /** Part `j` is the first from `i` on where the two differ, and `a` is smaller there. */
  predicate FirstLessAt(a: seq<nat>, b: seq<nat>, i: nat, j: nat) {
    i <= j < Max(|a|, |b|) && At(a, j) < At(b, j) && EqualBetween(a, b, i, j)
  }

  /** It is -1 exactly when some part is smaller and all before it are equal. */
  lemma {:induction false} CompareLessIff(a: seq<nat>, b: seq<nat>, i: nat)
    ensures CompareFrom(a, b, i) == -1 <==> exists j: nat :: FirstLessAt(a, b, i, j)
    decreases Max(|a|, |b|) - i
  {
    if i < Max(|a|, |b|) {
      if At(a, i) < At(b, i) {
        assert FirstLessAt(a, b, i, i);
      } else if At(a, i) > At(b, i) {
        forall j: nat | i < j ensures !EqualBetween(a, b, i, j) {
          assert At(a, i) != At(b, i);
        }
      } else {
        CompareLessIff(a, b, i + 1);
        if CompareFrom(a, b, i + 1) == -1 {
          var j: nat :| FirstLessAt(a, b, i + 1, j);
          assert FirstLessAt(a, b, i, j);
        }
        forall j: nat | FirstLessAt(a, b, i, j) ensures FirstLessAt(a, b, i + 1, j) {
        }
      }
    }
  }

  /** Swapping the arguments negates the result. */
  lemma {:induction false} CompareAntisymmetric(a: seq<nat>, b: seq<nat>, i: nat)
    ensures CompareFrom(a, b, i) == -CompareFrom(b, a, i)
    decreases Max(|a|, |b|) - i
  {
    if i < Max(|a|, |b|) {
      CompareAntisymmetric(a, b, i + 1);
    }
  }

  /** Every version string compares equal to itself. */
  lemma VersionReflexive(v: string)
    ensures CompareVersionStrings(v, v) == 0
  {
    CompareZeroIff(Parts(v), Parts(v), 0);
  }

  lemma VersionAntisymmetric(a: string, b: string)
    ensures CompareVersionStrings(a, b) == -CompareVersionStrings(b, a)
  {
    CompareAntisymmetric(Parts(a), Parts(b), 0);
  }

  lemma {:induction false} SplitDotPlain(s: string)
    requires '.' !in s
    ensures SplitDot(s) == [s]
  {
    if s != [] {
      SplitDotPlain(s[1..]);
      assert [s[0]] + s[1..] == s;
    }
  }

  lemma {:induction false} SplitDotCons(p: string, s: string)
    requires '.' !in p
    ensures SplitDot(p + "." + s) == [p] + SplitDot(s)
  {
    if p == [] {
      assert ("." + s)[1..] == s;
    } else {
      SplitDotCons(p[1..], s);
      assert (p + "." + s)[1..] == p[1..] + "." + s;
      assert [p[0]] + p[1..] == p;
    }
  }

  /** The value of a one-digit part. */
  lemma DigitValue(c: char)
    requires IsDigit(c)
    ensures PartValue([c]) == c as int - '0' as int
  {
    var s := [c];
    assert AllDigits(s);
    assert s[..0] == "" && s[|s| - 1] == c;
    assert DigitsValue(s) == DigitsValue(s[..0]) * 10 + (c as int - '0' as int);
  }

  lemma PartsOfTwo(p: string, q: string)
    requires '.' !in p && '.' !in q
    ensures Parts(p + "." + q) == [PartValue(p), PartValue(q)]
  {
    SplitDotPlain(q);
    SplitDotCons(p, q);
  }

  lemma PartsOfCurrent()
    ensures Parts("1.0.0") == [1, 0, 0]
  {
    SplitDotPlain("0");
    SplitDotCons("0", "0");
    SplitDotCons("1", "0.0");
    assert "1.0.0" == "1" + "." + "0.0" && "0.0" == "0" + "." + "0";
    DigitValue('1');
    DigitValue('0');
  }

  /** Missing parts count as zeros. */
  lemma VersionPadding()
    ensures CompareVersionStrings("1.0", "1.0.0") == 0
  {
    PartsOfTwo("1", "0");
    assert "1.0" == "1" + "." + "0";
    DigitValue('1');
    DigitValue('0');
    PartsOfCurrent();
  }

  lemma VersionBefore()
    ensures CompareVersionStrings("0.9", "1.0.0") == -1
  {
    PartsOfTwo("0", "9");
    assert "0.9" == "0" + "." + "9";
    DigitValue('0');
    DigitValue('9');
    PartsOfCurrent();
  }

  /** Parts compare as numbers, not as text: 1.10 is after 1.9. */
  lemma VersionNumeric()
    ensures CompareVersionStrings("1.10", "1.9") == 1
  {
    PartsOfTwo("1", "10");
    PartsOfTwo("1", "9");
    assert "1.10" == "1" + "." + "10" && "1.9" == "1" + "." + "9";
    DigitValue('1');
    DigitValue('9');
    assert "10"[..1] == "1";
    assert PartValue("10") == 10;
  }

  /** The `migrateStorage` decision: versions before 1.0.0 are migrated. */
  predicate NeedsMigration(previousVersion: string) {
    CompareVersionStrings(previousVersion, "1.0.0") < 0
  }

  /** What `migrateStorage` writes: nothing for 1.0.0 and later, otherwise the
      stored domains as they are (an empty object when absent). */
  function MigrationWrite(previousVersion: string, domains: Option<Domains>): (r: Option<Domains>)
    ensures r.Some? <==> NeedsMigration(previousVersion)
    ensures r.Some? && domains.Some? ==> r.value == domains.value
    ensures r.Some? && domains.None? ==> r.value == []
  {
    if NeedsMigration(previousVersion) then
      Some(match domains case Some(ds) => ds case None => [])
    else None
  }

  lemma MigrationExamples()
    ensures NeedsMigration("0.9") && !NeedsMigration("1.0") && !NeedsMigration("1.0.0")
  {
    VersionPadding();
    VersionBefore();
    VersionReflexive("1.0.0");
  }

  // ------------------------------------------------------- rule resolution

  /** `getRulesForDomain`: the exact entry's enabled rules; when that list is
      empty (no entry, no rules, or all disabled), the enabled rules of the
      first stored entry that applies to subdomains and covers the host. */
  function RulesForDomain(ds: Domains, host: string): (r: seq<Rule>)
    ensures forall x :: x in r ==> x.enabled
  {
    var exact := match Get(ds, host) case Some(data) => Enabled(data.rules) case None => [];
    if exact != [] then exact
    else match FirstInheriting(ds, host)
      case Some(i) => Enabled(ds[i].1.rules)
      case None => []
  }

  lemma {:induction false} FirstInheritingAt(ds: Domains, host: string, i: nat)
    requires i < |ds| && Inherits(ds[i], host)
    requires forall j :: 0 <= j < i ==> !Inherits(ds[j], host)
    ensures FirstInheriting(ds, host) == Some(i)
  {
    if i > 0 {
      FirstInheritingAt(ds[1..], host, i - 1);
    }
  }

  /** The loop of `getRulesForDomain`, with its `break`. */
  method GetRulesForDomain(ds: Domains, host: string) returns (rules: seq<Rule>)
    ensures rules == RulesForDomain(ds, host)
  {
    rules := [];
    var domainData := Get(ds, host);
    if domainData.Some? {
      rules := Enabled(domainData.value.rules);
    }
    if |rules| == 0 {
      for i := 0 to |ds|
        invariant forall j :: 0 <= j < i ==> !Inherits(ds[j], host)
        invariant rules == []
      {
        var (storedDomain, data) := ds[i];
        if data.applyToSubdomains && IsSubdomain(host, storedDomain) {
          FirstInheritingAt(ds, host, i);
          rules := Enabled(data.rules);
          return;
        }
      }
    }
  }

  /** The background and the content script agree unless the exact entry
      exists with no enabled rule: then the content script applies nothing
      while the background falls back to a parent domain. */
  lemma ResolutionAgreesWithContent(ds: Domains, host: string)
    requires Get(ds, host).None? || Enabled(Get(ds, host).value.rules) != []
    ensures Content.RulesToApply(ds, host) == Some(RulesForDomain(ds, host))
      || (Content.RulesToApply(ds, host).None? && RulesForDomain(ds, host) == [])
  {
  }

  /** An exact entry whose only rule is disabled, under a parent entry that
      applies to subdomains: the two resolutions differ. */
  lemma ResolutionDiffersFromContent(off: Rule, on: Rule)
    requires !off.enabled && on.enabled
    ensures var ds := [("a.b.com", DomainData(false, [off], 0)), ("b.com", DomainData(true, [on], 0))];
      Content.RulesToApply(ds, "a.b.com") == Some([]) && RulesForDomain(ds, "a.b.com") == [on]
  {
    var ds := [("a.b.com", DomainData(false, [off], 0)), ("b.com", DomainData(true, [on], 0))];
    SubdomainExamples();
    assert Get(ds, "a.b.com") == Some(ds[0].1);
    assert !Inherits(ds[0], "a.b.com");
    FirstInheritingAt(ds, "a.b.com", 1);
    assert Enabled([off]) == [] by {
      assert Enabled([off]) == [] + Enabled([]);
    }
    assert Enabled([on]) == [on] by {
      assert Enabled([on]) == [on] + Enabled([]);
    }
  }

  // ---------------------------------------------------------------- snooze

  /** `isDomainSnoozed`: true while a non-zero entry lies in the future; an
      expired non-zero entry is deleted; nothing else changes. */
  function IsDomainSnoozed(snooze: map<string, int>, host: string, now: int): (r: (bool, map<string, int>))
    ensures r.0 <==> host in snooze && snooze[host] != 0 && now < snooze[host]
    ensures r.0 ==> r.1 == snooze
    ensures !r.0 && host in snooze && snooze[host] != 0 ==> r.1 == snooze - {host}
    ensures host !in snooze || snooze[host] == 0 ==> r.1 == snooze
    ensures forall k :: k != host && k in snooze ==> k in r.1 && r.1[k] == snooze[k]
    ensures r.1.Keys <= snooze.Keys
  {
    if host in snooze && snooze[host] != 0 then
      if now < snooze[host] then (true, snooze) else (false, snooze - {host})
    else (false, snooze)
  }

  /** What `snoozeDomain` produces: the snooze map with the deadline
      `now + minutes * 60000` for the host, and the alarm named after it. */
  datatype Snoozed = Snoozed(snooze: map<string, int>, alarmName: string, until: int)

  const AlarmPrefix: string := "snooze-"

  function SnoozeDomain(snooze: map<string, int>, host: string, minutes: int, now: int): (r: Snoozed)
    ensures r.snooze.Keys == snooze.Keys + {host} && r.snooze[host] == r.until
    ensures r.until == now + minutes * 60000
    ensures forall k :: k != host && k in snooze ==> r.snooze[k] == snooze[k]
    ensures StartsWith(r.alarmName, AlarmPrefix)
  {
    var until := now + minutes * 60 * 1000;
    Snoozed(snooze[host := until], AlarmPrefix + host, until)
  }

  /** The domain an alarm name designates: `name.replace('snooze-', '')` on a
      name that starts with it removes just that prefix. */
  function AlarmDomain(name: string): (r: Option<string>)
    ensures r.Some? <==> StartsWith(name, AlarmPrefix)
    ensures r.Some? ==> name == AlarmPrefix + r.value
  {
    if StartsWith(name, AlarmPrefix) then
      assert name == name[..7] + name[7..];
      Some(name[7..])
    else None
  }

  /** `cleanupExpiredSnooze` */
  function CleanupExpiredSnooze(snooze: map<string, int>, host: string): (r: map<string, int>)
    ensures host in snooze && snooze[host] != 0 ==> r == snooze - {host}
    ensures !(host in snooze && snooze[host] != 0) ==> r == snooze
  {
    if host in snooze && snooze[host] != 0 then snooze - {host} else snooze
  }

  /** `handleAlarm`: only `snooze-` alarms act, and only on their own domain. */
  function HandleAlarm(name: string, snooze: map<string, int>): (r: map<string, int>)
    ensures !StartsWith(name, AlarmPrefix) ==> r == snooze
    ensures forall k :: k in snooze && AlarmDomain(name) != Some(k) ==> k in r && r[k] == snooze[k]
    ensures r.Keys <= snooze.Keys
  {
    match AlarmDomain(name)
    case None => snooze
    case Some(host) => CleanupExpiredSnooze(snooze, host)
  }

  /** The alarm set by a snooze of a positive number of minutes clears exactly
      that snooze entry when it fires. */
  lemma SnoozeThenAlarm(snooze: map<string, int>, host: string, minutes: int, now: int, later: map<string, int>)
    requires minutes > 0 && now >= 0
    requires later.Keys >= {host} && later[host] == SnoozeDomain(snooze, host, minutes, now).until
    ensures var name := SnoozeDomain(snooze, host, minutes, now).alarmName;
      AlarmDomain(name) == Some(host) && HandleAlarm(name, later) == later - {host}
  {
    var name := SnoozeDomain(snooze, host, minutes, now).alarmName;
    assert name[7..] == host;
  }

  // ----------------------------------------------------------- tab update

  /** The outcome of `handleTabUpdated`: the rules sent to the tab, if any,
      and the snooze map after the snooze check. */
  datatype TabOutcome = TabOutcome(sent: Option<seq<Rule>>, snooze: map<string, int>)

  predicate IsWebUrl(url: string) {
    StartsWith(url, "http://") || StartsWith(url, "https://")
  }

  /** `handleTabUpdated`, with `host` standing for `new URL(url).hostname`. */
  function HandleTabUpdated(status: string, url: Option<string>, host: string,
                            ds: Domains, snooze: map<string, int>, now: int): (r: TabOutcome)
    ensures r.sent.Some? <==>
      status == "complete" && url.Some? && url.value != "" && IsWebUrl(url.value)
      && RulesForDomain(ds, host) != []
      && !(host in snooze && snooze[host] != 0 && now < snooze[host])
    ensures r.sent.Some? ==> r.sent.value == RulesForDomain(ds, host)
    ensures var checked := status == "complete" && url.Some? && url.value != "" && IsWebUrl(url.value)
                           && RulesForDomain(ds, host) != [];
      r.snooze == if checked && host in snooze && snooze[host] != 0 && now >= snooze[host]
                  then snooze - {host} else snooze
  {
    if status != "complete" || url.None? || url.value == "" then TabOutcome(None, snooze)
    else if !IsWebUrl(url.value) then TabOutcome(None, snooze)
    else
      var rules := RulesForDomain(ds, host);
      if |rules| == 0 then TabOutcome(None, snooze)
      else
        var (snoozed, snooze') := IsDomainSnoozed(snooze, host, now);
        if snoozed then TabOutcome(None, snooze') else TabOutcome(Some(rules), snooze')
  }

  // ------------------------------------------------------------- batch save

  /** The loop of `saveElementRules`: each rule appended in input order unless
      its selector is already listed, earlier rules of the batch included. */
  function DedupAppend(list: seq<Rule>, rules: seq<Rule>): seq<Rule> {
    if rules == [] then list
    else AppendIfNew(DedupAppend(list, rules[..|rules| - 1]), rules[|rules| - 1])
  }

  /** The batch save keeps the listed rules in front, adds only batch rules,
      ends up with every selector of the batch, and never lists a selector
      twice when the list did not. */
  lemma {:induction false} DedupAppendProps(list: seq<Rule>, rules: seq<Rule>)
    ensures var r := DedupAppend(list, rules);
      |list| <= |r| <= |list| + |rules| && r[..|list|] == list
      && (forall x :: x in r ==> x in list || x in rules)
      && (forall s :: HasSelector(r, s) <==> HasSelector(list, s) || HasSelector(rules, s))
      && (SelectorsDistinct(list) ==> SelectorsDistinct(r))
  {
    if rules != [] {
      var init := rules[..|rules| - 1];
      var x := rules[|rules| - 1];
      assert rules == init + [x];
      HasSelectorSnoc(init, x);
      DedupAppendProps(list, init);
      var before := DedupAppend(list, init);
      HasSelectorSnoc(before, x);
      var r := AppendIfNew(before, x);
      assert r[..|before|] == before;
      assert r[..|list|] == before[..|list|];
    }
  }

  datatype SaveReply = SaveReply(domain: string, rulesCount: nat)

  /** `saveElementRules`. A missing tab or URL throws "Invalid tab";
      otherwise the domain's list (the entry created if missing) gets the
      batch, `updatedAt` is set, and the reply counts the batch, not the rules
      actually appended. */
  method SaveElementRules(rules: seq<Rule>, tabUrl: Option<string>, host: string, ds: Domains, now: int)
    returns (r: Result<(Domains, SaveReply)>)
    ensures tabUrl.None? || tabUrl.value == "" ==> r == Failure("Invalid tab")
    ensures tabUrl.Some? && tabUrl.value != "" ==> r.Ok?
    ensures r.Ok? ==>
      var entry := match Get(ds, host) case Some(e) => e case None => Content.NewEntry(now);
      Get(r.value.0, host) == Some(entry.(rules := DedupAppend(entry.rules, rules), updatedAt := now))
      && (forall k :: k != host ==> Get(r.value.0, k) == Get(ds, k))
      && r.value.1 == SaveReply(host, |rules|)
  {
    if tabUrl.None? || tabUrl.value == "" {
      return Failure("Invalid tab");
    }
    var entry := match Get(ds, host) case Some(e) => e case None => Content.NewEntry(now);
    var list := entry.rules;
    for i := 0 to |rules|
      invariant list == DedupAppend(entry.rules, rules[..i])
    {
      assert rules[..i + 1][..i] == rules[..i];
      var rule := rules[i];
      var exists_ := HasSelector(list, rule.selector);
      if !exists_ {
        list := list + [rule];
      }
    }
    assert rules[..|rules|] == rules;
    var ds' := Put(ds, host, entry.(rules := list, updatedAt := now));
    return Ok((ds', SaveReply(host, |rules|)));
  }

  // ---------------------------------------------------------------- stats

  datatype DomainStats = DomainStats(
    domain: string,
    rulesCount: nat,
    enabledRulesCount: nat,
    applyToSubdomains: Option<bool>,
    updatedAt: Option<int>)

  /** `getDomainStats` */
  function GetDomainStats(ds: Domains, host: string): (r: DomainStats)
    ensures Get(ds, host).None? ==> r == DomainStats(host, 0, 0, None, None)
    ensures Get(ds, host).Some? ==>
      r.rulesCount == |Get(ds, host).value.rules|
      && r.enabledRulesCount == |Enabled(Get(ds, host).value.rules)|
      && r.applyToSubdomains == Some(Get(ds, host).value.applyToSubdomains)
      && r.updatedAt == Some(Get(ds, host).value.updatedAt)
    ensures r.domain == host
    ensures r.enabledRulesCount <= r.rulesCount
  {
    match Get(ds, host)
    case None => DomainStats(host, 0, 0, None, None)
    case Some(data) =>
      DomainStats(host, |data.rules|, |Enabled(data.rules)|, Some(data.applyToSubdomains), Some(data.updatedAt))
  }

  /** The enabled count equals the total exactly when every rule is enabled. */
  lemma {:induction false} EnabledCountAll(rs: seq<Rule>)
    ensures |Enabled(rs)| == |rs| <==> forall i :: 0 <= i < |rs| ==> rs[i].enabled
  {
    if rs != [] {
      EnabledCountAll(rs[1..]);
      assert forall i :: 1 <= i < |rs| ==> rs[i] == rs[1..][i - 1];
    }
  }

  // --------------------------------------------------------------- import

  datatype Settings = Settings(
    showPlaceholders: bool,
    debugMode: bool,
    autoApplyRules: bool,
    notificationEnabled: bool,
    version: string)

  /** An imported file: `domains` is None when missing or not an object,
      `settings` None when missing. */
  datatype ImportFile = ImportFile(domains: Option<Domains>, settings: Option<Settings>)

  /** `importData`: the imported domains are spread over the stored ones;
      settings are overwritten only when supplied. */
  function ImportData(data: ImportFile, current: Domains, settings: Option<Settings>)
    : (r: Result<(Domains, Option<Settings>)>)
    ensures data.domains.None? <==> r == Failure("Invalid data format")
    ensures r.Ok? ==> r.value.1 == (if data.settings.Some? then data.settings else settings)
  {
    match data.domains
    case None => Failure("Invalid data format")
    case Some(imported) =>
      Ok((Merge(current, imported), if data.settings.Some? then data.settings else settings))
  }

  /** After an import every domain maps to the imported entry when there is
      one and keeps its stored entry otherwise. */
  lemma ImportLookup(data: ImportFile, current: Domains, settings: Option<Settings>, k: string)
    requires data.domains.Some? && KeysDistinct(data.domains.value)
    ensures var r := ImportData(data, current, settings);
      r.Ok? && Get(r.value.0, k) ==
        if Get(data.domains.value, k).Some? then Get(data.domains.value, k) else Get(current, k)
  {
    MergeLookup(current, data.domains.value, k);
  }

  // -------------------------------------------------------------- messages

  /** The message switch of the background's `handleMessage`. */
  datatype Action = Ping | EnsureContentScript | SaveSelected | DomainStatsAction | ExportAll | Import | Unknown

  function Route(action: string): (r: Action)
    ensures r == Unknown <==>
      action !in {"ping", "ensureContentScript", "saveSelectedElements", "getDomainStats", "exportAllData", "importData"}
  {
    if action == "ping" then Ping
    else if action == "ensureContentScript" then EnsureContentScript
    else if action == "saveSelectedElements" then SaveSelected
    else if action == "getDomainStats" then DomainStatsAction
    else if action == "exportAllData" then ExportAll
    else if action == "importData" then Import
    else Unknown
  }

  /** `ping` is answered by the background and unknown to the content script. */
  lemma PingRoutes()
    ensures Route("ping") == Ping && Content.Route("ping") == Content.Unknown
  {
    Content.PingIsUnknown();
  }
}
