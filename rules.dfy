/** Rules and the per-domain rule lists of the synchronised store, shared by the
    content script, the background worker and the popup. */
module Rules {
  import opened Common

  /** A hide rule. `confidence` is in tenths (0.9 is 9); `createdAt` is a
      millisecond timestamp supplied by the caller. */
  datatype Rule = Rule(
    id: string,
    selector: string,
    confidence: nat,
    fallbacks: seq<string>,
    note: string,
    enabled: bool,
    createdAt: int)

  datatype DomainData = DomainData(applyToSubdomains: bool, rules: seq<Rule>, updatedAt: int)

  /** The store's `domains` object, as its entries in iteration order: which
      stored domain is "the first" that matches depends on that order. */
  type Domains = seq<(string, DomainData)>

  predicate KeysDistinct(ds: Domains) {
    forall i, j :: 0 <= i < j < |ds| ==> ds[i].0 != ds[j].0
  }

  function IndexOfKey(ds: Domains, k: string): (r: Option<nat>)
    ensures r.Some? ==> r.value < |ds| && ds[r.value].0 == k
    ensures r.Some? ==> forall j :: 0 <= j < r.value ==> ds[j].0 != k
    ensures r.None? ==> forall j :: 0 <= j < |ds| ==> ds[j].0 != k
  {
    if ds == [] then None
    else if ds[0].0 == k then Some(0)
    else match IndexOfKey(ds[1..], k)
      case None => None
      case Some(i) => Some(i + 1)
  }

  /** `domains[k]`: the entry stored under `k`, if any. */
  function Get(ds: Domains, k: string): (r: Option<DomainData>)
    ensures r.Some? <==> exists i :: 0 <= i < |ds| && ds[i].0 == k
  {
    match IndexOfKey(ds, k)
    case None => None
    case Some(i) => Some(ds[i].1)
  }

  /** IndexOfKey is determined by its contract. */
  lemma IndexOfKeyIs(ds: Domains, k: string, r: Option<nat>)
    requires r.Some? ==> r.value < |ds| && ds[r.value].0 == k
    requires r.Some? ==> forall j :: 0 <= j < r.value ==> ds[j].0 != k
    requires r.None? ==> forall j :: 0 <= j < |ds| ==> ds[j].0 != k
    ensures IndexOfKey(ds, k) == r
  {
  }

  lemma SameKeysSameIndex(a: Domains, b: Domains, k: string)
    requires |a| == |b| && forall i :: 0 <= i < |a| ==> a[i].0 == b[i].0
    ensures IndexOfKey(a, k) == IndexOfKey(b, k)
  {
    IndexOfKeyIs(b, k, IndexOfKey(a, k));
  }

  /** `domains[k] = v`: an existing key keeps its position, a new key goes last. */
  function Put(ds: Domains, k: string, v: DomainData): (r: Domains)
    ensures Get(r, k) == Some(v)
    ensures forall k' :: k' != k ==> Get(r, k') == Get(ds, k')
    ensures |r| == if Get(ds, k).Some? then |ds| else |ds| + 1
    ensures forall i :: 0 <= i < |ds| ==> r[i].0 == ds[i].0
    ensures KeysDistinct(ds) ==> KeysDistinct(r)
  {
    match IndexOfKey(ds, k)
    case Some(i) =>
      var r := ds[i := (k, v)];
      assert forall k' :: IndexOfKey(r, k') == IndexOfKey(ds, k') by {
        forall k' ensures IndexOfKey(r, k') == IndexOfKey(ds, k') {
          SameKeysSameIndex(r, ds, k');
        }
      }
      r
    case None =>
      var r := ds + [(k, v)];
      assert forall k' :: k' != k ==> IndexOfKey(r, k') == IndexOfKey(ds, k') by {
        forall k' | k' != k ensures IndexOfKey(r, k') == IndexOfKey(ds, k') {
          IndexOfKeyIs(r, k', IndexOfKey(ds, k'));
        }
      }
      IndexOfKeyIs(r, k, Some(|ds|));
      r
  }

  /** `{...a, ...b}`: the entries of `a`, overwritten or extended by those of `b` in order. */
  function Merge(a: Domains, b: Domains): Domains
    decreases |b|
  {
    if b == [] then a else Merge(Put(a, b[0].0, b[0].1), b[1..])
  }

  /** After the merge, each key maps to its entry in `b` when `b` has one, and to
      its entry in `a` otherwise. */
  lemma {:induction false} MergeLookup(a: Domains, b: Domains, k: string)
    requires KeysDistinct(b)
    ensures Get(Merge(a, b), k) == if Get(b, k).Some? then Get(b, k) else Get(a, k)
    decreases |b|
  {
    if b != [] {
      DistinctTail(b);
      GetCons(b, k);
      MergeLookup(Put(a, b[0].0, b[0].1), b[1..], k);
    }
  }

  lemma GetCons(b: Domains, k: string)
    requires b != []
    ensures Get(b, k) == if b[0].0 == k then Some(b[0].1) else Get(b[1..], k)
  {
    if b[0].0 != k {
      assert IndexOfKey(b, k) == (match IndexOfKey(b[1..], k) case None => None case Some(i) => Some(i + 1));
    }
  }

  lemma DistinctTail(b: Domains)
    requires b != [] && KeysDistinct(b)
    ensures KeysDistinct(b[1..]) && Get(b[1..], b[0].0).None?
  {
    assert forall j :: 0 <= j < |b| - 1 ==> b[1..][j] == b[j + 1];
  }

  // ------------------------------------------------------------ rule lists

  /** `rules.filter(rule => rule.enabled)` */
  function Enabled(rs: seq<Rule>): (r: seq<Rule>)
    ensures forall x :: x in r <==> x in rs && x.enabled
    ensures |r| <= |rs|
  {
    if rs == [] then [] else (if rs[0].enabled then [rs[0]] else []) + Enabled(rs[1..])
  }

  /** The enabled filter keeps order and multiplicity: it distributes over
      concatenation (a single rule kept exactly when it is enabled,
      `EnabledSingle`). */
  lemma {:induction false} EnabledConcat(a: seq<Rule>, b: seq<Rule>)
    ensures Enabled(a + b) == Enabled(a) + Enabled(b)
  {
    if a == [] {
      assert a + b == b;
    } else {
      assert (a + b)[0] == a[0] && (a + b)[1..] == a[1..] + b;
      var h := if a[0].enabled then [a[0]] else [];
      assert Enabled(a + b) == h + Enabled(a[1..] + b);
      EnabledConcat(a[1..], b);
      var p := Enabled(a[1..]);
      var q := Enabled(b);
      assert h + (p + q) == (h + p) + q;
    }
  }

  lemma EnabledSingle(x: Rule)
    ensures Enabled([x]) == if x.enabled then [x] else []
  {
    assert [x][1..] == [];
  }

  predicate HasSelector(rs: seq<Rule>, sel: string) {
    exists i :: 0 <= i < |rs| && rs[i].selector == sel
  }

  /** No two rules of the list share a selector: the store's uniqueness rule per domain. */
  predicate SelectorsDistinct(rs: seq<Rule>) {
    forall i, j :: 0 <= i < j < |rs| ==> rs[i].selector != rs[j].selector
  }

  lemma HasSelectorSnoc(rs: seq<Rule>, x: Rule)
    ensures forall s :: HasSelector(rs + [x], s) <==> HasSelector(rs, s) || x.selector == s
  {
    forall s ensures HasSelector(rs + [x], s) <==> HasSelector(rs, s) || x.selector == s {
      if HasSelector(rs + [x], s) {
        var i :| 0 <= i < |rs| + 1 && (rs + [x])[i].selector == s;
        if i < |rs| {
          assert rs[i].selector == s;
        }
      }
      if HasSelector(rs, s) {
        var i :| 0 <= i < |rs| && rs[i].selector == s;
        assert (rs + [x])[i].selector == s;
      }
      if x.selector == s {
        assert (rs + [x])[|rs|].selector == s;
      }
    }
  }

  /** Append `x` unless a rule with the same selector is already listed. */
  function AppendIfNew(rs: seq<Rule>, x: Rule): (r: seq<Rule>)
    ensures HasSelector(rs, x.selector) ==> r == rs
    ensures !HasSelector(rs, x.selector) ==> r == rs + [x]
    ensures HasSelector(r, x.selector)
    ensures SelectorsDistinct(rs) ==> SelectorsDistinct(r)
  {
    if HasSelector(rs, x.selector) then rs
    else
      var r := rs + [x];
      assert r[|rs|].selector == x.selector;
      r
  }

  /** `rules.filter(rule => rule.selector !== sel)` */
  function WithoutSelector(rs: seq<Rule>, sel: string): (r: seq<Rule>)
    ensures forall x :: x in r <==> x in rs && x.selector != sel
    ensures !HasSelector(r, sel)
    ensures |r| <= |rs|
    ensures |r| < |rs| <==> HasSelector(rs, sel)
    ensures SelectorsDistinct(rs) ==> SelectorsDistinct(r)
  {
    if rs == [] then []
    else
      var rest := WithoutSelector(rs[1..], sel);
      HasSelectorCons(rs, sel);
      var r := (if rs[0].selector == sel then [] else [rs[0]]) + rest;
      assert !HasSelector(r, sel) by {
        forall i | 0 <= i < |r| ensures r[i].selector != sel {
          assert r[i] in r;
        }
      }
      assert SelectorsDistinct(rs) ==> SelectorsDistinct(r) by {
        if SelectorsDistinct(rs) {
          assert SelectorsDistinct(rs[1..]);
          FilteredConsDistinct(rs, sel, rest);
        }
      }
      r
  }

  lemma HasSelectorCons(rs: seq<Rule>, sel: string)
    requires rs != []
    ensures HasSelector(rs, sel) <==> rs[0].selector == sel || HasSelector(rs[1..], sel)
  {
    if HasSelector(rs, sel) && rs[0].selector != sel {
      var i :| 0 <= i < |rs| && rs[i].selector == sel;
      assert rs[1..][i - 1].selector == sel;
    }
    if HasSelector(rs[1..], sel) {
      var i :| 0 <= i < |rs[1..]| && rs[1..][i].selector == sel;
      assert rs[i + 1].selector == sel;
    }
  }

  /** The step of `WithoutSelector` keeps selectors distinct: a kept head
      differs from every later rule, and so from every rule kept after it. */
  lemma FilteredConsDistinct(rs: seq<Rule>, sel: string, rest: seq<Rule>)
    requires rs != [] && SelectorsDistinct(rs) && SelectorsDistinct(rest)
    requires forall x :: x in rest ==> x in rs[1..]
    ensures SelectorsDistinct((if rs[0].selector == sel then [] else [rs[0]]) + rest)
  {
    var r := (if rs[0].selector == sel then [] else [rs[0]]) + rest;
    forall i, j | 0 <= i < j < |r| ensures r[i].selector != r[j].selector {
      if rs[0].selector != sel && i == 0 {
        assert r[j] in rest;
        var k :| 0 <= k < |rs[1..]| && rs[1..][k] == r[j];
        assert rs[k + 1] == r[j];
      } else if rs[0].selector != sel {
        assert r[i] == rest[i - 1] && r[j] == rest[j - 1];
      } else {
        assert r[i] == rest[i] && r[j] == rest[j];
      }
    }
  }

  /** `rules.filter(r => r.id !== id)` */
  function WithoutId(rs: seq<Rule>, id: string): (r: seq<Rule>)
    ensures forall x :: x in r <==> x in rs && x.id != id
    ensures forall i :: 0 <= i < |r| ==> r[i].id != id
    ensures |r| <= |rs|
  {
    if rs == [] then []
    else
      var r := (if rs[0].id == id then [] else [rs[0]]) + WithoutId(rs[1..], id);
      assert forall i :: 0 <= i < |r| ==> r[i] in r;
      r
  }

  /** Removing by selector keeps the order of what is left: it distributes
      over concatenation, so each rule is kept or dropped on its own. */
  lemma {:induction false} WithoutSelectorConcat(a: seq<Rule>, b: seq<Rule>, sel: string)
    ensures WithoutSelector(a + b, sel) == WithoutSelector(a, sel) + WithoutSelector(b, sel)
  {
    if a == [] {
      assert a + b == b;
    } else {
      assert (a + b)[0] == a[0] && (a + b)[1..] == a[1..] + b;
      var h := if a[0].selector == sel then [] else [a[0]];
      assert WithoutSelector(a + b, sel) == h + WithoutSelector(a[1..] + b, sel);
      WithoutSelectorConcat(a[1..], b, sel);
      var p := WithoutSelector(a[1..], sel);
      var q := WithoutSelector(b, sel);
      assert h + (p + q) == (h + p) + q;
    }
  }

  /** The same for removing by id. */
  lemma {:induction false} WithoutIdConcat(a: seq<Rule>, b: seq<Rule>, id: string)
    ensures WithoutId(a + b, id) == WithoutId(a, id) + WithoutId(b, id)
  {
    if a == [] {
      assert a + b == b;
    } else {
      assert (a + b)[0] == a[0] && (a + b)[1..] == a[1..] + b;
      var h := if a[0].id == id then [] else [a[0]];
      assert WithoutId(a + b, id) == h + WithoutId(a[1..] + b, id);
      WithoutIdConcat(a[1..], b, id);
      var p := WithoutId(a[1..], id);
      var q := WithoutId(b, id);
      assert h + (p + q) == (h + p) + q;
    }
  }

  /** Filtering out a selector no rule has changes nothing. */
  lemma {:induction false} WithoutAbsent(rs: seq<Rule>, sel: string)
    requires !HasSelector(rs, sel)
    ensures WithoutSelector(rs, sel) == rs
  {
    if rs != [] {
      assert rs[0].selector != sel;
      assert forall i :: 0 <= i < |rs| - 1 ==> rs[1..][i] == rs[i + 1];
      WithoutAbsent(rs[1..], sel);
      assert rs == [rs[0]] + rs[1..];
    }
  }

  /** Filtering out the selector of a rule just appended gives the list back. */
  lemma WithoutAppended(rs: seq<Rule>, x: Rule)
    requires !HasSelector(rs, x.selector)
    ensures WithoutSelector(rs + [x], x.selector) == rs
  {
    WithoutSelectorConcat(rs, [x], x.selector);
    assert WithoutSelector([x], x.selector) == [];
    WithoutAbsent(rs, x.selector);
  }

  // ---------------------------------------------------------- domain match

  /** `hostname.endsWith('.' + parent) || hostname === parent`. The content
      script (content/content-script.js:92-94) and the background worker
      (background/background.js:201-203) carry identical copies. */
  predicate IsSubdomain(hostname: string, parent: string) {
    EndsWith(hostname, "." + parent) || hostname == parent
  }

  /** A host is a subdomain of `p` exactly when it is `p` itself or some label
      sequence followed by "." and `p`; a mere suffix match without the dot does
      not count. */
  lemma IsSubdomainShape(h: string, p: string)
    ensures IsSubdomain(h, p) <==>
      h == p || (|h| > |p| && h == h[..|h| - |p| - 1] + "." + p)
  {
    if |h| > |p| && h == h[..|h| - |p| - 1] + "." + p {
      assert h[|h| - |p| - 1..] == "." + p;
    }
    if EndsWith(h, "." + p) {
      assert h == h[..|h| - |p| - 1] + h[|h| - |p| - 1..];
    }
  }

  lemma SubdomainExamples()
    ensures IsSubdomain("a.b.com", "b.com")
    ensures IsSubdomain("b.com", "b.com")
    ensures !IsSubdomain("xb.com", "b.com")
    ensures !IsSubdomain("b.com", "a.b.com")
  {
    assert "a.b.com"[7 - 6..] == ".b.com";
    assert "xb.com"[0..] == "xb.com";
  }

  /** A stored entry whose rules are inherited by `host`. */
  predicate Inherits(entry: (string, DomainData), host: string) {
    entry.1.applyToSubdomains && IsSubdomain(host, entry.0)
  }

  /** The first stored entry, in iteration order, that `host` inherits from. */
  function FirstInheriting(ds: Domains, host: string): (r: Option<nat>)
    ensures r.Some? ==> r.value < |ds| && Inherits(ds[r.value], host)
    ensures r.Some? ==> forall j :: 0 <= j < r.value ==> !Inherits(ds[j], host)
    ensures r.None? ==> forall j :: 0 <= j < |ds| ==> !Inherits(ds[j], host)
  {
    if ds == [] then None
    else if Inherits(ds[0], host) then Some(0)
    else match FirstInheriting(ds[1..], host)
      case None => None
      case Some(i) => Some(i + 1)
  }
}
