/** The selector generator's heuristics for values that look generated at run
    time (timestamps, hashes, dates, session tokens) and for class names that
    look like transient state or framework bookkeeping. */
module Dynamic {
  import opened Common

  predicate IsHexLower(c: char) { IsDigit(c) || 'a' <= c <= 'f' }

  predicate AllHexLower(s: string) {
    forall i :: 0 <= i < |s| ==> IsHexLower(s[i])
  }

  /** The ten characters `\d\d\d\d-\d\d-\d\d`. */
  predicate DateShape(s: string) {
    |s| == 10 && AllDigits(s[..4]) && s[4] == '-' && AllDigits(s[5..7]) && s[7] == '-'
    && AllDigits(s[8..])
  }

  /** `w` (ASCII lower case) occurs at `i`, compared as a non-Unicode `/i` regular
      expression does: ASCII letters are folded, nothing else is. */
  predicate WordAt(s: string, i: nat, w: string) {
    i + |w| <= |s| && Lower(s[i..i + |w|]) == w
  }

  /** Where each of the six patterns can match, at position `i`.
      - `/\d{10,}/`: ten digits (a longer run contains ten);
      - `/[a-f0-9]{8,}/`: eight lower-case hex characters (no `i` flag);
      - `/\d{4}-\d{2}-\d{2}/`;
      - `/random|temp|tmp/i`;
      - `/\d+_\d+/`: a digit, an underscore and a digit (the shortest match);
      - `/session|token/i`. */
  predicate PatternAt(s: string, i: nat) {
    (i + 10 <= |s| && AllDigits(s[i..i + 10]))
    || (i + 8 <= |s| && AllHexLower(s[i..i + 8]))
    || (i + 10 <= |s| && DateShape(s[i..i + 10]))
    || WordAt(s, i, "random") || WordAt(s, i, "temp") || WordAt(s, i, "tmp")
    || (i + 3 <= |s| && IsDigit(s[i]) && s[i + 1] == '_' && IsDigit(s[i + 2]))
    || WordAt(s, i, "session") || WordAt(s, i, "token")
  }

  /** `isDynamicValue`: the empty value counts as dynamic, and so does any value
      in which one of the patterns matches somewhere (`pattern.test` searches).
      Element ids and attribute values are always strings here, so the
      `typeof` test has no case of its own. */
  predicate IsDynamicValue(v: string) {
    v == [] || exists i :: 0 <= i < |v| && PatternAt(v, i)
  }

  /** The entries of `ignoredClasses`; despite the name they are used as prefixes. */
  const IgnoredClassPrefixes: seq<string> :=
    ["active", "focus", "hover", "selected", "current",
     "ng-", "vue-", "react-", "ember-",
     "is-", "has-", "js-"]

  /** The entries of `ignoredAttributes`; looked up with `Set.has`, so by exact name. */
  const IgnoredAttributes: set<string> :=
    {"style", "data-reactid", "data-react-checksum", "data-vue-", "ng-", "data-ng-"}

  predicate HasIgnoredPrefix(c: string) {
    exists k :: 0 <= k < |IgnoredClassPrefixes| && StartsWith(c, IgnoredClassPrefixes[k])
  }

  /** `isDynamicClass` */
  predicate IsDynamicClass(c: string) {
    IsDynamicValue(c) || HasIgnoredPrefix(c)
  }

  // ---------------------------------------------------------------- lemmas

  lemma SliceShift(a: string, v: string, b: string, i: nat, n: nat)
    requires i + n <= |v|
    ensures (a + v + b)[|a| + i..|a| + i + n] == v[i..i + n]
  {
    var w := a + v + b;
    var x := w[|a| + i..|a| + i + n];
    var y := v[i..i + n];
    forall k | 0 <= k < n ensures x[k] == y[k] {
      assert w[|a| + i + k] == v[i + k];
    }
  }

  lemma WordShift(a: string, v: string, b: string, i: nat, x: string)
    requires WordAt(v, i, x)
    ensures WordAt(a + v + b, |a| + i, x)
  {
    SliceShift(a, v, b, i, |x|);
  }

  lemma PatternShift(a: string, v: string, b: string, i: nat)
    requires PatternAt(v, i)
    ensures PatternAt(a + v + b, |a| + i)
  {
    var w := a + v + b;
    var j := |a| + i;
    if i + 10 <= |v| && AllDigits(v[i..i + 10]) {
      SliceShift(a, v, b, i, 10);
      assert j + 10 <= |w| && AllDigits(w[j..j + 10]);
    } else if i + 8 <= |v| && AllHexLower(v[i..i + 8]) {
      SliceShift(a, v, b, i, 8);
      assert j + 8 <= |w| && AllHexLower(w[j..j + 8]);
    } else if i + 10 <= |v| && DateShape(v[i..i + 10]) {
      SliceShift(a, v, b, i, 10);
      assert j + 10 <= |w| && DateShape(w[j..j + 10]);
    } else if WordAt(v, i, "random") {
      WordShift(a, v, b, i, "random");
    } else if WordAt(v, i, "temp") {
      WordShift(a, v, b, i, "temp");
    } else if WordAt(v, i, "tmp") {
      WordShift(a, v, b, i, "tmp");
    } else if WordAt(v, i, "session") {
      WordShift(a, v, b, i, "session");
    } else if WordAt(v, i, "token") {
      WordShift(a, v, b, i, "token");
    } else {
      assert w[j] == v[i] && w[j + 1] == v[i + 1] && w[j + 2] == v[i + 2];
      assert j + 3 <= |w| && IsDigit(w[j]) && w[j + 1] == '_' && IsDigit(w[j + 2]);
    }
  }

  /** A value that looks dynamic still does inside any longer string: padding a
      timestamp or a session token with stable text does not make it stable. */
  lemma DynamicInside(a: string, v: string, b: string)
    requires v != [] && IsDynamicValue(v)
    ensures IsDynamicValue(a + v + b)
  {
    var i :| 0 <= i < |v| && PatternAt(v, i);
    PatternShift(a, v, b, i);
  }

  /** Being a dynamic class is preserved by appending text: the prefix tests and
      the pattern search both keep holding (the empty class is the exception). */
  lemma DynamicClassExtends(c: string, t: string)
    requires c != [] && IsDynamicClass(c)
    ensures IsDynamicClass(c + t)
  {
    if IsDynamicValue(c) && c != [] {
      DynamicInside([], c, t);
      assert [] + c + t == c + t;
    } else if HasIgnoredPrefix(c) {
      var k :| 0 <= k < |IgnoredClassPrefixes| && StartsWith(c, IgnoredClassPrefixes[k]);
      assert (c + t)[..|IgnoredClassPrefixes[k]|] == c[..|IgnoredClassPrefixes[k]|];
    }
  }

  /** Values the heuristics treat as generated: a date, a hash, a session
      marker and a millisecond timestamp. */
  lemma DynamicDate()
    ensures IsDynamicValue("2024-01-15")
  {
    var v := "2024-01-15";
    assert v[0..10] == v && v[..4] == "2024" && v[5..7] == "01" && v[8..] == "15";
    assert DateShape(v[0..10]);
    assert PatternAt(v, 0);
  }

  lemma DynamicHash()
    ensures IsDynamicValue("a1b2c3d4e5f6")
  {
    var v := "a1b2c3d4e5f6";
    var h := v[0..8];
    assert h == "a1b2c3d4";
    assert forall i :: 0 <= i < 8 ==> IsHexLower(h[i]);
    assert PatternAt(v, 0);
  }

  lemma DynamicSession()
    ensures IsDynamicValue("session_abc")
  {
    var v := "session_abc";
    assert v[0..7] == "session";
    assert WordAt(v, 0, "session");
    assert PatternAt(v, 0);
  }

  lemma DynamicTimestamp()
    ensures IsDynamicValue("1700000000000")
    ensures IsDynamicValue("")
  {
    var v := "1700000000000";
    var d := v[0..10];
    assert d == "1700000000";
    assert forall i :: 0 <= i < 10 ==> IsDigit(d[i]);
    assert PatternAt(v, 0);
  }

  /** What a match at `k` needs of the first characters there: a digit (all
      the digit patterns), eight hex characters, or the first two letters of
      one of the words with room for the rest. */
  lemma PatternAtNeeds(v: string, k: nat)
    requires PatternAt(v, k)
    ensures (k + 2 <= |v| && IsDigit(v[k]) && (k + 10 <= |v| || v[k + 1] == '_'))
      || (k + 8 <= |v| && forall j :: k <= j < k + 8 ==> IsHexLower(v[j]))
      || (k + 6 <= |v| && LowerChar(v[k]) == 'r' && LowerChar(v[k + 1]) == 'a')
      || (k + 4 <= |v| && LowerChar(v[k]) == 't' && LowerChar(v[k + 1]) == 'e')
      || (k + 3 <= |v| && LowerChar(v[k]) == 't' && LowerChar(v[k + 1]) == 'm')
      || (k + 7 <= |v| && LowerChar(v[k]) == 's' && LowerChar(v[k + 1]) == 'e')
      || (k + 5 <= |v| && LowerChar(v[k]) == 't' && LowerChar(v[k + 1]) == 'o')
  {
    if k + 10 <= |v| && AllDigits(v[k..k + 10]) {
      assert v[k..k + 10][0] == v[k];
    } else if k + 8 <= |v| && AllHexLower(v[k..k + 8]) {
      forall j | k <= j < k + 8 ensures IsHexLower(v[j]) {
        assert v[k..k + 8][j - k] == v[j];
      }
    } else if k + 10 <= |v| && DateShape(v[k..k + 10]) {
      assert v[k..k + 10][..4][0] == v[k];
    } else if WordAt(v, k, "random") || WordAt(v, k, "temp") || WordAt(v, k, "tmp")
      || WordAt(v, k, "session") || WordAt(v, k, "token") {
      var w := if WordAt(v, k, "random") then "random" else if WordAt(v, k, "temp") then "temp"
        else if WordAt(v, k, "tmp") then "tmp" else if WordAt(v, k, "session") then "session"
        else "token";
      assert Lower(v[k..k + |w|])[0] == LowerChar(v[k]);
      assert Lower(v[k..k + |w|])[1] == LowerChar(v[k + 1]);
    }
  }

  /** Values the heuristics keep: ordinary readable names, including one with a
      short number in it. */
  lemma StableExamples()
    ensures !IsDynamicValue("nav-item")
    ensures !IsDynamicValue("primary-button")
    ensures !IsDynamicValue("ad-banner-123")
  {
    var v1 := "nav-item";
    forall k | 0 <= k < |v1| ensures !PatternAt(v1, k) {
      if PatternAt(v1, k) {
        PatternAtNeeds(v1, k);
      }
    }
    var v2 := "primary-button";
    forall k | 0 <= k < |v2| ensures !PatternAt(v2, k) {
      assert v2[7] == '-';
      if PatternAt(v2, k) {
        PatternAtNeeds(v2, k);
      }
    }
    var v3 := "ad-banner-123";
    forall k | 0 <= k < |v3| ensures !PatternAt(v3, k) {
      assert v3[2] == '-' && v3[9] == '-';
      if PatternAt(v3, k) {
        PatternAtNeeds(v3, k);
      }
    }
  }

  /** The prefix list catches state and framework classes, and only as prefixes. */
  lemma DynamicClassExamples()
    ensures IsDynamicClass("activeTab")
    ensures IsDynamicClass("is-open")
    ensures IsDynamicClass("ng-hide")
    ensures !IsDynamicClass("nav-item")
  {
    assert StartsWith("activeTab", IgnoredClassPrefixes[0]);
    assert StartsWith("is-open", IgnoredClassPrefixes[9]);
    assert StartsWith("ng-hide", IgnoredClassPrefixes[5]);
    StableExamples();
    assert !HasIgnoredPrefix("nav-item") by {
      forall k | 0 <= k < |IgnoredClassPrefixes|
        ensures !StartsWith("nav-item", IgnoredClassPrefixes[k])
      {
        var p := IgnoredClassPrefixes[k];
        assert |p| >= 3 && (p[0] != 'n' || p[1] != 'a');
      }
    }
  }

  /** Attribute names are ignored only on an exact match: "data-vue-" is listed,
      but a real Vue attribute such as "data-vue-x" is not caught by it. */
  lemma IgnoredAttributeExamples()
    ensures "data-reactid" in IgnoredAttributes
    ensures "data-vue-x" !in IgnoredAttributes
  {
  }
}
