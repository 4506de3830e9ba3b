/** The two escapers of the selector generator: each puts a backslash before
    every character of a fixed class (`String.prototype.replace` with a global
    character-class pattern and the replacement `'\\$&'`). */
module Escaping {

  /** The class of `escapeSelector`, ``!"#$%&'()*+,./:;<=>?@[\]^`{|}~``: the
      thirty ASCII punctuation characters other than `-` and `_`. */
  predicate SelectorSpecial(c: char) {
    ('!' <= c <= '/' && c != '-') || (':' <= c <= '@') || ('[' <= c <= '^') || c == '`'
    || ('{' <= c <= '~')
  }

  /** The class of `escapeAttributeValue`: the double quote and the backslash. */
  predicate AttributeSpecial(c: char) { c == '"' || c == '\\' }

  function EscapeWith(s: string, cs: char -> bool): (r: string)
    ensures |r| >= |s|
    ensures (forall i :: 0 <= i < |s| ==> !cs(s[i])) ==> r == s
  {
    if s == [] then []
    else (if cs(s[0]) then ['\\', s[0]] else [s[0]]) + EscapeWith(s[1..], cs)
  }

  function EscapeSelector(v: string): string { EscapeWith(v, SelectorSpecial) }

  function EscapeAttributeValue(v: string): string { EscapeWith(v, AttributeSpecial) }

  /** How a CSS tokenizer reads an escaped string: a backslash stands for the
      character after it. (CSS gives a backslash before a hex digit a different
      meaning; the escapers never put one there, since no hex digit is in
      either class.) */
  function Unescape(t: string): string
    decreases |t|
  {
    if t == [] then []
    else if t[0] == '\\' && |t| >= 2 then [t[1]] + Unescape(t[2..])
    else [t[0]] + Unescape(t[1..])
  }

  /** Escaping is undone by the CSS reading of escapes, provided the backslash is
      itself in the class (it is in both). */
  lemma {:induction false} EscapeRoundTrip(s: string, cs: char -> bool)
    requires cs('\\')
    ensures Unescape(EscapeWith(s, cs)) == s
  {
    if s != [] {
      EscapeRoundTrip(s[1..], cs);
      var rest := EscapeWith(s[1..], cs);
      if cs(s[0]) {
        var t := ['\\', s[0]] + rest;
        assert t[2..] == rest;
      } else {
        var t := [s[0]] + rest;
        assert t[1..] == rest;
      }
    }
  }

  /** The escaper only adds backslashes: deleting one before every class
      character gives the input back, and no class character in the output is
      left bare, so the result never contains an unescaped `"` or `]`. */
  lemma {:induction false} EscapedCharsGuarded(s: string, cs: char -> bool)
    requires cs('\\')
    ensures Guarded(EscapeWith(s, cs), cs)
  {
    if s != [] {
      EscapedCharsGuarded(s[1..], cs);
      var rest := EscapeWith(s[1..], cs);
      if cs(s[0]) {
        assert ['\\', s[0]] + rest == ['\\'] + ([s[0]] + rest);
        GuardedCons2(s[0], rest, cs);
      }
    }
  }

  /** Every class character of `t` is a character escaped by a backslash pair,
      reading from the left. */
  predicate Guarded(t: string, cs: char -> bool)
    decreases |t|
  {
    if t == [] then true
    else if t[0] == '\\' then |t| >= 2 && Guarded(t[2..], cs)
    else !cs(t[0]) && Guarded(t[1..], cs)
  }

  lemma GuardedCons2(c: char, rest: string, cs: char -> bool)
    requires Guarded(rest, cs)
    ensures Guarded(['\\', c] + rest, cs)
  {
    assert (['\\', c] + rest)[2..] == rest;
  }

  lemma EscapeSelectorRoundTrip(v: string)
    ensures Unescape(EscapeSelector(v)) == v
    ensures Guarded(EscapeSelector(v), SelectorSpecial)
  {
    EscapeRoundTrip(v, SelectorSpecial);
    EscapedCharsGuarded(v, SelectorSpecial);
  }

  lemma EscapeAttributeValueRoundTrip(v: string)
    ensures Unescape(EscapeAttributeValue(v)) == v
    ensures Guarded(EscapeAttributeValue(v), AttributeSpecial)
  {
    EscapeRoundTrip(v, AttributeSpecial);
    EscapedCharsGuarded(v, AttributeSpecial);
  }

  /** A character of a plain CSS name: an ASCII letter or digit, `-` or `_`. */
  predicate NameChar(c: char) {
    'a' <= c <= 'z' || 'A' <= c <= 'Z' || '0' <= c <= '9' || c == '-' || c == '_'
  }

  /** Names made of letters, digits, hyphens and underscores (the usual shape
      of ids and class names) pass through unescaped. */
  lemma EscapeSelectorKeepsNames(v: string)
    requires forall i :: 0 <= i < |v| ==> NameChar(v[i])
    ensures EscapeSelector(v) == v
  {
    forall i | 0 <= i < |v| ensures !SelectorSpecial(v[i]) {
      assert NameChar(v[i]);
    }
  }

  lemma EscapeSelectorDot()
    ensures EscapeSelector("a.b") == "a\\.b"
  {
    assert EscapeWith("b", SelectorSpecial) == "b";
    assert EscapeWith(".b", SelectorSpecial) == "\\.b";
  }
}
