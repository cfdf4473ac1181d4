/**
 * The build step that moves inline `style="…"` attributes of the generated
 * HTML into classes (scripts/utils/inline-style-transform.mjs), so that the
 * site's Content-Security-Policy needs no `unsafe-inline` for styles.
 *
 * Each distinct normalised style value gets a class `<prefix>-<n>`, numbered
 * from 1 in order of first appearance in a shared map; the tag loses its
 * first style attribute and gains the class; the map is rendered as one CSS
 * rule per entry; and, when anything was rewritten, one `<link>` to the
 * generated stylesheet is injected.
 *
 * The regular expressions of the source are modelled by hand-written
 * scanners with the same leftmost, lazy-or-greedy match they select.
 */
module InlineStyles {
  import opened Wrappers
  import opened Text

  // ---------------------------------------------------------------------------
  // Style values
  // ---------------------------------------------------------------------------

  /** Where the run of JavaScript whitespace that ends at `j` starts. */
  function SpaceStart(s: string, j: nat): (b: nat)
    requires j <= |s|
    ensures b <= j && (b > 0 ==> !JsSpace(s[b - 1]))
    decreases j
  {
    if j > 0 && JsSpace(s[j - 1]) then SpaceStart(s, j - 1) else j
  }

  /** The run is whitespace. */
  lemma {:induction false} SpaceStartIsSpace(s: string, j: nat)
    requires j <= |s|
    ensures forall x :: SpaceStart(s, j) <= x < j ==> JsSpace(s[x])
    decreases j
  {
    if j > 0 && JsSpace(s[j - 1]) {
      SpaceStartIsSpace(s, j - 1);
    }
  }

  /** Where the run of `;` that ends at `j` starts. */
  function SemicolonStart(s: string, j: nat): (b: nat)
    requires j <= |s|
    ensures b <= j && (b > 0 ==> s[b - 1] != ';')
    ensures forall x :: b <= x < j ==> s[x] == ';'
    decreases j
  {
    if j > 0 && s[j - 1] == ';' then SemicolonStart(s, j - 1) else j
  }

  /**
   * `t` matches `;+\s*` entirely: without its trailing whitespace it is a
   * non-empty run of `;` (no `;` is whitespace, so the split is forced).
   */
  predicate SemicolonTail(t: string) {
    var e := SpaceStart(t, |t|);
    e > 0 && forall j :: 0 <= j < e ==> t[j] == ';'
  }

  /**
   * `s.replace(/;+\s*$/g, '')`: the leftmost match is the run of `;` before
   * the trailing whitespace together with that whitespace; after it the
   * global search is at the end of `s`, where `;+` cannot match again.
   */
  function DropSemicolonTail(s: string): (r: string)
    ensures |r| <= |s| && r == s[..|r|]
  {
    var e := SpaceStart(s, |s|);
    var b := SemicolonStart(s, e);
    if b == e then s else s[..b]
  }

  /** The trailing whitespace of a suffix is that of the whole string, cut to the suffix. */
  lemma {:induction false} SpaceStartSuffix(s: string, i: nat, j: nat)
    requires i <= j <= |s|
    ensures SpaceStart(s[i..], j - i) == (if SpaceStart(s, j) < i then i else SpaceStart(s, j)) - i
    decreases j
  {
    if j > i {
      assert s[i..][j - i - 1] == s[j - 1];
      if JsSpace(s[j - 1]) {
        SpaceStartSuffix(s, i, j - 1);
      }
    }
  }

  /** The suffix from `i` matches `;+\s*` exactly when `i` lies in the `;` run before the trailing whitespace. */
  lemma SemicolonTailAt(s: string, i: nat)
    requires i <= |s|
    ensures var e := SpaceStart(s, |s|); var b := SemicolonStart(s, e);
      SemicolonTail(s[i..]) <==> b < e && b <= i < e
  {
    var e := SpaceStart(s, |s|);
    var b := SemicolonStart(s, e);
    var e' := SuffixSpaceStart(s, i);
    if b <= i < e {
      SemicolonTailInRun(s, i, e, b, e');
    } else if i < e {
      assert s[i..][b - 1 - i] == s[b - 1];
    }
  }

  /** Where the trailing whitespace of the suffix from `i` starts. */
  lemma SuffixSpaceStart(s: string, i: nat) returns (e': nat)
    requires i <= |s|
    ensures e' == SpaceStart(s[i..], |s[i..]|)
    ensures var e := SpaceStart(s, |s|); e' == (if e < i then i else e) - i
  {
    SpaceStartSuffix(s, i, |s|);
    e' := SpaceStart(s[i..], |s[i..]|);
  }

  lemma SemicolonTailInRun(s: string, i: nat, e: nat, b: nat, e': nat)
    requires e == SpaceStart(s, |s|) && b == SemicolonStart(s, e) && b <= i < e
    requires e' == SpaceStart(s[i..], |s[i..]|) && e' == e - i
    ensures SemicolonTail(s[i..])
  {
    var t := s[i..];
    forall j | 0 <= j < e' ensures t[j] == ';' {
      assert t[j] == s[i + j];
    }
  }

  /** The part removed is the leftmost suffix matching `;+\s*`, and there is none when nothing is removed. */
  lemma DropSemicolonTailLeftmost(s: string)
    ensures var r := DropSemicolonTail(s);
      (r == s && forall i :: 0 <= i <= |s| ==> !SemicolonTail(s[i..]))
      || (SemicolonTail(s[|r|..]) && forall i :: 0 <= i < |r| ==> !SemicolonTail(s[i..]))
  {
    forall i | 0 <= i <= |s| {
      SemicolonTailAt(s, i);
    }
  }

  /** `normalizeStyleValue`: trim, then drop the trailing `;` run and the whitespace after it. */
  function NormalizeStyleValue(v: string): (r: string)
  {
    DropSemicolonTail(Trim(Js, v))
  }

  /** The normalised value is the trimmed value without its trailing `;` characters, and ends in none. */
  lemma NormalizeStripsSemicolons(v: string)
    ensures var t := Trim(Js, v); var r := NormalizeStyleValue(v);
      |r| <= |t| && r == t[..|r|]
      && (forall i :: |r| <= i < |t| ==> t[i] == ';')
      && (r == [] || r[|r| - 1] != ';')
  {
    var t := Trim(Js, v);
    TrimEnds(Js, v);
    assert SpaceStart(t, |t|) == |t|;
  }

  /** `ensureTrailingSemicolon`: the trimmed value, with a `;` added when it lacks one; empty when blank. */
  function EnsureTrailingSemicolon(v: string): (r: string)
    ensures r == [] <==> Trim(Js, v) == []
    ensures r != [] ==> r[|r| - 1] == ';' && (r == Trim(Js, v) || r == Trim(Js, v) + ";")
    ensures EndsWith(Trim(Js, v), ";") ==> r == Trim(Js, v)
  {
    var t := Trim(Js, v);
    if t == [] then "" else if EndsWith(t, ";") then t else t + ";"
  }

  /** Adding the semicolon twice changes nothing. */
  lemma EnsureTrailingSemicolonIdempotent(v: string)
    ensures EnsureTrailingSemicolon(EnsureTrailingSemicolon(v)) == EnsureTrailingSemicolon(v)
  {
    var t := Trim(Js, v);
    var r := EnsureTrailingSemicolon(v);
    if r != [] {
      assert Trim(Js, r) == r by {
        if r == t {
          TrimIdempotent(Js, v);
        } else {
          TrimEnds(Js, v);
          assert r[0] == t[0] && r[|r| - 1] == ';';
          assert TrimStart(Js, r) == r;
          assert TrimEnd(Js, r) == r;
        }
      }
      assert r[|r| - 1..] == ";";
    }
  }

  // ---------------------------------------------------------------------------
  // The attribute pattern `\s<name>=(["'])([\s\S]*?)\1` with the `i` flag
  // ---------------------------------------------------------------------------

  /** ASCII lower-casing: the `i` flag without `u` folds no other character onto a letter of `style` or `class`. */
  function AsciiLower(c: char): char {
    if 'A' <= c <= 'Z' then (c as int + 32) as char else c
  }

  predicate IsQuote(c: char) {
    c == '"' || c == '\''
  }

  /** The first index at or after `k` holding `c`. */
  function CharFrom(s: string, c: char, k: nat): (r: Option<nat>)
    ensures r.Some? ==> k <= r.value < |s| && s[r.value] == c
    ensures r.Some? ==> forall j :: k <= j < r.value ==> s[j] != c
    ensures r.None? ==> forall j :: k <= j < |s| ==> s[j] != c
    decreases |s| - k
  {
    if k >= |s| then None else if s[k] == c then Some(k) else CharFrom(s, c, k + 1)
  }

  /** `s` holds whitespace, `name` in any ASCII case, `=` and a quote from index `i`. */
  predicate AttrHead(s: string, i: nat, name: string) {
    i + |name| + 2 < |s| && JsSpace(s[i])
    && (forall k :: 0 <= k < |name| ==> AsciiLower(s[i + 1 + k]) == name[k])
    && s[i + 1 + |name|] == '=' && IsQuote(s[i + 2 + |name|])
  }

  /** Where the pattern matches when it starts at `i`: the index of the closing quote, the first repeat of the opening one. */
  function AttrAt(s: string, i: nat, name: string): (r: Option<nat>)
    ensures r.Some? ==> AttrHead(s, i, name)
  {
    if AttrHead(s, i, name) then
      var q := i + 2 + |name|;
      CharFrom(s, s[q], q + 1)
    else None
  }

  /** A match of the attribute pattern: from `start`, opening quote at `quote`, closing quote at `close`. */
  datatype Attr = Attr(start: nat, quote: nat, close: nat)

  /** `s.match(re)` for the attribute pattern: the leftmost start at or after `from` where it matches. */
  function AttrMatch(s: string, name: string, from: nat): (r: Option<Attr>)
    ensures r.Some? ==> from <= r.value.start && r.value.quote == r.value.start + 2 + |name|
    ensures r.Some? ==> AttrAt(s, r.value.start, name) == Some(r.value.close)
    ensures r.Some? ==> forall i :: from <= i < r.value.start ==> AttrAt(s, i, name).None?
    ensures r.None? ==> forall i :: from <= i ==> AttrAt(s, i, name).None?
    decreases |s| - from
  {
    if from >= |s| then None
    else match AttrAt(s, from, name)
      case Some(close) => Some(Attr(from, from + 2 + |name|, close))
      case None => AttrMatch(s, name, from + 1)
  }

  /** The first capture around a match: the quote character. */
  function QuoteOf(s: string, a: Attr): string
    requires a.quote < |s|
  {
    [s[a.quote]]
  }

  /** The second capture around a match: the attribute value between the quotes. */
  function ValueOf(s: string, a: Attr): string
    requires a.quote < a.close < |s|
  {
    s[a.quote + 1..a.close]
  }

  /** A match lies inside the string, with the value between its quotes. */
  lemma AttrMatchBounds(s: string, name: string, from: nat)
    requires AttrMatch(s, name, from).Some?
    ensures var a := AttrMatch(s, name, from).value;
      a.start < a.quote < a.close < |s| && s[a.close] == s[a.quote] && IsQuote(s[a.quote])
      && s[a.quote] !in ValueOf(s, a)
  {
    var a := AttrMatch(s, name, from).value;
    assert AttrHead(s, a.start, name);
    var value := s[a.quote + 1..a.close];
    forall k | 0 <= k < |value| ensures value[k] != s[a.quote] {
      assert value[k] == s[a.quote + 1 + k];
    }
  }

  // ---------------------------------------------------------------------------
  // Replacement templates of String.prototype.replace
  // ---------------------------------------------------------------------------

  predicate IsDigit(c: char) {
    '0' <= c <= '9'
  }

  function DigitValue(c: char): nat
    requires IsDigit(c)
  {
    c as int - '0' as int
  }

  /**
   * The GetSubstitution operation of the ECMAScript specification for a
   * replacement `template` with no named groups: `$$`, `$&`, `` $` ``, `$'`
   * and `$n`/`$nn` (1 to the number of captures) are replaced, every other
   * character is copied.
   */
  function Expand(template: string, matched: string, before: string, after: string, captures: seq<string>): (r: string)
    decreases |template|
  {
    if template == [] then ""
    else if template[0] != '$' || |template| == 1 then
      [template[0]] + Expand(template[1..], matched, before, after, captures)
    else
      var c := template[1];
      if c == '$' then "$" + Expand(template[2..], matched, before, after, captures)
      else if c == '&' then matched + Expand(template[2..], matched, before, after, captures)
      else if c == '`' then before + Expand(template[2..], matched, before, after, captures)
      else if c == '\'' then after + Expand(template[2..], matched, before, after, captures)
      else if IsDigit(c) then
        var one := DigitValue(c);
        if |template| >= 3 && IsDigit(template[2]) && 10 * one + DigitValue(template[2]) <= |captures| then
          var two := 10 * one + DigitValue(template[2]);
          (if two >= 1 then captures[two - 1] else template[..3])
            + Expand(template[3..], matched, before, after, captures)
        else
          (if 1 <= one <= |captures| then captures[one - 1] else template[..2])
            + Expand(template[2..], matched, before, after, captures)
      else "$" + Expand(template[1..], matched, before, after, captures)
  }

  /** A template without `$` is copied unchanged in front of what follows it. */
  lemma {:induction false} ExpandPlain(a: string, b: string, matched: string, before: string, after: string, captures: seq<string>)
    requires '$' !in a
    ensures Expand(a + b, matched, before, after, captures) == a + Expand(b, matched, before, after, captures)
    decreases |a|
  {
    if a != [] {
      assert (a + b)[0] == a[0] && (a + b)[1..] == a[1..] + b;
      assert a[0] in a;
      assert Expand(a + b, matched, before, after, captures) == [a[0]] + Expand(a[1..] + b, matched, before, after, captures);
      assert '$' !in a[1..] by {
        forall c | c in a[1..] ensures c != '$' { assert c in a; }
      }
      ExpandPlain(a[1..], b, matched, before, after, captures);
      assert a == [a[0]] + a[1..];
    } else {
      assert a + b == b;
    }
  }

  /** A template without `$` expands to itself. */
  lemma ExpandNoDollar(a: string, matched: string, before: string, after: string, captures: seq<string>)
    requires '$' !in a
    ensures Expand(a, matched, before, after, captures) == a
  {
    ExpandPlain(a, [], matched, before, after, captures);
    assert a + [] == a;
  }

  // ---------------------------------------------------------------------------
  // The class attribute
  // ---------------------------------------------------------------------------

  /** The class value after adding `cls` to the trimmed `existing` one. */
  function NextClassValue(existing: string, cls: string): (r: string)
    ensures EndsWith(r, cls)
  {
    var t := Trim(Js, existing);
    if t == [] then cls else t + " " + cls
  }

  /** The text of `attrs` with the match `a` replaced by `text`. */
  function ReplaceMatch(attrs: string, a: Attr, text: string): string
    requires a.start <= a.close < |attrs|
  {
    attrs[..a.start] + text + attrs[a.close + 1..]
  }

  /** The replacement for a class attribute matched at `a`: ` class="<next value>"`. */
  function ClassText(attrs: string, a: Attr, cls: string): string
    requires a.quote < a.close < |attrs|
  {
    " class=\"" + NextClassValue(ValueOf(attrs, a), cls) + "\""
  }

  /** The class text with the `$` patterns of a replacement template expanded against the match `a`. */
  function ExpandedClassText(attrs: string, a: Attr, cls: string): string
    requires a.start <= a.quote < a.close < |attrs|
  {
    Expand(ClassText(attrs, a, cls), attrs[a.start..a.close + 1], attrs[..a.start], attrs[a.close + 1..],
           [QuoteOf(attrs, a), ValueOf(attrs, a)])
  }

  /**
   * `ensureClassAttribute`: the first class attribute becomes
   * ` class="<existing trimmed> <cls>"`, double-quoted; without one,
   * ` class="<cls>"` is appended. The replacement text is inserted verbatim.
   */
  function EnsureClassAttribute(attrs: string, cls: string): (r: string)
  {
    match AttrMatch(attrs, "class", 0)
    case Some(a) =>
      AttrMatchBounds(attrs, "class", 0);
      ReplaceMatch(attrs, a, ClassText(attrs, a, cls))
    case None => attrs + " class=\"" + cls + "\""
  }

  /**
   * The first class attribute, in either quotes, is rewritten double-quoted
   * with `cls` after its trimmed value (alone when that value is blank), and
   * everything around it is kept.
   */
  lemma EnsureClassAttributeFound(attrs: string, cls: string, a: Attr)
    requires AttrMatch(attrs, "class", 0) == Some(a)
    ensures a.quote < a.close < |attrs|
    ensures forall i :: 0 <= i < a.start ==> AttrAt(attrs, i, "class").None?
    ensures var prev := Trim(Js, ValueOf(attrs, a));
      EnsureClassAttribute(attrs, cls)
        == attrs[..a.start] + (" class=\"" + (if prev == [] then cls else prev + " " + cls) + "\"") + attrs[a.close + 1..]
  {
    AttrMatchBounds(attrs, "class", 0);
    assert EnsureClassAttribute(attrs, cls) == ReplaceMatch(attrs, a, ClassText(attrs, a, cls));
  }

  /** Without a class attribute, ` class="<cls>"` is appended. */
  lemma EnsureClassAttributeAbsent(attrs: string, cls: string)
    requires AttrMatch(attrs, "class", 0).None?
    ensures EnsureClassAttribute(attrs, cls) == attrs + " class=\"" + cls + "\""
  {
  }

  /**
   * The same with `attrs.replace(classAttrRe, template)` as written: the
   * template is expanded, so `$` patterns in the existing value or in the
   * class name are interpreted.
   */
  function EnsureClassAttributeAsWritten(attrs: string, cls: string): (r: string)
  {
    match AttrMatch(attrs, "class", 0)
    case Some(a) =>
      AttrMatchBounds(attrs, "class", 0);
      ReplaceMatch(attrs, a, ExpandedClassText(attrs, a, cls))
    case None => attrs + " class=\"" + cls + "\""
  }

  lemma NoCharInSlice(c: char, s: string, i: nat, j: nat)
    requires c !in s && i <= j <= |s|
    ensures c !in s[i..j]
  {
    forall k | 0 <= k < j - i ensures s[i..j][k] != c { assert s[i..j][k] == s[i + k]; }
  }

  lemma NoCharInTrim(c: char, s: string)
    requires c !in s
    ensures c !in Trim(Js, s)
  {
    var ts := TrimStart(Js, s);
    NoCharInSlice(c, s, |s| - |ts|, |s|);
    NoCharInSlice(c, ts, 0, |TrimEnd(Js, ts)|);
  }

  /** Both agree whenever neither the existing class value nor the class name holds a `$`. */
  lemma EnsureClassAttributeAgrees(attrs: string, cls: string)
    requires '$' !in attrs && '$' !in cls
    ensures EnsureClassAttributeAsWritten(attrs, cls) == EnsureClassAttribute(attrs, cls)
  {
    var m := AttrMatch(attrs, "class", 0);
    if m.Some? {
      AttrMatchBounds(attrs, "class", 0);
      ExpandedClassTextPlain(attrs, m.value, cls);
    }
  }

  /** Without a `$` in the attributes or the class name, the expanded class text is the class text. */
  lemma ExpandedClassTextPlain(attrs: string, a: Attr, cls: string)
    requires a.start <= a.quote < a.close < |attrs|
    requires '$' !in attrs && '$' !in cls
    ensures ExpandedClassText(attrs, a, cls) == ClassText(attrs, a, cls)
  {
    ClassTextNoDollar(attrs, a, cls);
    ExpandNoDollar(ClassText(attrs, a, cls), attrs[a.start..a.close + 1], attrs[..a.start], attrs[a.close + 1..],
                   [QuoteOf(attrs, a), ValueOf(attrs, a)]);
  }

  lemma ClassTextNoDollar(attrs: string, a: Attr, cls: string)
    requires a.quote < a.close < |attrs|
    requires '$' !in attrs && '$' !in cls
    ensures '$' !in ClassText(attrs, a, cls)
  {
    assert '$' !in ValueOf(attrs, a) by {
      NoCharInSlice('$', attrs, a.quote + 1, a.close);
    }
    NextValueNoDollar(ValueOf(attrs, a), cls);
    assert '$' !in " class=\"" && '$' !in "\"";
    NoCharInWrap('$', " class=\"", NextClassValue(ValueOf(attrs, a), cls), "\"");
  }

  lemma NextValueNoDollar(v: string, cls: string)
    requires '$' !in v && '$' !in cls
    ensures '$' !in NextClassValue(v, cls)
  {
    NoCharInTrim('$', v);
  }

  lemma NoCharInWrap(c: char, p: string, m: string, q: string)
    requires c !in p && c !in m && c !in q
    ensures c !in p + m + q
  {
  }

  /** An existing value `$&` is kept by the corrected rewrite ... */
  lemma EnsureClassAttributeDollarKept(attrs: string, cls: string)
    requires attrs == " class=\"$&\"" && cls == "c"
    ensures EnsureClassAttribute(attrs, cls) == " class=\"$& c\""
  {
    var a := Attr(0, 7, 10);
    DollarAttrMatch();
    DollarValue(attrs, a);
    DollarNextValue();
    var t := ClassText(attrs, a, cls);
    assert EnsureClassAttribute(attrs, cls) == ReplaceMatch(attrs, a, t);
    DollarClassText(t);
    ReplaceWhole(attrs, a, t);
  }

  lemma DollarValue(attrs: string, a: Attr)
    requires attrs == " class=\"$&\"" && a == Attr(0, 7, 10)
    ensures ValueOf(attrs, a) == "$&"
  {
  }

  lemma DollarClassText(t: string)
    requires t == " class=\"" + "$& c" + "\""
    ensures t == " class=\"$& c\""
  {
  }

  /** Replacing a match that spans the whole string gives the replacement. */
  lemma ReplaceWhole(attrs: string, a: Attr, text: string)
    requires a.start == 0 && a.close + 1 == |attrs|
    ensures ReplaceMatch(attrs, a, text) == text
  {
    assert attrs[..0] == [] && attrs[a.close + 1..] == [];
  }

  /** ... and replaced by the whole matched attribute as written. */
  lemma EnsureClassAttributeDollarAmpersand(attrs: string, cls: string)
    requires attrs == " class=\"$&\"" && cls == "c"
    ensures EnsureClassAttributeAsWritten(attrs, cls) == " class=\"" + attrs + " c\""
  {
    DollarAttrMatch();
    var a := Attr(0, 7, 10);
    assert ValueOf(attrs, a) == "$&";
    DollarNextValue();
    var t := ClassText(attrs, a, cls);
    assert t == " class=\"" + "$&" + " c\"";
    var m := attrs[a.start..a.close + 1];
    var caps := [QuoteOf(attrs, a), ValueOf(attrs, a)];
    ExpandAmpersandIn(t, " class=\"", " c\"", m, attrs[..a.start], attrs[a.close + 1..], caps);
    var e := ExpandedClassText(attrs, a, cls);
    assert e == " class=\"" + m + " c\"";
    assert EnsureClassAttributeAsWritten(attrs, cls) == ReplaceMatch(attrs, a, e);
    assert attrs[..0] == "" && attrs[11..] == "";
    assert ReplaceMatch(attrs, a, e) == "" + e + "";
    assert "" + e + "" == e;
    assert m == attrs;
  }

  lemma ExpandAmpersandIn(t: string, p: string, q: string, matched: string, before: string, after: string, captures: seq<string>)
    requires t == p + "$&" + q && '$' !in p && '$' !in q
    ensures Expand(t, matched, before, after, captures) == p + matched + q
  {
    ExpandAmpersand(p, q, matched, before, after, captures);
  }

  lemma DollarAttrMatch()
    ensures AttrMatch(" class=\"$&\"", "class", 0) == Some(Attr(0, 7, 10))
  {
    var attrs := " class=\"$&\"";
    assert AttrHead(attrs, 0, "class");
    assert CharFrom(attrs, '"', 10) == Some(10);
    assert CharFrom(attrs, '"', 9) == Some(10);
    assert CharFrom(attrs, '"', 8) == Some(10);
  }

  lemma DollarNextValue()
    ensures NextClassValue("$&", "c") == "$& c"
  {
    var v := "$&";
    assert NoSpace(Js, v) by {
      forall i | 0 <= i < |v| ensures !IsSpace(Js, v[i]) {
        assert v[i] == '$' || v[i] == '&';
      }
    }
    TrimNoSpace(Js, v);
    assert v + " " + "c" == "$& c";
  }

  /** `$&` between two plain parts expands to the matched text. */
  lemma ExpandAmpersand(p: string, q: string, matched: string, before: string, after: string, captures: seq<string>)
    requires '$' !in p && '$' !in q
    ensures Expand(p + "$&" + q, matched, before, after, captures) == p + matched + q
  {
    var t := "$&" + q;
    assert p + "$&" + q == p + t;
    ExpandPlain(p, t, matched, before, after, captures);
    assert t[0] == '$' && t[1] == '&' && t[2..] == q;
    assert Expand(t, matched, before, after, captures) == matched + Expand(q, matched, before, after, captures);
    ExpandNoDollar(q, matched, before, after, captures);
  }

  // ---------------------------------------------------------------------------
  // The style-to-class map (a JavaScript Map from style value to class name)
  // ---------------------------------------------------------------------------

  /** The entries of the map in insertion order. */
  type Entries = seq<(string, string)>

  function Keys(es: Entries): seq<string>
  {
    seq(|es|, i requires 0 <= i < |es| => es[i].0)
  }

  /** A Map holds each key once. */
  predicate KeysDistinct(es: Entries) {
    Distinct(Keys(es))
  }

  /** The position of `key`, if the map has it. */
  function KeyIndex(es: Entries, key: string): (r: Option<nat>)
    ensures r.Some? <==> key in Keys(es)
    ensures r.Some? ==> r.value < |es| && es[r.value].0 == key
    decreases |es|
  {
    if es == [] then None
    else if es[|es| - 1].0 == key then
      assert Keys(es)[|es| - 1] == key;
      Some(|es| - 1)
    else
      assert Keys(es) == Keys(es[..|es| - 1]) + [es[|es| - 1].0];
      KeyIndex(es[..|es| - 1], key)
  }

  /** `map.get(key)`. */
  function Lookup(es: Entries, key: string): (r: Option<string>)
    ensures r.Some? <==> key in Keys(es)
    ensures r.Some? ==> (key, r.value) in es
  {
    match KeyIndex(es, key)
    case Some(i) => Some(es[i].1)
    case None => None
  }

  /** `<prefix>-<n>`. */
  function ClassName(prefix: string, n: nat): string {
    prefix + "-" + NatToString(n)
  }

  /** The entries hold the classes `<prefix>-1`, `<prefix>-2`, ... in order, as a map filled only by this transform does. */
  predicate Numbered(es: Entries, prefix: string) {
    forall i :: 0 <= i < |es| ==> es[i].1 == ClassName(prefix, i + 1)
  }

  /** The map after inserting `key` with the next numbered class, unless it already has it. */
  function AddKey(es: Entries, key: string, prefix: string): (r: Entries)
  {
    if key in Keys(es) then es else es + [(key, ClassName(prefix, |es| + 1))]
  }

  /**
   * `createClassForStyle`: no class for a value that normalises to the
   * empty string; otherwise the class the map holds for the normalised
   * value, inserting `<prefix>-<size + 1>` when the value is new.
   */
  function CreateClass(es: Entries, styleValue: string, prefix: string): (r: (Option<string>, Entries))
    ensures var key := NormalizeStyleValue(styleValue);
      && (r.0.None? <==> key == [])
      && (key == [] ==> r.1 == es)
      && (key != [] ==> r.1 == AddKey(es, key, prefix) && r.0 == Lookup(r.1, key))
      && (key in Keys(es) ==> r.1 == es)
      && |es| <= |r.1| <= |es| + 1 && r.1[..|es|] == es
  {
    var key := NormalizeStyleValue(styleValue);
    if key == [] then (None, es)
    else
      var es' := AddKey(es, key, prefix);
      assert key in Keys(es') by {
        if key !in Keys(es) { assert Keys(es')[|es|] == key; }
      }
      (Lookup(es', key), es')
  }

  lemma KeysAppend(es: Entries, e: (string, string))
    ensures Keys(es + [e]) == Keys(es) + [e.0]
  {
  }

  /** Inserting a key keeps each key once and keeps the numbering. */
  lemma AddKeyInvariant(es: Entries, key: string, prefix: string)
    ensures KeysDistinct(es) ==> KeysDistinct(AddKey(es, key, prefix))
    ensures Numbered(es, prefix) ==> Numbered(AddKey(es, key, prefix), prefix)
    ensures Keys(AddKey(es, key, prefix)) == if key in Keys(es) then Keys(es) else Keys(es) + [key]
  {
    if key !in Keys(es) {
      KeysAppend(es, (key, ClassName(prefix, |es| + 1)));
    }
  }

  /** Entries already in the map keep their class when the map grows. */
  lemma LookupStable(es: Entries, more: Entries, key: string)
    requires KeysDistinct(es + more) && key in Keys(es)
    ensures Lookup(es + more, key) == Lookup(es, key)
  {
    var all := es + more;
    var i := KeyIndex(es, key).value;
    assert Keys(all)[i] == key;
    var j := KeyIndex(all, key).value;
    assert Keys(all)[j] == key;
    assert i == j;
  }

  lemma ClassNameInjective(prefix: string, m: nat, n: nat)
    requires ClassName(prefix, m) == ClassName(prefix, n)
    ensures m == n
  {
    var p := prefix + "-";
    assert ClassName(prefix, m)[|p|..] == NatToString(m);
    assert ClassName(prefix, n)[|p|..] == NatToString(n);
    NatToStringInjective(m, n);
  }

  /** In a numbered map no two style values share a class. */
  lemma NumberedClassesDistinct(es: Entries, prefix: string)
    requires Numbered(es, prefix)
    ensures forall i, j :: 0 <= i < j < |es| ==> es[i].1 != es[j].1
  {
    forall i, j | 0 <= i < j < |es| ensures es[i].1 != es[j].1 {
      if es[i].1 == es[j].1 {
        ClassNameInjective(prefix, i + 1, j + 1);
      }
    }
  }

  /** The Map object the transform fills; callers may pass one in to share it across pages. */
  class StyleClassMap {
    var entries: Entries

    predicate Valid()
      reads this
    {
      KeysDistinct(entries)
    }

    /** `new Map()`. */
    constructor ()
      ensures entries == [] && Valid()
    {
      entries := [];
    }

    /** `map.size`. */
    function Size(): (n: nat)
      reads this
      ensures n == |entries|
    {
      |entries|
    }

    /** `map.has(key)`. */
    function Has(key: string): (b: bool)
      reads this
      ensures b <==> exists i :: 0 <= i < |entries| && entries[i].0 == key
    {
      assert forall i :: 0 <= i < |entries| ==> Keys(entries)[i] == entries[i].0;
      key in Keys(entries)
    }

    /** `map.get(key)`. */
    function Get(key: string): (r: Option<string>)
      reads this
      ensures r.Some? <==> Has(key)
      ensures r.Some? ==> (key, r.value) in entries
    {
      Lookup(entries, key)
    }

    /** `map.set(key, value)` for a new key: appended last, in insertion order. */
    method Set(key: string, value: string)
      requires Valid() && !Has(key)
      modifies this
      ensures entries == old(entries) + [(key, value)]
      ensures Valid() && Get(key) == Some(value)
    {
      KeysAppend(entries, (key, value));
      entries := entries + [(key, value)];
      assert Keys(entries)[|entries| - 1] == key;
      assert KeyIndex(entries, key) == Some(|entries| - 1);
    }
  }

  /** `createClassForStyle` on the shared map object. */
  method CreateClassForStyle(styleValue: string, m: StyleClassMap, prefix: string) returns (cls: Option<string>)
    requires m.Valid()
    modifies m
    ensures m.Valid()
    ensures (cls, m.entries) == CreateClass(old(m.entries), styleValue, prefix)
  {
    var normalized := NormalizeStyleValue(styleValue);
    if normalized == [] {
      return None;
    }
    if !m.Has(normalized) {
      var className := ClassName(prefix, m.Size() + 1);
      m.Set(normalized, className);
    }
    AddKeyInvariant(old(m.entries), normalized, prefix);
    cls := m.Get(normalized);
  }

  // ---------------------------------------------------------------------------
  // The tag pattern `<([A-Za-z][A-Za-z0-9-]*)([^>]*?)>` with the `g` flag
  // ---------------------------------------------------------------------------

  predicate AsciiLetter(c: char) {
    'A' <= c <= 'Z' || 'a' <= c <= 'z'
  }

  predicate TagNameChar(c: char) {
    AsciiLetter(c) || '0' <= c <= '9' || c == '-'
  }

  /** The end of the run of tag-name characters from `k`: the greedy `[A-Za-z0-9-]*`. */
  function NameEnd(s: string, k: nat): (r: nat)
    requires k <= |s|
    ensures k <= r <= |s| && forall j :: k <= j < r ==> TagNameChar(s[j])
    ensures r < |s| ==> !TagNameChar(s[r])
    decreases |s| - k
  {
    if k < |s| && TagNameChar(s[k]) then NameEnd(s, k + 1) else k
  }

  /** A match of the tag pattern: `<` at `start`, the name up to `nameEnd`, the attributes up to the `>` at `close`. */
  datatype Tag = Tag(start: nat, nameEnd: nat, close: nat)

  /**
   * The match starting at `i`, if any. The name takes every name character
   * (no shorter name lets the match succeed where the longest fails, as
   * name characters are not `>`), and the lazy attributes stop at the
   * first `>`.
   */
  function TagAt(s: string, i: nat): (r: Option<Tag>)
    ensures r.Some? ==> var t := r.value;
      t.start == i && i + 2 <= t.nameEnd <= t.close < |s| && s[i] == '<' && AsciiLetter(s[i + 1])
      && t.nameEnd == NameEnd(s, i + 2) && s[t.close] == '>'
      && forall j :: t.nameEnd <= j < t.close ==> s[j] != '>'
    ensures r.None? ==> !(i + 1 < |s| && s[i] == '<' && AsciiLetter(s[i + 1]))
                        || forall j :: NameEnd(s, i + 2) <= j < |s| ==> s[j] != '>'
  {
    if i + 1 < |s| && s[i] == '<' && AsciiLetter(s[i + 1]) then
      var ne := NameEnd(s, i + 2);
      match CharFrom(s, '>', ne)
      case Some(c) => Some(Tag(i, ne, c))
      case None => None
    else None
  }

  /** The leftmost match at or after `from`, where the global search resumes. */
  function NextTag(s: string, from: nat): (r: Option<Tag>)
    ensures r.Some? ==> from <= r.value.start && TagAt(s, r.value.start) == r
    ensures r.Some? ==> forall i :: from <= i < r.value.start ==> TagAt(s, i).None?
    ensures r.None? ==> forall i :: from <= i ==> TagAt(s, i).None?
    decreases |s| - from
  {
    if from >= |s| then None
    else match TagAt(s, from)
      case Some(t) => Some(t)
      case None => NextTag(s, from + 1)
  }

  function TagName(s: string, t: Tag): string
    requires t.start < t.nameEnd <= |s|
  {
    s[t.start + 1..t.nameEnd]
  }

  function TagAttrs(s: string, t: Tag): string
    requires t.nameEnd <= t.close <= |s|
  {
    s[t.nameEnd..t.close]
  }

  /** The matched text is `<`, the name, the attributes and `>`. */
  lemma TagText(s: string, t: Tag)
    requires TagAt(s, t.start) == Some(t)
    ensures s[t.start..t.close + 1] == "<" + TagName(s, t) + TagAttrs(s, t) + ">"
  {
    var w := s[t.start..t.close + 1];
    var v := "<" + TagName(s, t) + TagAttrs(s, t) + ">";
    assert |w| == |v|;
    forall k | 0 <= k < |w| ensures w[k] == v[k] {
      if k == 0 {
      } else if k < t.nameEnd - t.start {
        assert v[k] == TagName(s, t)[k - 1];
      } else if k < t.close - t.start {
        assert v[k] == TagAttrs(s, t)[k - (t.nameEnd - t.start)];
      }
    }
  }

  /** The attribute strings of all tags from `from` on, in order. */
  function TagAttrsList(s: string, from: nat): seq<string>
    decreases |s| - from, 1
  {
    match NextTag(s, from)
    case None => []
    case Some(t) => TagAttrsFrom(s, from, t)
  }

  /** The attributes of `t`, the next tag from `from`, and of the tags after it. */
  function TagAttrsFrom(s: string, from: nat, t: Tag): seq<string>
    requires NextTag(s, from) == Some(t)
    decreases |s| - from, 0
  {
    [TagAttrs(s, t)] + TagAttrsList(s, t.close + 1)
  }

  // ---------------------------------------------------------------------------
  // Rewriting the tags
  // ---------------------------------------------------------------------------

  /** The map key a tag contributes: its first style value, normalised, unless that is empty. */
  function StyleKey(attrs: string): (r: Option<string>)
    ensures r.Some? ==> r.value != []
  {
    match AttrMatch(attrs, "style", 0)
    case None => None
    case Some(a) =>
      AttrMatchBounds(attrs, "style", 0);
      var key := NormalizeStyleValue(ValueOf(attrs, a));
      if key == [] then None else Some(key)
  }

  /** The keys the tags contribute, in order, repeats included. */
  function StyleKeys(attrsList: seq<string>): seq<string>
    decreases |attrsList|
  {
    if attrsList == [] then []
    else match StyleKey(attrsList[0])
      case Some(k) => [k] + StyleKeys(attrsList[1..])
      case None => StyleKeys(attrsList[1..])
  }

  /** The map after meeting the keys `ks` in order. */
  function AddAll(es: Entries, ks: seq<string>, prefix: string): (r: Entries)
    ensures |es| <= |r| && r[..|es|] == es
    decreases |ks|
  {
    if ks == [] then es else AddAll(AddKey(es, ks[0], prefix), ks[1..], prefix)
  }

  /** No class name of the map is empty: a falsy class leaves a tag untouched. */
  predicate NonEmptyClasses(es: Entries) {
    forall i :: 0 <= i < |es| ==> es[i].1 != []
  }

  /** A tag whose first style attribute, at `a`, is deleted and whose class list gains `cls`. */
  function Restyled(name: string, attrs: string, a: Attr, cls: string): string
    requires a.start <= a.close < |attrs|
  {
    "<" + name + EnsureClassAttribute(ReplaceMatch(attrs, a, ""), cls) + ">"
  }

  /**
   * The replacement callback for one tag: the rewritten text, the map
   * after it, and whether it counts as transformed. Without a style
   * attribute, or without a class for it, the tag is returned whole; else
   * its first style attribute is deleted and the class added.
   */
  function RewriteTag(name: string, attrs: string, es: Entries, prefix: string): (r: (string, Entries, bool))
  {
    var full := "<" + name + attrs + ">";
    match AttrMatch(attrs, "style", 0)
    case None => (full, es, false)
    case Some(a) =>
      AttrMatchBounds(attrs, "style", 0);
      var (cls, es') := CreateClass(es, ValueOf(attrs, a), prefix);
      if cls.None? || cls.value == [] then (full, es', false)
      else (Restyled(name, attrs, a, cls.value), es', true)
  }

  /** The map grows by the tag's style key, if any; a tag not transformed is returned as matched. */
  lemma RewriteTagEffect(name: string, attrs: string, es: Entries, prefix: string)
    ensures var r := RewriteTag(name, attrs, es, prefix);
      && (r.1 == match StyleKey(attrs) case None => es case Some(k) => AddKey(es, k, prefix))
      && (!r.2 ==> r.0 == "<" + name + attrs + ">")
  {
  }

  /** With non-empty classes, a tag is transformed exactly when it has a style key. */
  lemma RewriteTagCounted(name: string, attrs: string, es: Entries, prefix: string)
    requires NonEmptyClasses(es)
    ensures var r := RewriteTag(name, attrs, es, prefix);
      NonEmptyClasses(r.1) && (r.2 <==> StyleKey(attrs).Some?)
  {
    match AttrMatch(attrs, "style", 0)
    case None =>
    case Some(a) =>
      AttrMatchBounds(attrs, "style", 0);
      NonEmptyLookup(es, ValueOf(attrs, a), prefix);
  }

  /** A map with non-empty classes gives a non-empty class for every style that has one. */
  lemma NonEmptyLookup(es: Entries, styleValue: string, prefix: string)
    requires NonEmptyClasses(es)
    ensures var r := CreateClass(es, styleValue, prefix);
      NonEmptyClasses(r.1) && (r.0.Some? ==> r.0.value != [])
  {
    var r := CreateClass(es, styleValue, prefix);
    var key := NormalizeStyleValue(styleValue);
    if key != [] {
      assert ClassName(prefix, |es| + 1)[|prefix|] == '-';
      var i :| 0 <= i < |r.1| && r.1[i] == (key, r.0.value);
    }
  }

  /** The result of rewriting a whole document. */
  datatype Rewritten = Rewritten(html: string, entries: Entries, count: nat)

  /** `html.replace(tagRe, callback)` from `from` on, threading the map and the count through the callbacks. */
  function Rewrite(s: string, from: nat, es: Entries, prefix: string): Rewritten
    requires from <= |s|
    decreases |s| - from, 1
  {
    match NextTag(s, from)
    case None => Rewritten(s[from..], es, 0)
    case Some(t) => RewriteAt(s, from, t, es, prefix)
  }

  /** The rewrite from `from` when the next tag is `t`: its piece, then the rewrite after it. */
  function RewriteAt(s: string, from: nat, t: Tag, es: Entries, prefix: string): Rewritten
    requires from <= |s| && NextTag(s, from) == Some(t)
    decreases |s| - from, 0
  {
    var step := RewriteTag(TagName(s, t), TagAttrs(s, t), es, prefix);
    var rest := Rewrite(s, t.close + 1, step.1, prefix);
    Rewritten(s[from..t.start] + step.0 + rest.html, rest.entries, rest.count + if step.2 then 1 else 0)
  }

  /** One step of the rewrite: the first tag's piece followed by the rewrite of the rest. */
  lemma RewriteStep(s: string, from: nat, es: Entries, prefix: string, t: Tag)
    requires from <= |s| && NextTag(s, from) == Some(t)
    ensures from <= t.start < t.close < |s|
    ensures var step := RewriteTag(TagName(s, t), TagAttrs(s, t), es, prefix);
      var rest := Rewrite(s, t.close + 1, step.1, prefix);
      Rewrite(s, from, es, prefix)
        == Rewritten(s[from..t.start] + step.0 + rest.html, rest.entries, rest.count + if step.2 then 1 else 0)
    ensures TagAttrsList(s, from) == [TagAttrs(s, t)] + TagAttrsList(s, t.close + 1)
  {
    NextTagBounds(s, from, t);
    RewriteUnfold(s, from, es, prefix, t);
    RewriteAtUnfold(s, from, t, es, prefix);
    TagAttrsListStep(s, from, t);
  }

  lemma RewriteAtUnfold(s: string, from: nat, t: Tag, es: Entries, prefix: string)
    requires from <= |s| && NextTag(s, from) == Some(t)
    ensures var step := RewriteTag(TagName(s, t), TagAttrs(s, t), es, prefix);
      var rest := Rewrite(s, t.close + 1, step.1, prefix);
      RewriteAt(s, from, t, es, prefix)
        == Rewritten(s[from..t.start] + step.0 + rest.html, rest.entries, rest.count + if step.2 then 1 else 0)
  {
  }

  lemma NextTagBounds(s: string, from: nat, t: Tag)
    requires NextTag(s, from) == Some(t)
    ensures from <= t.start < t.nameEnd <= t.close < |s|
  {
  }

  lemma {:induction false} TagAttrsListStep(s: string, from: nat, t: Tag)
    requires NextTag(s, from) == Some(t)
    ensures TagAttrsList(s, from) == [TagAttrs(s, t)] + TagAttrsList(s, t.close + 1)
  {
  }

  lemma RewriteUnfold(s: string, from: nat, es: Entries, prefix: string, t: Tag)
    requires from <= |s| && NextTag(s, from) == Some(t)
    ensures Rewrite(s, from, es, prefix) == RewriteAt(s, from, t, es, prefix)
  {
  }

  /**
   * One step of the rewrite with the callback's result named: the piece,
   * the map after it and whether the tag counted, with what the callback
   * promises about them.
   */
  lemma RewriteNext(s: string, from: nat, es: Entries, prefix: string, t: Tag) returns (piece: string, es': Entries, counted: bool)
    requires from <= |s| && NextTag(s, from) == Some(t)
    ensures from <= t.start < t.close < |s|
    ensures var rest := Rewrite(s, t.close + 1, es', prefix);
      Rewrite(s, from, es, prefix)
        == Rewritten(s[from..t.start] + piece + rest.html, rest.entries, rest.count + if counted then 1 else 0)
    ensures TagAttrsList(s, from) == [TagAttrs(s, t)] + TagAttrsList(s, t.close + 1)
    ensures es' == match StyleKey(TagAttrs(s, t)) case None => es case Some(k) => AddKey(es, k, prefix)
    ensures !counted ==> piece == s[t.start..t.close + 1]
    ensures NonEmptyClasses(es) ==> NonEmptyClasses(es') && (counted <==> StyleKey(TagAttrs(s, t)).Some?)
  {
    RewriteStep(s, from, es, prefix, t);
    var name, attrs := TagName(s, t), TagAttrs(s, t);
    var step := RewriteTag(name, attrs, es, prefix);
    RewriteTagEffect(name, attrs, es, prefix);
    if NonEmptyClasses(es) {
      RewriteTagCounted(name, attrs, es, prefix);
    }
    TagText(s, t);
    piece, es', counted := step.0, step.1, step.2;
  }

  /** With non-empty classes, the count is the number of tags whose first style attribute normalises to a non-empty value. */
  lemma {:induction false} RewriteCount(s: string, from: nat, es: Entries, prefix: string)
    requires from <= |s| && NonEmptyClasses(es)
    ensures Rewrite(s, from, es, prefix).count == |StyleKeys(TagAttrsList(s, from))|
    decreases |s| - from
  {
    var next := NextTag(s, from);
    if next.Some? {
      var t := next.value;
      var es', counted := CountNext(s, from, es, prefix, t);
      RewriteCount(s, t.close + 1, es', prefix);
      CountStep(Rewrite(s, from, es, prefix).count, Rewrite(s, t.close + 1, es', prefix).count, counted,
                TagAttrs(s, t), TagAttrsList(s, t.close + 1), TagAttrsList(s, from));
    } else {
      RewriteDone(s, from, es, prefix);
      TagAttrsListDone(s, from);
    }
  }

  /** The count after the next tag, and what it takes from that tag. */
  lemma CountNext(s: string, from: nat, es: Entries, prefix: string, t: Tag) returns (es': Entries, counted: bool)
    requires from <= |s| && NextTag(s, from) == Some(t) && NonEmptyClasses(es)
    ensures from <= t.start < t.close < |s|
    ensures Rewrite(s, from, es, prefix).count == Rewrite(s, t.close + 1, es', prefix).count + (if counted then 1 else 0)
    ensures TagAttrsList(s, from) == [TagAttrs(s, t)] + TagAttrsList(s, t.close + 1)
    ensures NonEmptyClasses(es') && (counted <==> StyleKey(TagAttrs(s, t)).Some?)
  {
    var piece;
    piece, es', counted := RewriteNext(s, from, es, prefix, t);
  }

  /** A tag adds one to the count exactly when it contributes a style key. */
  lemma CountStep(total: nat, rest: nat, counted: bool, attrs: string, later: seq<string>, all: seq<string>)
    requires total == rest + (if counted then 1 else 0) && rest == |StyleKeys(later)|
    requires all == [attrs] + later && (counted <==> StyleKey(attrs).Some?)
    ensures total == |StyleKeys(all)|
  {
    StyleKeysCons(attrs, later);
  }

  lemma {:induction false} TagAttrsListDone(s: string, from: nat)
    requires NextTag(s, from).None?
    ensures TagAttrsList(s, from) == []
  {
  }

  /** The map after the rewrite is the map after meeting the tags' style keys in document order. */
  lemma {:induction false} RewriteEntries(s: string, from: nat, es: Entries, prefix: string)
    requires from <= |s|
    ensures Rewrite(s, from, es, prefix).entries == AddAll(es, StyleKeys(TagAttrsList(s, from)), prefix)
    decreases |s| - from
  {
    var next := NextTag(s, from);
    if next.Some? {
      var t := next.value;
      var piece, es', counted := RewriteNext(s, from, es, prefix, t);
      var later := TagAttrsList(s, t.close + 1);
      assert Rewrite(s, from, es, prefix).entries == Rewrite(s, t.close + 1, es', prefix).entries;
      RewriteEntries(s, t.close + 1, es', prefix);
      AddAllCons(es, TagAttrs(s, t), later, prefix);
    } else {
      RewriteDone(s, from, es, prefix);
      TagAttrsListDone(s, from);
    }
  }

  lemma AddAllCons(es: Entries, attrs: string, later: seq<string>, prefix: string)
    ensures AddAll(es, StyleKeys([attrs] + later), prefix)
      == AddAll(match StyleKey(attrs) case None => es case Some(k) => AddKey(es, k, prefix), StyleKeys(later), prefix)
  {
    var l := [attrs] + later;
    assert l[0] == attrs && l[1..] == later;
    match StyleKey(attrs)
    case None =>
    case Some(k) =>
      var ks := [k] + StyleKeys(later);
      assert ks[0] == k && ks[1..] == StyleKeys(later);
  }

  /** Nothing transformed means nothing changed: every tag was put back as matched. */
  lemma {:induction false} RewriteUnchanged(s: string, from: nat, es: Entries, prefix: string)
    requires from <= |s| && Rewrite(s, from, es, prefix).count == 0
    ensures Rewrite(s, from, es, prefix).html == s[from..]
    decreases |s| - from
  {
    var next := NextTag(s, from);
    if next.Some? {
      var t := next.value;
      var piece, es', counted := RewriteNext(s, from, es, prefix, t);
      var rest := Rewrite(s, t.close + 1, es', prefix);
      assert !counted && rest.count == 0;
      RewriteUnchanged(s, t.close + 1, es', prefix);
      assert piece == s[t.start..t.close + 1] && rest.html == s[t.close + 1..];
      SliceSplit(s, from, t.start, t.close + 1);
    }
  }

  lemma SliceSplit(s: string, i: nat, j: nat, k: nat)
    requires i <= j <= k <= |s|
    ensures s[i..] == s[i..j] + s[j..k] + s[k..]
  {
  }

  lemma StyleKeysCons(attrs: string, later: seq<string>)
    ensures |StyleKeys([attrs] + later)| == |StyleKeys(later)| + if StyleKey(attrs).Some? then 1 else 0
  {
    var l := [attrs] + later;
    assert l[0] == attrs && l[1..] == later;
  }

  /** Meeting keys in order leaves each key once: the old keys, then the new ones in order of first appearance. */
  lemma {:induction false} AddAllKeys(es: Entries, ks: seq<string>, prefix: string)
    requires KeysDistinct(es)
    ensures KeysDistinct(AddAll(es, ks, prefix))
    ensures Keys(AddAll(es, ks, prefix)) == Keys(es) + DedupFrom(ks, Keys(es))
    decreases |ks|
  {
    if ks == [] {
      assert Keys(es) + [] == Keys(es);
    } else {
      var k := ks[0];
      var es' := AddKey(es, k, prefix);
      AddKeyInvariant(es, k, prefix);
      AddAllKeys(es', ks[1..], prefix);
      DedupFromCons(ks, Keys(es));
    }
  }

  lemma DedupFromCons(ks: seq<string>, seen: seq<string>)
    requires Distinct(seen) && ks != []
    ensures ks[0] in seen ==> seen + DedupFrom(ks, seen) == seen + DedupFrom(ks[1..], seen)
    ensures ks[0] !in seen ==> (Distinct(seen + [ks[0]])
      && seen + DedupFrom(ks, seen) == (seen + [ks[0]]) + DedupFrom(ks[1..], seen + [ks[0]]))
  {
    if ks[0] !in seen {
      DistinctSnoc(seen, ks[0]);
      var rest := DedupFrom(ks[1..], seen + [ks[0]]);
      assert DedupFrom(ks, seen) == [ks[0]] + rest;
      SeqAssoc(seen, [ks[0]], rest);
    }
  }

  lemma DistinctSnoc(seen: seq<string>, k: string)
    requires Distinct(seen) && k !in seen
    ensures Distinct(seen + [k])
  {
    forall i, j | 0 <= i < j < |seen| + 1 ensures (seen + [k])[i] != (seen + [k])[j] {
      if j == |seen| { assert (seen + [k])[i] == seen[i]; }
    }
  }

  lemma SeqAssoc3(a: string, b: string, c: string)
    ensures a + (b + c) == a + b + c
  {
  }

  lemma SeqAssoc(a: seq<string>, b: seq<string>, c: seq<string>)
    ensures a + b + c == a + (b + c)
  {
  }

  /** Meeting keys keeps the numbering. */
  lemma {:induction false} AddAllNumbered(es: Entries, ks: seq<string>, prefix: string)
    requires Numbered(es, prefix)
    ensures Numbered(AddAll(es, ks, prefix), prefix)
    decreases |ks|
  {
    if ks != [] {
      AddKeyInvariant(es, ks[0], prefix);
      AddAllNumbered(AddKey(es, ks[0], prefix), ks[1..], prefix);
    }
  }

  /**
   * A style value already in the map keeps its class through any rewrite:
   * a map shared across pages never renumbers.
   */
  lemma RewriteKeepsClasses(s: string, from: nat, es: Entries, prefix: string, key: string)
    requires from <= |s| && KeysDistinct(es) && key in Keys(es)
    ensures Lookup(Rewrite(s, from, es, prefix).entries, key) == Lookup(es, key)
  {
    RewriteEntries(s, from, es, prefix);
    AddAllKeepsLookup(es, StyleKeys(TagAttrsList(s, from)), prefix, key);
  }

  /** Meeting keys never changes the class of a key already present. */
  lemma AddAllKeepsLookup(es: Entries, ks: seq<string>, prefix: string, key: string)
    requires KeysDistinct(es) && key in Keys(es)
    ensures Lookup(AddAll(es, ks, prefix), key) == Lookup(es, key)
  {
    AddAllKeys(es, ks, prefix);
    LookupPrefix(es, AddAll(es, ks, prefix), key);
  }

  lemma LookupPrefix(es: Entries, all: Entries, key: string)
    requires |es| <= |all| && all[..|es|] == es && KeysDistinct(all) && key in Keys(es)
    ensures Lookup(all, key) == Lookup(es, key)
  {
    assert all == es + all[|es|..];
    LookupStable(es, all[|es|..], key);
  }

  /**
   * Transforming a page with a fresh map: the map holds the distinct
   * non-empty normalised styles in order of first appearance, numbered
   * `<prefix>-1`, `<prefix>-2`, ...; the count is the number of tags with
   * such a style; and a page with none is returned unchanged.
   */
  lemma RewriteFromEmpty(s: string, prefix: string)
    ensures var rw := Rewrite(s, 0, [], prefix);
      var ks := StyleKeys(TagAttrsList(s, 0));
      && Keys(rw.entries) == Dedup(ks)
      && Numbered(rw.entries, prefix)
      && (forall i, j :: 0 <= i < j < |rw.entries| ==> rw.entries[i].1 != rw.entries[j].1)
      && rw.count == |ks|
      && (rw.count == 0 ==> rw.html == s)
  {
    var rw := Rewrite(s, 0, [], prefix);
    var ks := StyleKeys(TagAttrsList(s, 0));
    RewriteEntries(s, 0, [], prefix);
    AddAllKeys([], ks, prefix);
    assert Keys([]) == [];
    assert [] + DedupFrom(ks, []) == DedupFrom(ks, []);
    AddAllNumbered([], ks, prefix);
    NumberedClassesDistinct(rw.entries, prefix);
    RewriteCount(s, 0, [], prefix);
    if rw.count == 0 {
      RewriteUnchanged(s, 0, [], prefix);
    }
  }

  /** The replacement callback on the shared map object. */
  method ReplaceTag(name: string, attrs: string, m: StyleClassMap, prefix: string) returns (piece: string, counted: bool)
    requires m.Valid()
    modifies m
    ensures m.Valid()
    ensures (piece, m.entries, counted) == RewriteTag(name, attrs, old(m.entries), prefix)
  {
    var styleMatch := AttrMatch(attrs, "style", 0);
    if styleMatch.None? {
      return "<" + name + attrs + ">", false;
    }
    var a := styleMatch.value;
    AttrMatchBounds(attrs, "style", 0);
    var cls := CreateClassForStyle(ValueOf(attrs, a), m, prefix);
    if cls.None? || cls.value == [] {
      return "<" + name + attrs + ">", false;
    }
    var nextAttrs := ReplaceMatch(attrs, a, "");
    nextAttrs := EnsureClassAttribute(nextAttrs, cls.value);
    return "<" + name + nextAttrs + ">", true;
  }

  // ---------------------------------------------------------------------------
  // The stylesheet link
  // ---------------------------------------------------------------------------

  const StyleSheetMarker := "data-inline-style-sheet=\"true\""

  const LinkHead := "<link rel=\"stylesheet\" href=\""
  const LinkTail := "\" " + StyleSheetMarker + ">"

  /** `<link rel="stylesheet" href="<href>" data-inline-style-sheet="true">`. */
  function LinkTag(href: string): string {
    LinkHead + href + LinkTail
  }

  /** The text inserted before a closing tag. */
  function LinkLine(href: string): string {
    "  " + LinkTag(href) + "\n"
  }

  function InsertAt(html: string, i: nat, text: string): string
    requires i <= |html|
  {
    html[..i] + text + html[i..]
  }

  /** The text inserted at `i` sits between the two untouched halves. */
  lemma InsertAtShape(html: string, i: nat, text: string)
    requires i <= |html|
    ensures var r := InsertAt(html, i, text);
      |r| == |html| + |text| && r[..i] == html[..i] && MatchAt(r, text, i) && r[i + |text|..] == html[i..]
  {
    var r := InsertAt(html, i, text);
    assert r[i..i + |text|] == text;
  }

  /**
   * `injectStylesheetLink`: nothing without an href or when a marked link
   * is already there; else the link goes before the first `</head>`, else
   * before the first `</body>`, else in front of the document. The link
   * text is inserted verbatim.
   */
  function InjectStylesheetLink(html: string, href: Option<string>): (r: string)
    ensures |html| <= |r|
    ensures href.None? || href.value == [] || Contains(html, StyleSheetMarker) ==> r == html
    ensures href.Some? && href.value != [] && !Contains(html, StyleSheetMarker) ==>
      match Find(html, "</head>")
      case Some(i) => r[..i] == html[..i] && MatchAt(r, LinkLine(href.value), i)
                      && r[i + |LinkLine(href.value)|..] == html[i..]
      case None => match Find(html, "</body>")
        case Some(j) => r[..j] == html[..j] && MatchAt(r, LinkLine(href.value), j)
                        && r[j + |LinkLine(href.value)|..] == html[j..]
        case None => r == LinkTag(href.value) + "\n" + html
  {
    if href.None? || href.value == [] || Contains(html, StyleSheetMarker) then html
    else
      var line := LinkLine(href.value);
      match Find(html, "</head>")
      case Some(i) => InsertAtShape(html, i, line); InsertAt(html, i, line)
      case None => match Find(html, "</body>")
        case Some(j) => InsertAtShape(html, j, line); InsertAt(html, j, line)
        case None => LinkTag(href.value) + "\n" + html
  }

  /** The fixed parts of the link are free of `$`. */
  lemma LinkPartsNoDollar()
    ensures '$' !in "  " && '$' !in LinkHead && '$' !in LinkTail && '$' !in "\n"
  {
  }

  lemma LinkTailHasMarker()
    ensures Contains(LinkTail, StyleSheetMarker)
  {
    ContainsAt(StyleSheetMarker, StyleSheetMarker, 0);
    ContainsConcat(StyleSheetMarker, "\" ", StyleSheetMarker);
    ContainsConcat("\" " + StyleSheetMarker, ">", StyleSheetMarker);
  }

  lemma LinkTagHasMarker(href: string)
    ensures Contains(LinkTag(href), StyleSheetMarker)
  {
    LinkTailHasMarker();
    ContainsConcat(LinkTail, LinkHead + href, StyleSheetMarker);
  }

  lemma LinkHasMarker(href: string)
    ensures Contains(LinkLine(href), StyleSheetMarker)
  {
    LinkTagHasMarker(href);
    ContainsConcat(LinkTag(href), "  ", StyleSheetMarker);
    ContainsConcat("  " + LinkTag(href), "\n", StyleSheetMarker);
  }

  /** An href without `$` gives a link line without `$`. */
  lemma LinkLineNoDollar(href: string)
    requires '$' !in href
    ensures '$' !in LinkLine(href)
  {
    LinkPartsNoDollar();
    NoCharInWrap('$', LinkHead, href, LinkTail);
    NoCharInWrap('$', "  ", LinkTag(href), "\n");
  }

  lemma InsertKeepsMarker(html: string, i: nat, line: string)
    requires i <= |html| && Contains(line, StyleSheetMarker)
    ensures Contains(InsertAt(html, i, line), StyleSheetMarker)
  {
    ContainsConcat(line, html[..i], StyleSheetMarker);
    ContainsConcat(html[..i] + line, html[i..], StyleSheetMarker);
  }

  /** After an injection with an href the page holds the marked link. */
  lemma InjectAddsMarker(html: string, href: Option<string>)
    requires href.Some? && href.value != []
    ensures Contains(InjectStylesheetLink(html, href), StyleSheetMarker)
  {
    if !Contains(html, StyleSheetMarker) {
      var line := LinkLine(href.value);
      LinkHasMarker(href.value);
      match Find(html, "</head>")
      case Some(i) => InsertKeepsMarker(html, i, line);
      case None => match Find(html, "</body>")
        case Some(j) => InsertKeepsMarker(html, j, line);
        case None =>
          LinkTagHasMarker(href.value);
          ContainsConcat(LinkTag(href.value), "\n", StyleSheetMarker);
          ContainsConcat(LinkTag(href.value) + "\n", html, StyleSheetMarker);
    }
  }

  /** The link is injected at most once. */
  lemma InjectIdempotent(html: string, href: Option<string>)
    ensures InjectStylesheetLink(InjectStylesheetLink(html, href), href) == InjectStylesheetLink(html, href)
  {
    if href.Some? && href.value != [] {
      InjectAddsMarker(html, href);
    }
  }

  /** `html.replace(tag, template)` for a string pattern: the first occurrence, at `i`, replaced by the expanded template. */
  function ReplaceFirst(html: string, i: nat, tag: string, template: string): string
    requires i + |tag| <= |html|
  {
    html[..i] + Expand(template, tag, html[..i], html[i + |tag|..], []) + html[i + |tag|..]
  }

  /**
   * `injectStylesheetLink` as written: the link line is part of a
   * replacement template, so `$` patterns in the href are interpreted.
   */
  function InjectStylesheetLinkAsWritten(html: string, href: Option<string>): (r: string)
  {
    if href.None? || href.value == [] || Contains(html, StyleSheetMarker) then html
    else
      var line := LinkLine(href.value);
      match Find(html, "</head>")
      case Some(i) => ReplaceFirst(html, i, "</head>", line + "</head>")
      case None => match Find(html, "</body>")
        case Some(j) => ReplaceFirst(html, j, "</body>", line + "</body>")
        case None => LinkTag(href.value) + "\n" + html
  }

  lemma ReplaceFirstPlain(html: string, i: nat, tag: string, line: string)
    requires MatchAt(html, tag, i) && '$' !in line && '$' !in tag
    ensures ReplaceFirst(html, i, tag, line + tag) == InsertAt(html, i, line)
  {
    assert '$' !in line + tag;
    ExpandNoDollar(line + tag, tag, html[..i], html[i + |tag|..], []);
    assert html[i..] == tag + html[i + |tag|..];
  }

  /** Both agree whenever the href holds no `$`. */
  lemma InjectStylesheetLinkAgrees(html: string, href: Option<string>)
    requires href.Some? ==> '$' !in href.value
    ensures InjectStylesheetLinkAsWritten(html, href) == InjectStylesheetLink(html, href)
  {
    if !(href.None? || href.value == [] || Contains(html, StyleSheetMarker)) {
      var line := LinkLine(href.value);
      LinkLineNoDollar(href.value);
      match Find(html, "</head>")
      case Some(i) => ReplaceFirstPlain(html, i, "</head>", line);
      case None => match Find(html, "</body>")
        case Some(j) => ReplaceFirstPlain(html, j, "</body>", line);
        case None =>
    }
  }

  /** An href `$&` is kept by the corrected injection ... */
  lemma InjectHrefDollarKept(html: string, href: string)
    requires html == "</head>" && href == "$&"
    ensures InjectStylesheetLink(html, Some(href)) == LinkLine(href) + html
  {
    assert MatchAt(html, "</head>", 0);
    assert !Contains(html, StyleSheetMarker);
    assert html[..0] == "" && html[0..] == html;
  }

  /** ... and replaced by the matched `</head>` as written. */
  lemma InjectHrefDollarAmpersand(html: string, href: string)
    requires html == "</head>" && href == "$&"
    ensures InjectStylesheetLinkAsWritten(html, Some(href)) == LinkLine(html) + html
  {
    assert MatchAt(html, "</head>", 0);
    assert !Contains(html, StyleSheetMarker);
    var t := LinkLine(href) + html;
    LinkLineAmpersand(html, html, html[..0], html[7..]);
    var e := Expand(t, html, html[..0], html[7..], []);
    assert Find(html, "</head>") == Some(0);
    assert InjectStylesheetLinkAsWritten(html, Some(href)) == ReplaceFirst(html, 0, "</head>", t);
    assert html[..0] == "" && html[7..] == "";
    assert ReplaceFirst(html, 0, "</head>", t) == "" + e + "";
    assert "" + e + "" == e;
  }

  /** In the link line of href `$&`, the href becomes the matched text. */
  lemma LinkLineAmpersand(rest: string, matched: string, before: string, after: string)
    requires '$' !in rest
    ensures Expand(LinkLine("$&") + rest, matched, before, after, []) == LinkLine(matched) + rest
  {
    var p := "  " + LinkHead;
    var q := LinkTail + "\n" + rest;
    LinkLineSplit("$&", rest);
    LinkLineSplit(matched, rest);
    LinkSidesNoDollar(rest);
    ExpandAmpersandIn(LinkLine("$&") + rest, p, q, matched, before, after, []);
  }

  /** A link line followed by `rest`, cut around its href. */
  lemma LinkLineSplit(href: string, rest: string)
    ensures LinkLine(href) + rest == ("  " + LinkHead) + href + (LinkTail + "\n" + rest)
  {
  }

  lemma LinkSidesNoDollar(rest: string)
    requires '$' !in rest
    ensures '$' !in "  " + LinkHead && '$' !in LinkTail + "\n" + rest
  {
    LinkPartsNoDollar();
  }

  // ---------------------------------------------------------------------------
  // The stylesheet
  // ---------------------------------------------------------------------------

  /** The rule for one entry: `.<class>{<style with a trailing ;>}` and a newline. */
  function Rule(e: (string, string)): string {
    "." + e.1 + "{" + EnsureTrailingSemicolon(e.0) + "}\n"
  }

  /** The rendering `render` gives the entries, one after the other in insertion order. */
  function RenderWith(es: Entries, render: ((string, string)) -> string): string
    decreases |es|
  {
    if es == [] then "" else RenderWith(es[..|es| - 1], render) + render(es[|es| - 1])
  }

  /** `renderStyleClassMap`: the rules, one after the other. */
  function RenderCss(es: Entries): string {
    RenderWith(es, Rule)
  }

  lemma RenderWithSnoc(es: Entries, i: nat, render: ((string, string)) -> string)
    requires i < |es|
    ensures RenderWith(es[..i + 1], render) == RenderWith(es[..i], render) + render(es[i])
  {
    assert es[..i + 1][..i] == es[..i];
  }

  /** The rendering is the concatenation of the rendered entries. */
  lemma {:induction false} RenderWithConcat(es: Entries, render: ((string, string)) -> string)
    ensures RenderWith(es, render) == Concat(seq(|es|, i requires 0 <= i < |es| => render(es[i])))
    decreases |es|
  {
    if es != [] {
      var init := es[..|es| - 1];
      RenderWithConcat(init, render);
      var all := seq(|es|, i requires 0 <= i < |es| => render(es[i]));
      var front := seq(|init|, i requires 0 <= i < |init| => render(init[i]));
      assert all == front + [render(es[|es| - 1])];
      ConcatAppend(front, [render(es[|es| - 1])]);
    }
  }

  lemma {:induction false} RenderWithAppend(es: Entries, more: Entries, render: ((string, string)) -> string)
    ensures RenderWith(es + more, render) == RenderWith(es, render) + RenderWith(more, render)
    decreases |more|
  {
    if more == [] {
      assert es + more == es;
    } else {
      var init := more[..|more| - 1];
      assert (es + more)[..|es + more| - 1] == es + init;
      RenderWithAppend(es, init, render);
    }
  }

  /** Entries added to a shared map add their rules after the existing ones. */
  lemma RenderCssAppend(es: Entries, more: Entries)
    ensures RenderCss(es + more) == RenderCss(es) + RenderCss(more)
  {
    RenderWithAppend(es, more, Rule);
  }

  /** A rule for a non-blank style names its class and ends its declarations with `;`. */
  lemma RuleShape(e: (string, string))
    requires Trim(Js, e.0) != []
    ensures StartsWith(Rule(e), "." + e.1 + "{") && EndsWith(Rule(e), ";}\n")
  {
    var d := EnsureTrailingSemicolon(e.0);
    var head := "." + e.1 + "{";
    assert Rule(e) == head + d + "}\n";
    Bracketed(head, d, "}\n");
    assert [d[|d| - 1]] + "}\n" == ";}\n";
  }

  /** Text between a head and a tail starts with the head and ends with its own last character and the tail. */
  lemma Bracketed(head: string, d: string, tail: string)
    requires d != []
    ensures StartsWith(head + d + tail, head)
    ensures EndsWith(head + d + tail, [d[|d| - 1]] + tail)
  {
    var r := head + d + tail;
    assert r[..|head|] == head;
    assert r[|r| - |tail| - 1..] == [d[|d| - 1]] + tail;
  }

  /** `renderStyleClassMap` on the map object. */
  method RenderStyleClassMap(m: StyleClassMap) returns (css: string)
    ensures css == RenderCss(m.entries)
  {
    css := "";
    var i := 0;
    while i < |m.entries|
      invariant 0 <= i <= |m.entries|
      invariant css == RenderCss(m.entries[..i])
    {
      RenderWithSnoc(m.entries, i, Rule);
      css := css + Rule(m.entries[i]);
      i := i + 1;
    }
    assert m.entries[..i] == m.entries;
  }

  // ---------------------------------------------------------------------------
  // The transform
  // ---------------------------------------------------------------------------

  /** One tag rewritten: the piece before it and its replacement, then the rewrite of the rest. */
  lemma RewriteSplit(html: string, from: nat, es: Entries, prefix: string, t: Tag,
                     piece: string, es': Entries, counted: bool, acc: string, count: nat)
    requires from <= |html| && NextTag(html, from) == Some(t)
    requires (piece, es', counted) == RewriteTag(TagName(html, t), TagAttrs(html, t), es, prefix)
    ensures from <= t.start < t.close < |html|
    ensures var rest := Rewrite(html, from, es, prefix);
      var rest' := Rewrite(html, t.close + 1, es', prefix);
      && (acc + html[from..t.start] + piece) + rest'.html == acc + rest.html
      && rest'.entries == rest.entries
      && (count + if counted then 1 else 0) + rest'.count == count + rest.count
  {
    RewriteStep(html, from, es, prefix, t);
    var rest' := Rewrite(html, t.close + 1, es', prefix);
    SeqAssoc3(acc, html[from..t.start] + piece, rest'.html);
    SeqAssoc3(acc, html[from..t.start], piece);
  }

  /** The rewrite resumes right after the `>` of the tag just replaced. */
  lemma RewriteResumes(html: string, t: Tag, next: nat, es: Entries, prefix: string)
    requires next == t.close + 1 <= |html|
    ensures Rewrite(html, next, es, prefix) == Rewrite(html, t.close + 1, es, prefix)
  {
  }

  /** No tag left: the rest is copied unchanged. */
  lemma RewriteDone(html: string, from: nat, es: Entries, prefix: string)
    requires from <= |html| && NextTag(html, from).None?
    ensures Rewrite(html, from, es, prefix) == Rewritten(html[from..], es, 0)
  {
  }

  /** One call of the replacement callback: the tag `t` found at or after `from` is replaced, updating the map. */
  method RewriteNextTag(html: string, from: nat, prefix: string, m: StyleClassMap, acc: string, count: nat,
                        ghost rest: Rewritten, t: Tag) returns (acc': string, count': nat, ghost rest': Rewritten, from': nat)
    requires from <= |html| && NextTag(html, from) == Some(t) && m.Valid()
    requires rest == Rewrite(html, from, m.entries, prefix)
    modifies m
    ensures m.Valid() && from < from' <= |html|
    ensures rest' == Rewrite(html, from', m.entries, prefix)
    ensures acc' + rest'.html == acc + rest.html && rest'.entries == rest.entries
    ensures count' + rest'.count == count + rest.count
  {
    ghost var es := m.entries;
    var piece, counted := ReplaceTag(TagName(html, t), TagAttrs(html, t), m, prefix);
    RewriteSplit(html, from, es, prefix, t, piece, m.entries, counted, acc, count);
    acc' := acc + html[from..t.start] + piece;
    count' := count + if counted then 1 else 0;
    from' := t.close + 1;
    rest' := Rewrite(html, from', m.entries, prefix);
    RewriteResumes(html, t, from', m.entries, prefix);
  }

  /** `html.replace(tagRe, callback)` on the shared map: the tags rewritten in document order. */
  method RewriteTags(html: string, prefix: string, m: StyleClassMap) returns (out: string, count: nat)
    requires m.Valid()
    modifies m
    ensures m.Valid()
    ensures Rewrite(html, 0, old(m.entries), prefix) == Rewritten(out, m.entries, count)
  {
    ghost var rest := Rewrite(html, 0, m.entries, prefix);
    ghost var whole := rest;
    var from := 0;
    var acc := "";
    count := 0;
    assert "" + rest.html == rest.html;
    while true
      invariant from <= |html| && m.Valid()
      invariant rest == Rewrite(html, from, m.entries, prefix)
      invariant acc + rest.html == whole.html && rest.entries == whole.entries && count + rest.count == whole.count
      decreases |html| - from
    {
      var next := NextTag(html, from);
      if next.None? {
        RewriteDone(html, from, m.entries, prefix);
        out := acc + html[from..];
        return;
      }
      acc, count, rest, from := RewriteNextTag(html, from, prefix, m, acc, count, rest, next.value);
    }
  }

  /**
   * `transformInlineStylesToClasses`: every tag is rewritten in document
   * order against the shared map `m`; when any was transformed, the
   * stylesheet link is injected; the stylesheet renders the whole map.
   */
  method TransformInlineStylesToClasses(html: string, prefix: string, href: Option<string>, m: StyleClassMap)
    returns (out: string, css: string, count: nat)
    requires m.Valid()
    modifies m
    ensures m.Valid()
    ensures var rw := Rewrite(html, 0, old(m.entries), prefix);
      && m.entries == rw.entries
      && count == rw.count
      && out == (if rw.count > 0 then InjectStylesheetLink(rw.html, href) else rw.html)
      && css == RenderCss(rw.entries)
  {
    out, count := RewriteTags(html, prefix, m);
    if count > 0 {
      out := InjectStylesheetLink(out, href);
    }
    css := RenderStyleClassMap(m);
  }
}
