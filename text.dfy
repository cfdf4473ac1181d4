/**
 * String and sequence helpers shared by the Python scripts and the JavaScript
 * build plugins: the two languages' whitespace sets, strip/trim, substring
 * search, code-point order and sorting, de-duplication, joining and decimal
 * rendering of naturals.
 */
module Text {
  import opened Wrappers

  // ---------------------------------------------------------------------------
  // Whitespace
  // ---------------------------------------------------------------------------

  /** Which language's notion of whitespace a trim or split uses. */
  datatype Lang = Py | Js

  /** Python's `str.isspace()` (also its `\s` in str patterns). */
  predicate PySpace(c: char) {
    ('\t' <= c <= '\r') || ('\U{1C}' <= c <= '\U{1F}') || c == ' '
    || c == '\U{85}' || c == '\U{A0}' || c == '\U{1680}'
    || ('\U{2000}' <= c <= '\U{200A}') || c == '\U{2028}' || c == '\U{2029}'
    || c == '\U{202F}' || c == '\U{205F}' || c == '\U{3000}'
  }

  /** JavaScript's WhiteSpace and LineTerminator, used by `trim()` and `\s`. */
  predicate JsSpace(c: char) {
    ('\t' <= c <= '\r') || c == ' ' || c == '\U{A0}' || c == '\U{1680}'
    || ('\U{2000}' <= c <= '\U{200A}') || c == '\U{2028}' || c == '\U{2029}'
    || c == '\U{202F}' || c == '\U{205F}' || c == '\U{3000}' || c == '\U{FEFF}'
  }

  predicate IsSpace(lang: Lang, c: char) {
    match lang
    case Py => PySpace(c)
    case Js => JsSpace(c)
  }

  predicate NoSpace(lang: Lang, s: string) {
    forall i :: 0 <= i < |s| ==> !IsSpace(lang, s[i])
  }

  /** `lstrip()` / `trimStart()`: drops the leading whitespace. */
  function TrimStart(lang: Lang, s: string): (r: string)
    ensures |r| <= |s| && r == s[|s| - |r|..]
    ensures r == [] || !IsSpace(lang, r[0])
    ensures forall i :: 0 <= i < |s| - |r| ==> IsSpace(lang, s[i])
  {
    if s == [] || !IsSpace(lang, s[0]) then s else TrimStart(lang, s[1..])
  }

  /** `rstrip()` / `trimEnd()`: drops the trailing whitespace. */
  function TrimEnd(lang: Lang, s: string): (r: string)
    ensures |r| <= |s| && r == s[..|r|]
    ensures r == [] || !IsSpace(lang, r[|r| - 1])
    ensures forall i :: |r| <= i < |s| ==> IsSpace(lang, s[i])
  {
    if s == [] || !IsSpace(lang, s[|s| - 1]) then s else TrimEnd(lang, s[..|s| - 1])
  }

  /** `strip()` / `trim()`. */
  function Trim(lang: Lang, s: string): (r: string)
  {
    TrimEnd(lang, TrimStart(lang, s))
  }

  /** The trimmed string neither starts nor ends with whitespace. */
  lemma TrimEnds(lang: Lang, s: string)
    ensures var r := Trim(lang, s); r == [] || (!IsSpace(lang, r[0]) && !IsSpace(lang, r[|r| - 1]))
  {
    var t := TrimStart(lang, s);
    var r := TrimEnd(lang, t);
    if r != [] {
      assert r[0] == t[0];
    }
  }

  /** Trimming is idempotent. */
  lemma TrimIdempotent(lang: Lang, s: string)
    ensures Trim(lang, Trim(lang, s)) == Trim(lang, s)
  {
    var r := Trim(lang, s);
    TrimEnds(lang, s);
    assert TrimStart(lang, r) == r;
    assert TrimEnd(lang, r) == r;
  }

  lemma TrimNoSpace(lang: Lang, s: string)
    requires NoSpace(lang, s)
    ensures Trim(lang, s) == s
  {
    assert s == [] || !IsSpace(lang, s[0]);
    assert TrimStart(lang, s) == s;
    assert s == [] || !IsSpace(lang, s[|s| - 1]);
  }

  /** A string trims to empty exactly when it is all whitespace. */
  lemma TrimEmptyIff(lang: Lang, s: string)
    ensures Trim(lang, s) == [] <==> (forall i :: 0 <= i < |s| ==> IsSpace(lang, s[i]))
  {
  }

  // ---------------------------------------------------------------------------
  // Prefixes, suffixes and substrings
  // ---------------------------------------------------------------------------

  predicate StartsWith(s: string, p: string) {
    |p| <= |s| && s[..|p|] == p
  }

  predicate EndsWith(s: string, p: string) {
    |p| <= |s| && s[|s| - |p|..] == p
  }

  /** `sub` occurs in `s` starting at index `i`. */
  predicate MatchAt(s: string, sub: string, i: nat) {
    i + |sub| <= |s| && s[i..i + |sub|] == sub
  }

  /** `s.find(sub, from)` / `s.indexOf(sub, from)`: the first occurrence at or after `from`. */
  function FindFrom(s: string, sub: string, from: nat): (r: Option<nat>)
    requires from <= |s|
    decreases |s| - from
    ensures r.Some? ==> from <= r.value <= |s| && MatchAt(s, sub, r.value)
    ensures r.Some? ==> forall j :: from <= j < r.value ==> !MatchAt(s, sub, j)
    ensures r.None? ==> forall j :: from <= j <= |s| ==> !MatchAt(s, sub, j)
  {
    if MatchAt(s, sub, from) then Some(from)
    else if from == |s| then None
    else FindFrom(s, sub, from + 1)
  }

  function Find(s: string, sub: string): (r: Option<nat>)
    ensures r.Some? ==> r.value <= |s| && MatchAt(s, sub, r.value)
    ensures r.Some? ==> forall j :: 0 <= j < r.value ==> !MatchAt(s, sub, j)
    ensures r.None? ==> forall j :: 0 <= j <= |s| ==> !MatchAt(s, sub, j)
  {
    FindFrom(s, sub, 0)
  }

  /** Python's `sub in s`, JavaScript's `s.includes(sub)`. */
  predicate Contains(s: string, sub: string) {
    Find(s, sub).Some?
  }

  lemma ContainsAt(s: string, sub: string, i: nat)
    requires MatchAt(s, sub, i)
    ensures Contains(s, sub)
  {
  }

  /** An occurrence inside `x` is an occurrence inside `x + y` and `y + x`. */
  lemma ContainsConcat(x: string, y: string, sub: string)
    requires Contains(x, sub)
    ensures Contains(x + y, sub) && Contains(y + x, sub)
  {
    var i := Find(x, sub).value;
    assert (x + y)[i..i + |sub|] == x[i..i + |sub|];
    ContainsAt(x + y, sub, i);
    assert (y + x)[|y| + i..|y| + i + |sub|] == x[i..i + |sub|];
    ContainsAt(y + x, sub, |y| + i);
  }

  /**
   * If `sub` contains no character `c`, every occurrence of `sub` in
   * `x + [c] + y` lies inside `x` or inside `y`.
   */
  lemma NotAcrossSeparator(x: string, c: char, y: string, sub: string)
    requires c !in sub && sub != []
    requires !Contains(x, sub) && !Contains(y, sub)
    ensures !Contains(x + [c] + y, sub)
  {
    var s := x + [c] + y;
    if Contains(s, sub) {
      var i := Find(s, sub).value;
      if i + |sub| <= |x| {
        assert x[i..i + |sub|] == s[i..i + |sub|];
        ContainsAt(x, sub, i);
      } else if i > |x| {
        var j: nat := i - |x| - 1;
        assert s[|x| + 1..] == y;
        assert s[i..i + |sub|] == s[|x| + 1..][j..j + |sub|];
        assert MatchAt(y, sub, j);
        ContainsAt(y, sub, j);
      } else {
        CharOfMatch(s, sub, i, |x|);
        assert false;
      }
    }
  }

  lemma CharOfMatch(s: string, sub: string, i: nat, k: nat)
    requires MatchAt(s, sub, i) && i <= k < i + |sub|
    ensures s[k] in sub
  {
    assert s[k] == sub[k - i];
  }

  // ---------------------------------------------------------------------------
  // Code-point order and sorting
  // ---------------------------------------------------------------------------

  /** Lexicographic order on code points (Python's `<=` on `str`). */
  predicate LexLe(a: string, b: string)
    decreases |a|
  {
    a == [] || (b != [] && (a[0] < b[0] || (a[0] == b[0] && LexLe(a[1..], b[1..]))))
  }

  lemma LexLeRefl(a: string)
    ensures LexLe(a, a)
  {
  }

  lemma LexLeTotal(a: string, b: string)
    ensures LexLe(a, b) || LexLe(b, a)
  {
  }

  lemma LexLeAntisym(a: string, b: string)
    requires LexLe(a, b) && LexLe(b, a)
    ensures a == b
  {
    if a != [] && b != [] {
      LexLeAntisym(a[1..], b[1..]);
      assert a == [a[0]] + a[1..] && b == [b[0]] + b[1..];
    }
  }

  lemma LexLeTrans(a: string, b: string, c: string)
    requires LexLe(a, b) && LexLe(b, c)
    ensures LexLe(a, c)
  {
    if a != [] && b != [] && c != [] && a[0] == b[0] == c[0] {
      LexLeTrans(a[1..], b[1..], c[1..]);
    }
  }

  predicate Sorted(s: seq<string>) {
    forall i, j :: 0 <= i < j < |s| ==> LexLe(s[i], s[j])
  }

  /** Ascending with no repeats. */
  predicate StrictlySorted(s: seq<string>) {
    forall i, j :: 0 <= i < j < |s| ==> LexLe(s[i], s[j]) && s[i] != s[j]
  }

  predicate Distinct<T(==)>(s: seq<T>) {
    forall i, j :: 0 <= i < j < |s| ==> s[i] != s[j]
  }

  function Insert(x: string, s: seq<string>): (r: seq<string>)
    requires Sorted(s)
    ensures Sorted(r)
    ensures multiset(r) == multiset(s) + multiset{x}
  {
    if s == [] then [x]
    else if LexLe(x, s[0]) then
      assert forall j :: 0 <= j < |s| ==> LexLe(x, s[j]) by {
        forall j | 0 <= j < |s| ensures LexLe(x, s[j]) {
          if j > 0 { LexLeTrans(x, s[0], s[j]); }
        }
      }
      SortedCons(x, s);
      [x] + s
    else
      var rest := Insert(x, s[1..]);
      InsertBelow(x, s, rest);
      assert s == [s[0]] + s[1..];
      [s[0]] + rest
  }

  /** A sorted sequence stays sorted behind a lower bound of all its elements. */
  lemma SortedCons(h: string, t: seq<string>)
    requires Sorted(t) && forall j :: 0 <= j < |t| ==> LexLe(h, t[j])
    ensures Sorted([h] + t)
  {
    var r := [h] + t;
    forall i, j | 0 <= i < j < |r| ensures LexLe(r[i], r[j]) {
      assert r[j] == t[j - 1];
      if i > 0 { assert r[i] == t[i - 1]; }
    }
  }

  /** The head of `s` bounds the insertion of `x` into its tail when `x` does not go first. */
  lemma InsertBelow(x: string, s: seq<string>, rest: seq<string>)
    requires Sorted(s) && s != [] && !LexLe(x, s[0])
    requires Sorted(rest) && multiset(rest) == multiset(s[1..]) + multiset{x}
    ensures Sorted([s[0]] + rest)
  {
    LexLeTotal(x, s[0]);
    forall j | 0 <= j < |rest| ensures LexLe(s[0], rest[j]) {
      var y := rest[j];
      assert y in multiset(rest);
      assert y in multiset(s[1..]) || y == x;
      if y != x {
        var k :| 0 <= k < |s[1..]| && s[1..][k] == y;
        assert s[k + 1] == y;
      }
    }
    SortedCons(s[0], rest);
  }

  /** Python's `sorted` and JavaScript's `sort()` on strings. */
  function Sort(s: seq<string>): (r: seq<string>)
    ensures Sorted(r)
    ensures multiset(r) == multiset(s)
  {
    if s == [] then []
    else
      assert s == [s[0]] + s[1..];
      Insert(s[0], Sort(s[1..]))
  }

  /** A sorted arrangement of a multiset of strings is unique: sorting has one answer. */
  lemma {:induction false} SortedUnique(a: seq<string>, b: seq<string>)
    requires Sorted(a) && Sorted(b) && multiset(a) == multiset(b)
    ensures a == b
  {
    if a != [] {
      assert |b| == |multiset(b)| == |multiset(a)| == |a|;
      SortedHeads(a, b);
      TailMultiset(a);
      TailMultiset(b);
      SortedUnique(a[1..], b[1..]);
      assert a == [a[0]] + a[1..] && b == [b[0]] + b[1..];
    }
  }

  lemma SortedHeads(a: seq<string>, b: seq<string>)
    requires Sorted(a) && Sorted(b) && multiset(a) == multiset(b) && a != [] && b != []
    ensures a[0] == b[0]
  {
    assert a[0] in multiset(b) && b[0] in multiset(a);
    var i :| 0 <= i < |b| && b[i] == a[0];
    var j :| 0 <= j < |a| && a[j] == b[0];
    LexLeRefl(a[0]);
    assert LexLe(b[0], a[0]) by { if i > 0 { assert LexLe(b[0], b[i]); } }
    assert LexLe(a[0], b[0]) by { if j > 0 { assert LexLe(a[0], a[j]); } }
    LexLeAntisym(a[0], b[0]);
  }

  lemma TailMultiset<T>(a: seq<T>)
    requires a != []
    ensures multiset(a[1..]) == multiset(a) - multiset{a[0]}
  {
    assert a == [a[0]] + a[1..];
  }

  /** Keeps the first occurrence of every element (the order of a JavaScript `Set`). */
  function Dedup<T(==,!new)>(s: seq<T>): (r: seq<T>)
    ensures Distinct(r)
    ensures forall x :: x in r <==> x in s
  {
    var r := DedupFrom(s, []);
    assert [] + r == r;
    r
  }

  function DedupFrom<T(==,!new)>(s: seq<T>, seen: seq<T>): (r: seq<T>)
    requires Distinct(seen)
    ensures Distinct(seen + r)
    ensures forall x :: x in seen + r <==> x in seen || x in s
    decreases |s|
  {
    if s == [] then []
    else if s[0] in seen then DedupFrom(s[1..], seen)
    else
      assert Distinct(seen + [s[0]]) by {
        forall i, j | 0 <= i < j < |seen| + 1 ensures (seen + [s[0]])[i] != (seen + [s[0]])[j] {
          if j == |seen| { assert (seen + [s[0]])[i] == seen[i]; }
        }
      }
      var rest := DedupFrom(s[1..], seen + [s[0]]);
      assert seen + [s[0]] + rest == seen + ([s[0]] + rest);
      [s[0]] + rest
  }

  /** A sorted sequence without repeats is strictly sorted. */
  lemma SortedDistinctStrict(s: seq<string>)
    requires Sorted(s) && Distinct(s)
    ensures StrictlySorted(s)
  {
  }

  /** Sorting keeps a sequence free of repeats. */
  lemma SortKeepsDistinct(s: seq<string>)
    requires Distinct(s)
    ensures Distinct(Sort(s))
  {
    var r := Sort(s);
    forall i, j | 0 <= i < j < |r| ensures r[i] != r[j] {
      if r[i] == r[j] {
        TwoOccurrences(r, i, j);
        MultiplicityOfDistinct(s, r[i]);
      }
    }
  }

  lemma TwoOccurrences<T>(r: seq<T>, i: nat, j: nat)
    requires i < j < |r| && r[i] == r[j]
    ensures multiset(r)[r[i]] >= 2
  {
    assert r == r[..j] + r[j..];
    assert r[i] in r[..j];
    assert r[j] == r[j..][0];
  }

  lemma MultiplicityOfDistinct<T>(s: seq<T>, x: T)
    requires Distinct(s)
    ensures multiset(s)[x] <= 1
  {
    if s != [] {
      assert s == [s[0]] + s[1..];
      MultiplicityOfDistinct(s[1..], x);
      if s[0] == x {
        assert x !in s[1..];
      }
    }
  }

  /** A strictly sorted listing of a set is unique. */
  lemma {:induction false} StrictlySortedUnique(a: seq<string>, b: seq<string>)
    requires StrictlySorted(a) && StrictlySorted(b)
    requires forall x :: x in a <==> x in b
    ensures a == b
  {
    DistinctMultiset(a, b);
    SortedUnique(a, b);
  }

  lemma DistinctMultiset(a: seq<string>, b: seq<string>)
    requires Distinct(a) && Distinct(b)
    requires forall x :: x in a <==> x in b
    ensures multiset(a) == multiset(b)
  {
    forall x ensures multiset(a)[x] == multiset(b)[x] {
      MultiplicityOfDistinct(a, x);
      MultiplicityOfDistinct(b, x);
      assert (x in a) == (x in multiset(a)) && (x in b) == (x in multiset(b));
    }
  }

  /** Index of the last occurrence of `c` in `s` (`str.rfind`). */
  function LastIndexOf(s: string, c: char): (r: Option<nat>)
    ensures r.Some? ==> r.value < |s| && s[r.value] == c
    ensures r.Some? ==> forall k :: r.value < k < |s| ==> s[k] != c
    ensures r.None? ==> c !in s
    decreases |s|
  {
    if s == [] then None
    else if s[|s| - 1] == c then Some(|s| - 1)
    else
      assert s == s[..|s| - 1] + [s[|s| - 1]];
      LastIndexOf(s[..|s| - 1], c)
  }

  /** Splits `s` at the first `c`: the text before it and the rest from `c` on. */
  function Span(s: string, c: char): (r: (string, string))
    ensures r.0 + r.1 == s && c !in r.0 && (r.1 == [] || r.1[0] == c)
    decreases |s|
  {
    if s == [] || s[0] == c then ([], s)
    else
      var (a, b) := Span(s[1..], c);
      assert s == [s[0]] + s[1..];
      ([s[0]] + a, b)
  }

  lemma SpanOf(a: string, c: char, t: string)
    requires c !in a && (t == [] || t[0] == c)
    ensures Span(a + t, c) == (a, t)
  {
    if a == [] {
      assert a + t == t;
    } else {
      assert (a + t)[0] == a[0] && (a + t)[1..] == a[1..] + t;
      SpanOf(a[1..], c, t);
      assert [a[0]] + a[1..] == a;
    }
  }

  /** The elements of `s` that satisfy `p`, in order (a list comprehension with a condition). */
  function Filter<T>(s: seq<T>, p: T -> bool): (r: seq<T>)
    ensures |r| <= |s|
    ensures forall i :: 0 <= i < |r| ==> p(r[i])
    decreases |s|
  {
    if s == [] then [] else if p(s[0]) then [s[0]] + Filter(s[1..], p) else Filter(s[1..], p)
  }

  /** An element is kept exactly when it occurs and satisfies the condition. */
  lemma {:induction false} FilterMembers<T>(s: seq<T>, p: T -> bool, x: T)
    ensures x in Filter(s, p) <==> x in s && p(x)
    decreases |s|
  {
    if s != [] {
      FilterMembers(s[1..], p, x);
      assert s == [s[0]] + s[1..];
    }
  }

  // ---------------------------------------------------------------------------
  // Joining and numbers
  // ---------------------------------------------------------------------------

  /** `sep.join(parts)` / `parts.join(sep)`. */
  function Join(parts: seq<string>, sep: string): (r: string)
    decreases |parts|
  {
    if parts == [] then ""
    else if |parts| == 1 then parts[0]
    else parts[0] + sep + Join(parts[1..], sep)
  }

  /** Concatenation of a sequence of strings. */
  function Concat(parts: seq<string>): (r: string)
    ensures |parts| == 1 ==> r == parts[0]
    decreases |parts|
  {
    if parts == [] then "" else parts[0] + Concat(parts[1..])
  }

  lemma ConcatAppend(a: seq<string>, b: seq<string>)
    ensures Concat(a + b) == Concat(a) + Concat(b)
  {
    if a == [] {
      assert a + b == b;
    } else {
      assert (a + b)[0] == a[0] && (a + b)[1..] == a[1..] + b;
      ConcatAppend(a[1..], b);
    }
  }

  function DigitChar(d: nat): (c: char)
    requires d < 10
    ensures '0' <= c <= '9'
  {
    ['0', '1', '2', '3', '4', '5', '6', '7', '8', '9'][d]
  }

  /** Decimal rendering of a natural, as `String(n)` and `str(n)` produce it. */
  function NatToString(n: nat): (r: string)
    ensures |r| >= 1
    ensures forall i :: 0 <= i < |r| ==> '0' <= r[i] <= '9'
    ensures (n < 10) == (|r| == 1)
  {
    if n < 10 then [DigitChar(n)] else NatToString(n / 10) + [DigitChar(n % 10)]
  }

  lemma DigitCharInjective(a: nat, b: nat)
    requires a < 10 && b < 10 && DigitChar(a) == DigitChar(b)
    ensures a == b
  {
  }

  /** Different numbers render differently. */
  lemma {:induction false} NatToStringInjective(a: nat, b: nat)
    requires NatToString(a) == NatToString(b)
    ensures a == b
  {
    if a >= 10 && b >= 10 {
      var sa, sb := NatToString(a), NatToString(b);
      assert sa[|sa| - 1] == DigitChar(a % 10) && sb[|sb| - 1] == DigitChar(b % 10);
      DigitCharInjective(a % 10, b % 10);
      assert sa[..|sa| - 1] == NatToString(a / 10);
      assert sb[..|sb| - 1] == NatToString(b / 10);
      NatToStringInjective(a / 10, b / 10);
    } else if a < 10 && b < 10 {
      DigitCharInjective(a, b);
    }
  }

  // ---------------------------------------------------------------------------
  // Case mapping on ASCII and Latin-1
  // ---------------------------------------------------------------------------

  /** `c.lower()` for ASCII and Latin-1 capitals. */
  function LowerChar(c: char): (r: char)
  {
    if 'A' <= c <= 'Z' || ('\U{C0}' <= c <= '\U{DE}' && c != '\U{D7}') then (c as int + 32) as char
    else c
  }

  function Lower(s: string): (r: string)
    ensures |r| == |s| && forall i :: 0 <= i < |s| ==> r[i] == LowerChar(s[i])
  {
    seq(|s|, i requires 0 <= i < |s| => LowerChar(s[i]))
  }

  /** Python's `c.upper()` on ASCII and Latin-1: `ß` becomes `SS`. */
  function UpperChar(c: char): (r: string)
  {
    if 'a' <= c <= 'z' || ('\U{E0}' <= c <= '\U{FE}' && c != '\U{F7}') then [(c as int - 32) as char]
    else if c == '\U{DF}' then "SS"
    else if c == '\U{FF}' then ['\U{178}']
    else if c == '\U{B5}' then ['\U{39C}']
    else [c]
  }

  function Upper(s: string): (r: string)
    decreases |s|
  {
    if s == [] then "" else UpperChar(s[0]) + Upper(s[1..])
  }

  /** No ASCII lower-case letter survives `upper()`. */
  lemma {:induction false} UpperHasNoAsciiLower(s: string)
    ensures forall i :: 0 <= i < |Upper(s)| ==> !('a' <= Upper(s)[i] <= 'z')
  {
    if s != [] {
      UpperHasNoAsciiLower(s[1..]);
    }
  }
}
