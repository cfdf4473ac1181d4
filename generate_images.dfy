/**
 * The metadata side of the cover-image generator: the frontmatter reader,
 * the derivation of an image's title, subtitle and file tree from a post,
 * the catalog override, and the list and set computations of its commands.
 */
module CoverImages {
  import opened Wrappers
  import opened Text

  // ---------------------------------------------------------------------------
  // Frontmatter values
  // ---------------------------------------------------------------------------

  /**
   * What the frontmatter reader stores under a key: a string, a boolean
   * (`true`/`false` in any case) or, under the key `tags`, a list of strings.
   */
  datatype FmValue = Str(s: string) | Bool(b: bool) | Tags(items: seq<string>)

  /** Python truthiness of a stored value. */
  predicate Truthy(v: FmValue) {
    match v
    case Str(s) => s != []
    case Bool(b) => b
    case Tags(items) => items != []
  }

  /** The ASCII part of `\w`. */
  predicate WordChar(c: char) {
    'a' <= c <= 'z' || 'A' <= c <= 'Z' || '0' <= c <= '9' || c == '_'
  }

  /** A key the reader accepts: one or more word characters. */
  predicate IsKey(k: string) {
    k != [] && forall i :: 0 <= i < |k| ==> WordChar(k[i])
  }

  /** What every map the reader returns looks like: word keys, and lists exactly under `tags`. */
  predicate WellFormed(fm: map<string, FmValue>) {
    forall k :: k in fm ==> IsKey(k) && (fm[k].Tags? <==> k == "tags")
  }

  // ---------------------------------------------------------------------------
  // The `---` block: `^---\s*\n(.*?)\n---` with DOTALL
  // ---------------------------------------------------------------------------

  /** The end of the run of whitespace starting at `i`. */
  function SpaceRunEnd(s: string, i: nat): (e: nat)
    requires i <= |s|
    ensures i <= e <= |s|
    ensures forall k :: i <= k < e ==> PySpace(s[k])
    ensures e == |s| || !PySpace(s[e])
    decreases |s| - i
  {
    if i == |s| || !PySpace(s[i]) then i else SpaceRunEnd(s, i + 1)
  }

  /**
   * The backtracking of `\s*\n(.*?)\n---`: the block starts after the last
   * newline of the whitespace `s[3..end]` from which some `\n---` follows,
   * and ends at the first such `\n---`.
   */
  function BlockBefore(s: string, end: nat): (r: Option<string>)
    requires 3 <= end <= |s|
    decreases end
  {
    if end == 3 then None
    else if s[end - 1] == '\n' then
      match FindFrom(s, "\n---", end)
      case Some(j) => Some(s[end..j])
      case None => BlockBefore(s, end - 1)
    else BlockBefore(s, end - 1)
  }

  /** The text between the opening `---` line and the closing `\n---`, if any. */
  function FrontmatterBlock(content: string): (r: Option<string>)
  {
    if !StartsWith(content, "---") then None
    else BlockBefore(content, SpaceRunEnd(content, 3))
  }

  /**
   * `b` sits at `g` as a block: `content[..g]` is `---`, whitespace and a
   * newline, `b` follows, then `\n---`, and `b` holds no earlier `\n---`.
   */
  predicate BlockAt(content: string, g: nat, b: string) {
    4 <= g && g + |b| + 4 <= |content| && content[..3] == "---" && content[g - 1] == '\n'
    && (forall k :: 3 <= k < g ==> PySpace(content[k]))
    && content[g..g + |b|] == b && MatchAt(content, "\n---", g + |b|)
    && forall j :: g <= j < g + |b| ==> !MatchAt(content, "\n---", j)
  }

  lemma {:induction false} BlockBeforeShape(content: string, end: nat)
    requires 3 <= end <= |content| && content[..3] == "---"
    requires forall k :: 3 <= k < end ==> PySpace(content[k])
    ensures BlockBefore(content, end).Some? ==> exists g :: BlockAt(content, g, BlockBefore(content, end).value)
    decreases end
  {
    if end > 3 {
      if content[end - 1] == '\n' && FindFrom(content, "\n---", end).Some? {
        var j := FindFrom(content, "\n---", end).value;
        assert BlockAt(content, end, content[end..j]);
      } else {
        BlockBeforeShape(content, end - 1);
      }
    }
  }

  /** Whatever block is found has the shape of a match of the pattern. */
  lemma BlockShape(content: string)
    ensures FrontmatterBlock(content).Some? ==>
      exists g :: BlockAt(content, g, FrontmatterBlock(content).value)
  {
    if StartsWith(content, "---") {
      BlockBeforeShape(content, SpaceRunEnd(content, 3));
    }
  }

  /**
   * The usual layout, `---` and a newline, a block that starts with a
   * visible character, `\n---`, is read back as that block.
   */
  lemma SimpleBlock(b: string, rest: string)
    requires b != [] && !PySpace(b[0])
    requires forall j :: 0 <= j < |b| ==> !MatchAt(b + "\n---", "\n---", j)
    ensures FrontmatterBlock("---\n" + b + "\n---" + rest) == Some(b)
  {
    var c := "---\n" + b + "\n---" + rest;
    assert c == "---\n" + (b + "\n---" + rest);
    assert c[..3] == "---" && c[3] == '\n' && c[4] == b[0];
    assert SpaceRunEnd(c, 4) == 4;
    assert SpaceRunEnd(c, 3) == 4;
    forall j | 4 <= j < 4 + |b|
      ensures !MatchAt(c, "\n---", j)
    {
      assert (b + "\n---")[j - 4..j] == c[j..j + 4] by {
        assert c[4..4 + |b| + 4] == b + "\n---";
      }
      assert !MatchAt(b + "\n---", "\n---", j - 4);
    }
    assert c[4 + |b|..4 + |b| + 4] == "\n---";
    assert MatchAt(c, "\n---", 4 + |b|);
    var f := FindFrom(c, "\n---", 4);
    assert f == Some(4 + |b|);
    assert c[4..4 + |b|] == b;
  }

  // ---------------------------------------------------------------------------
  // Lines: `str.splitlines()`
  // ---------------------------------------------------------------------------

  /** The characters `str.splitlines()` breaks at (`\r\n` counts as one break). */
  predicate LineBreak(c: char) {
    c == '\n' || c == '\r' || c == '\U{0B}' || c == '\U{0C}' || ('\U{1C}' <= c <= '\U{1E}')
    || c == '\U{85}' || c == '\U{2028}' || c == '\U{2029}'
  }

  predicate NoBreak(s: string) {
    forall k :: 0 <= k < |s| ==> !LineBreak(s[k])
  }

  /** The first line break at or after `i`, or the end. */
  function BreakIndex(s: string, i: nat): (e: nat)
    requires i <= |s|
    ensures i <= e <= |s| && (e == |s| || LineBreak(s[e]))
    ensures forall k :: i <= k < e ==> !LineBreak(s[k])
    decreases |s| - i
  {
    if i == |s| || LineBreak(s[i]) then i else BreakIndex(s, i + 1)
  }

  /** `s.splitlines()`: the lines without their terminators, no empty last line. */
  function SplitLines(s: string): (r: seq<string>)
    ensures forall i :: 0 <= i < |r| ==> NoBreak(r[i])
    decreases |s|
  {
    if s == [] then []
    else
      var e := BreakIndex(s, 0);
      if e == |s| then [s]
      else
        var next := if s[e] == '\r' && e + 1 < |s| && s[e + 1] == '\n' then e + 2 else e + 1;
        [s[..e]] + SplitLines(s[next..])
  }

  /** Lines joined with `\n` split back into the same lines. */
  lemma {:induction false} SplitJoinedLines(lines: seq<string>)
    requires lines != [] && lines[|lines| - 1] != []
    requires forall i :: 0 <= i < |lines| ==> NoBreak(lines[i])
    ensures SplitLines(Join(lines, "\n")) == lines
  {
    var l := lines[0];
    if |lines| == 1 {
      assert BreakIndex(l, 0) == |l|;
    } else {
      var rest := Join(lines[1..], "\n");
      var s := Join(lines, "\n");
      assert s == l + ("\n" + rest);
      assert s[|l|] == '\n';
      assert forall k :: 0 <= k < |l| ==> s[k] == l[k];
      assert BreakIndex(s, 0) == |l|;
      assert s[..|l|] == l;
      assert s[|l| + 1..] == rest;
      SplitJoinedLines(lines[1..]);
      assert lines == [l] + lines[1..];
    }
  }

  // ---------------------------------------------------------------------------
  // One `key: value` line
  // ---------------------------------------------------------------------------

  /** The length of the run of word characters at the start of `s`. */
  function WordRun(s: string): (n: nat)
    ensures n <= |s| && (n == |s| || !WordChar(s[n]))
    ensures forall k :: 0 <= k < n ==> WordChar(s[k])
    decreases |s|
  {
    if s == [] || !WordChar(s[0]) then 0 else 1 + WordRun(s[1..])
  }

  /** One pair of matching outer quotes removed (`val[1:-1]`, so a lone quote gives ""). */
  function Unquote(v: string): (r: string)
  {
    if |v| >= 1 && ((v[0] == '"' && v[|v| - 1] == '"') || (v[0] == '\'' && v[|v| - 1] == '\'')) then
      if |v| >= 2 then v[1..|v| - 1] else ""
    else v
  }

  /**
   * `re.findall(r'"([^"]+)"|\'([^\']+)\'', v)`: from left to right, each
   * non-empty text between a quote and the next quote of the same kind.
   */
  function QuotedItems(v: string): (r: seq<string>)
    ensures forall i :: 0 <= i < |r| ==> r[i] != []
    decreases |v|
  {
    if v == [] then []
    else if v[0] == '"' || v[0] == '\'' then
      var (item, rest) := Span(v[1..], v[0]);
      if item != [] && rest != [] then [item] + QuotedItems(rest[1..])
      else QuotedItems(v[1..])
    else QuotedItems(v[1..])
  }

  /** What the reader stores for a trimmed value under `key`. */
  function Interpret(key: string, v: string): (r: FmValue)
    ensures r.Tags? <==> key == "tags"
  {
    var u := Unquote(v);
    if key == "tags" then Tags(QuotedItems(u))
    else if Lower(u) == "true" || Lower(u) == "false" then Bool(Lower(u) == "true")
    else Str(u)
  }

  /**
   * One line of the block: skipped when blank or a `#` comment, or when it
   * is not `^(\w+):\s*(.+)$`; otherwise its key and interpreted value.
   */
  function LineEntry(line: string): (r: Option<(string, FmValue)>)
    ensures r.Some? ==> IsKey(r.value.0) && (r.value.1.Tags? <==> r.value.0 == "tags")
  {
    var t := Trim(Py, line);
    if t == [] || t[0] == '#' then None
    else
      var n := WordRun(t);
      if n == 0 || n == |t| || t[n] != ':' then None
      else
        var rest := TrimStart(Py, t[n + 1..]);
        if rest == [] || '\n' in rest then None
        else
          var key := t[..n];
          RunIsKey(t, n);
          Some((key, Interpret(key, Trim(Py, rest))))
  }

  /** `line` sets `key`. */
  predicate Defines(line: string, key: string) {
    LineEntry(line).Some? && LineEntry(line).value.0 == key
  }

  /** Blank lines and comments set nothing. */
  lemma BlankAndCommentLinesSkipped(line: string)
    requires Trim(Py, line) == [] || Trim(Py, line)[0] == '#'
    ensures LineEntry(line).None?
  {
  }

  /**
   * `key: x`, with `x` free of surrounding whitespace and newlines, stores
   * `x` read under `key`.
   */
  lemma LineOf(key: string, x: string)
    requires IsKey(key) && x != [] && !PySpace(x[0]) && !PySpace(x[|x| - 1]) && '\n' !in x
    ensures LineEntry(key + ": " + x) == Some((key, Interpret(key, x)))
  {
    var line := key + ": " + x;
    LineOfTrimmed(key, x, line);
    LineOfKey(key, x, line);
    LineOfValue(key, x, line);
    TrimNoSpaceEnds(x);
    LineEntryWhen(line, key, x);
  }

  /** The word prefix of a line is a key. */
  lemma RunIsKey(t: string, n: nat)
    requires 0 < n <= |t| && WordRun(t) >= n
    ensures IsKey(t[..n])
  {
    forall i | 0 <= i < n ensures WordChar(t[..n][i]) {
      assert t[..n][i] == t[i];
    }
  }

  /** `key: x` has nothing to trim and does not start a comment. */
  lemma LineOfTrimmed(key: string, x: string, line: string)
    requires IsKey(key) && x != [] && !PySpace(x[|x| - 1]) && line == key + ": " + x
    ensures Trim(Py, line) == line && line != [] && line[0] != '#'
  {
    assert line[0] == key[0] && line[|line| - 1] == x[|x| - 1];
    TrimNoSpaceEnds(line);
  }

  /** `key: x` starts with the word `key` and a colon. */
  lemma LineOfKey(key: string, x: string, line: string)
    requires IsKey(key) && line == key + ": " + x
    ensures WordRun(line) == |key| && |key| < |line| && line[|key|] == ':' && line[..|key|] == key
  {
    assert line == key + ([':'] + ([' '] + x));
    WordRunOf(key, [':'] + ([' '] + x));
  }

  /** After `key:` and the whitespace that follows comes `x`. */
  lemma LineOfValue(key: string, x: string, line: string)
    requires x != [] && !PySpace(x[0]) && line == key + ": " + x
    ensures |key| < |line| && TrimStart(Py, line[|key| + 1..]) == x
  {
    assert line[|key| + 1..] == [' '] + x;
    TrimStartNoSpace(x);
    TrimStartDropsSpace(' ', x);
  }

  lemma TrimStartNoSpace(s: string)
    requires s != [] && !PySpace(s[0])
    ensures TrimStart(Py, s) == s
  {
  }

  lemma TrimStartDropsSpace(c: char, s: string)
    requires PySpace(c)
    ensures TrimStart(Py, [c] + s) == TrimStart(Py, s)
  {
    var t := [c] + s;
    assert t[0] == c && IsSpace(Py, t[0]);
    assert t[1..] == s;
  }

  /** The unfolding of `LineEntry` for a line that matches. */
  lemma LineEntryWhen(line: string, key: string, rest: string)
    requires Trim(Py, line) == line && line != [] && line[0] != '#'
    requires WordRun(line) == |key| && 0 < |key| < |line| && line[|key|] == ':' && line[..|key|] == key
    requires TrimStart(Py, line[|key| + 1..]) == rest && rest != [] && '\n' !in rest && Trim(Py, rest) == rest
    ensures LineEntry(line) == Some((key, Interpret(key, rest)))
  {
  }

  lemma {:induction false} WordRunOf(k: string, rest: string)
    requires forall i :: 0 <= i < |k| ==> WordChar(k[i])
    requires rest == [] || !WordChar(rest[0])
    ensures WordRun(k + rest) == |k|
  {
    if k != [] {
      assert (k + rest)[1..] == k[1..] + rest;
      WordRunOf(k[1..], rest);
    } else {
      assert k + rest == rest;
    }
  }

  /** Trimming a string that neither starts nor ends with whitespace changes nothing. */
  lemma TrimNoSpaceEnds(s: string)
    requires s != [] && !PySpace(s[0]) && !PySpace(s[|s| - 1])
    ensures Trim(Py, s) == s
  {
  }

  /** A plain value is stored as written. */
  lemma PlainValue(key: string, v: string)
    requires IsKey(key) && key != "tags"
    requires v != [] && !PySpace(v[0]) && !PySpace(v[|v| - 1]) && '\n' !in v
    requires v[0] != '"' && v[0] != '\''
    requires Lower(v) != "true" && Lower(v) != "false"
    ensures LineEntry(key + ": " + v) == Some((key, Str(v)))
  {
    assert Unquote(v) == v;
    assert Interpret(key, v) == Str(v);
    LineOf(key, v);
  }

  /** One pair of matching quotes is removed from a value. */
  lemma QuotedValue(key: string, q: char, v: string)
    requires IsKey(key) && key != "tags" && (q == '"' || q == '\'')
    requires '\n' !in v && Lower(v) != "true" && Lower(v) != "false"
    ensures LineEntry(key + ": " + ([q] + v + [q])) == Some((key, Str(v)))
  {
    var x := [q] + v + [q];
    LineOf(key, x);
    assert x[1..|x| - 1] == v;
  }

  /** `true` and `false`, in any case and quoted or not, become booleans. */
  lemma BooleanValue(key: string, v: string)
    requires IsKey(key) && key != "tags"
    requires v != [] && !PySpace(v[0]) && !PySpace(v[|v| - 1]) && '\n' !in v
    requires Lower(Unquote(v)) == "true" || Lower(Unquote(v)) == "false"
    ensures LineEntry(key + ": " + v) == Some((key, Bool(Lower(Unquote(v)) == "true")))
  {
    LineOf(key, v);
  }

  /** `["a", "b", …]` as written in a post's frontmatter. */
  function InlineList(tags: seq<string>): string {
    "[" + ListItems(tags) + "]"
  }

  function ListItems(tags: seq<string>): string
    decreases |tags|
  {
    if tags == [] then ""
    else if |tags| == 1 then "\"" + tags[0] + "\""
    else "\"" + tags[0] + "\", " + ListItems(tags[1..])
  }

  /** Text without quotes contributes no items. */
  lemma {:induction false} NoQuotesNoItems(s: string)
    requires '"' !in s && '\'' !in s
    ensures QuotedItems(s) == []
    decreases |s|
  {
    if s != [] {
      NoQuotesNoItems(s[1..]);
    }
  }

  /** Text before a quote that has no quote itself is skipped. */
  lemma {:induction false} SkipPlain(p: string, s: string)
    requires '"' !in p && '\'' !in p
    ensures QuotedItems(p + s) == QuotedItems(s)
    decreases |p|
  {
    if p != [] {
      assert (p + s)[0] == p[0] && (p + s)[1..] == p[1..] + s;
      SkipPlain(p[1..], s);
    } else {
      assert p + s == s;
    }
  }

  /** One quoted item followed by anything. */
  lemma QuotedItemThen(t: string, s: string)
    requires t != [] && '"' !in t
    ensures QuotedItems("\"" + t + "\"" + s) == [t] + QuotedItems(s)
  {
    var v := "\"" + t + "\"" + s;
    assert v[1..] == t + ("\"" + s);
    SpanOf(t, '"', "\"" + s);
    assert ("\"" + s)[1..] == s;
  }

  lemma {:induction false} ListItemsRead(tags: seq<string>, s: string)
    requires forall i :: 0 <= i < |tags| ==> tags[i] != [] && '"' !in tags[i] && '\'' !in tags[i]
    requires s == "]"
    ensures QuotedItems(ListItems(tags) + s) == tags
    decreases |tags|
  {
    if tags == [] {
      assert ListItems(tags) + s == "]";
      NoQuotesNoItems("]");
    } else if |tags| == 1 {
      assert ListItems(tags) + s == "\"" + tags[0] + "\"" + s;
      QuotedItemThen(tags[0], s);
      NoQuotesNoItems(s);
    } else {
      var rest := ListItems(tags[1..]) + s;
      ListItemsCons(tags, s);
      QuotedItemThen(tags[0], ", " + rest);
      SkipPlain(", ", rest);
      ListItemsRead(tags[1..], s);
      assert tags == [tags[0]] + tags[1..];
    }
  }

  lemma ListItemsCons(tags: seq<string>, s: string)
    requires |tags| > 1
    ensures ListItems(tags) + s == "\"" + tags[0] + "\"" + (", " + (ListItems(tags[1..]) + s))
  {
  }

  /** A `tags: ["a", "b"]` line gives back exactly its tags. */
  lemma TagsLine(tags: seq<string>)
    requires forall i :: 0 <= i < |tags| ==> tags[i] != [] && NoBreak(tags[i]) && '"' !in tags[i] && '\'' !in tags[i]
    ensures LineEntry("tags: " + InlineList(tags)) == Some(("tags", Tags(tags)))
  {
    var x := InlineList(tags);
    InlineListRead(tags);
    assert Interpret("tags", x) == Tags(tags);
    assert "tags" + ": " + x == "tags: " + x;
    LineOf("tags", x);
  }

  /** The bracketed list is one line, has nothing to unquote or trim, and its quoted items are the tags. */
  lemma InlineListRead(tags: seq<string>)
    requires forall i :: 0 <= i < |tags| ==> tags[i] != [] && NoBreak(tags[i]) && '"' !in tags[i] && '\'' !in tags[i]
    ensures var x := InlineList(tags);
      && x != [] && x[0] == '[' && x[|x| - 1] == ']' && '\n' !in x
      && Unquote(x) == x && QuotedItems(x) == tags
  {
    var x := InlineList(tags);
    assert x == "[" + (ListItems(tags) + "]");
    assert '\n' !in x by {
      ListItemsNoNewline(tags);
    }
    SkipPlain("[", ListItems(tags) + "]");
    ListItemsRead(tags, "]");
  }

  lemma {:induction false} ListItemsNoNewline(tags: seq<string>)
    requires forall i :: 0 <= i < |tags| ==> NoBreak(tags[i])
    ensures '\n' !in ListItems(tags)
    decreases |tags|
  {
    if |tags| == 1 {
      assert '\n' !in tags[0];
    } else if |tags| > 1 {
      assert '\n' !in tags[0];
      ListItemsNoNewline(tags[1..]);
    }
  }

  // ---------------------------------------------------------------------------
  // parse_frontmatter
  // ---------------------------------------------------------------------------

  /** A line as the reader sees it: skipped, or a key and its value. */
  type Entry = Option<(string, FmValue)>

  /** The entries of the block's lines, in order. */
  function LineEntries(lines: seq<string>): (es: seq<Entry>)
    ensures |es| == |lines| && forall i :: 0 <= i < |lines| ==> es[i] == LineEntry(lines[i])
  {
    seq(|lines|, i requires 0 <= i < |lines| => LineEntry(lines[i]))
  }

  /** The dictionary the line loop leaves after the entries `es`. */
  function Collect(es: seq<Entry>): (m: map<string, FmValue>)
    decreases |es|
  {
    if es == [] then map[]
    else
      var m := Collect(es[..|es| - 1]);
      match es[|es| - 1]
      case Some((k, v)) => m[k := v]
      case None => m
  }

  /** What `parse_frontmatter` returns for a file's contents; it is always well formed. */
  function Frontmatter(content: string): (fm: map<string, FmValue>)
    ensures WellFormed(fm)
  {
    match FrontmatterBlock(content)
    case None => map[]
    case Some(b) =>
      CollectWellFormed(LineEntries(SplitLines(b)));
      Collect(LineEntries(SplitLines(b)))
  }

  /** `parse_frontmatter` on the contents of the file: one pass over the block's lines. */
  method ParseFrontmatter(content: string) returns (result: map<string, FmValue>)
    ensures result == Frontmatter(content)
  {
    result := map[];
    var block := FrontmatterBlock(content);
    if block.None? {
      return;
    }
    var lines := SplitLines(block.value);
    ghost var es := LineEntries(lines);
    for i := 0 to |lines|
      invariant result == Collect(es[..i])
    {
      var entry := LineEntry(lines[i]);
      CollectSnoc(es, i);
      if entry.Some? {
        result := result[entry.value.0 := entry.value.1];
      }
    }
    assert es[..|lines|] == es;
  }

  lemma CollectSnoc(es: seq<Entry>, i: nat)
    requires i < |es|
    ensures Collect(es[..i + 1]) ==
      if es[i].Some? then Collect(es[..i])[es[i].value.0 := es[i].value.1] else Collect(es[..i])
  {
    assert es[..i + 1][..i] == es[..i];
  }

  /** Entry `e` sets `k`. */
  predicate Sets(e: Entry, k: string) {
    e.Some? && e.value.0 == k
  }

  /** A key is present exactly when some line sets it. */
  lemma {:induction false} CollectKeys(es: seq<Entry>, k: string)
    ensures k in Collect(es) <==> exists i :: 0 <= i < |es| && Sets(es[i], k)
    decreases |es|
  {
    if es != [] {
      var init := es[..|es| - 1];
      CollectKeys(init, k);
      assert forall i :: 0 <= i < |init| ==> init[i] == es[i];
    }
  }

  /** A key holds the value of the last line that sets it. */
  lemma {:induction false} CollectLastWins(es: seq<Entry>, i: nat)
    requires i < |es| && es[i].Some?
    requires forall j :: i < j < |es| ==> !Sets(es[j], es[i].value.0)
    ensures es[i].value.0 in Collect(es)
    ensures Collect(es)[es[i].value.0] == es[i].value.1
    decreases |es|
  {
    var init := es[..|es| - 1];
    if i < |es| - 1 {
      assert forall j :: 0 <= j < |init| ==> init[j] == es[j];
      CollectLastWins(init, i);
    }
  }

  /** Entries with word keys and lists only under `tags` give a well-formed map. */
  lemma {:induction false} CollectWellFormed(es: seq<Entry>)
    requires forall i :: 0 <= i < |es| && es[i].Some? ==>
      IsKey(es[i].value.0) && (es[i].value.1.Tags? <==> es[i].value.0 == "tags")
    ensures WellFormed(Collect(es))
    decreases |es|
  {
    if es != [] {
      CollectWellFormed(es[..|es| - 1]);
    }
  }

  /** A key of the frontmatter comes from a line of its block that sets it. */
  lemma FrontmatterKeys(content: string, b: string, k: string)
    requires FrontmatterBlock(content) == Some(b)
    ensures k in Frontmatter(content) <==>
      exists i :: 0 <= i < |SplitLines(b)| && Sets(LineEntry(SplitLines(b)[i]), k)
  {
    FrontmatterOf(content, b);
    LinesKeys(SplitLines(b), k);
  }

  lemma FrontmatterOf(content: string, b: string)
    requires FrontmatterBlock(content) == Some(b)
    ensures Frontmatter(content) == Collect(LineEntries(SplitLines(b)))
  {
  }

  lemma LinesKeys(lines: seq<string>, k: string)
    ensures k in Collect(LineEntries(lines)) <==> exists i :: 0 <= i < |lines| && Sets(LineEntry(lines[i]), k)
  {
    var es := LineEntries(lines);
    CollectKeys(es, k);
    EntriesSetting(lines, es, k);
  }

  lemma EntriesSetting(lines: seq<string>, es: seq<Entry>, k: string)
    requires |es| == |lines| && forall i :: 0 <= i < |lines| ==> es[i] == LineEntry(lines[i])
    ensures (exists i :: 0 <= i < |es| && Sets(es[i], k)) <==> exists i :: 0 <= i < |lines| && Sets(LineEntry(lines[i]), k)
  {
    if i :| 0 <= i < |es| && Sets(es[i], k) {
      assert Sets(LineEntry(lines[i]), k);
    }
  }

  /** A later line overwrites an earlier one with the same key. */
  lemma FrontmatterLastWins(content: string, b: string, i: nat, k: string, v: FmValue)
    requires FrontmatterBlock(content) == Some(b)
    requires i < |SplitLines(b)| && LineEntry(SplitLines(b)[i]) == Some((k, v))
    requires forall j :: i < j < |SplitLines(b)| ==> !Sets(LineEntry(SplitLines(b)[j]), k)
    ensures k in Frontmatter(content) && Frontmatter(content)[k] == v
  {
    var es := LineEntries(SplitLines(b));
    CollectLastWins(es, i);
  }

  /** Without an opening `---` or any closing `\n---` there is no frontmatter. */
  lemma NoBlockNoFrontmatter(content: string)
    requires !StartsWith(content, "---") || !Contains(content, "\n---")
    ensures Frontmatter(content) == map[]
  {
    if StartsWith(content, "---") {
      NoBlockWithoutClose(content, SpaceRunEnd(content, 3));
    }
  }

  lemma {:induction false} NoBlockWithoutClose(content: string, end: nat)
    requires 3 <= end <= |content| && !Contains(content, "\n---")
    ensures BlockBefore(content, end).None?
    decreases end
  {
    if end > 3 {
      if content[end - 1] == '\n' {
        var f := FindFrom(content, "\n---", end);
        if f.Some? {
          ContainsAt(content, "\n---", f.value);
          assert false;
        }
      }
      NoBlockWithoutClose(content, end - 1);
    }
  }

  // ---------------------------------------------------------------------------
  // extract_title_from_frontmatter
  // ---------------------------------------------------------------------------

  /** The words the title derivation skips (compared after lowering and stripping colons), one row per source line. */
  const StopWords1: set<string> := {"c\U{F3}mo", "como", "gu\U{ED}a", "guia", "para", "en", "de", "del", "con", "los"}
  const StopWords2: set<string> := {"las", "una", "un", "tu", "tus", "por", "qu\U{E9}", "que", "y", "o", "a"}
  const StopWords3: set<string> := {"el", "la", "es", "su", "sus", "al", "se", "no", "si", "m\U{E1}s", "mas"}
  const StopWords4: set<string> := {"sin", "sobre", "entre", "desde", "hasta", "hacia", "donde", "d\U{F3}nde"}
  const StopWords5: set<string> := {"primeros", "pasos", "configurar", "instalar", "usar"}
  const StopWords: set<string> := StopWords1 + StopWords2 + StopWords3 + StopWords4 + StopWords5

  /** The first whitespace character of `s`, or its length. */
  function FirstSpace(s: string): (n: nat)
    ensures n <= |s| && (n == |s| || PySpace(s[n]))
    ensures forall k :: 0 <= k < n ==> !PySpace(s[k])
    decreases |s|
  {
    if s == [] || PySpace(s[0]) then 0 else 1 + FirstSpace(s[1..])
  }

  /** `s.split()`: the maximal runs of non-whitespace characters. */
  function Words(s: string): (ws: seq<string>)
    decreases |s|
  {
    var t := TrimStart(Py, s);
    if t == [] then []
    else
      var n := FirstSpace(t);
      [t[..n]] + Words(t[n..])
  }

  /** A word of `s.split()`: non-empty, without whitespace. */
  predicate IsWord(w: string) {
    w != [] && NoSpace(Py, w)
  }

  /** Each word is non-empty and holds no whitespace. */
  lemma {:induction false} WordsAreWords(s: string)
    ensures forall i :: 0 <= i < |Words(s)| ==> IsWord(Words(s)[i])
    decreases |s|
  {
    var t := TrimStart(Py, s);
    if t != [] {
      var n := FirstSpace(t);
      var w := t[..n];
      assert IsWord(w) by {
        assert !PySpace(t[0]);
      }
      var rest := Words(t[n..]);
      var ws := Words(s);
      assert ws == [w] + rest;
      WordsAreWords(t[n..]);
      forall i | 0 <= i < |ws|
        ensures IsWord(ws[i])
      {
        if i > 0 {
          assert ws[i] == rest[i - 1];
        }
      }
    }
  }

  lemma WordsDropSpace(c: char, s: string)
    requires PySpace(c)
    ensures Words([c] + s) == Words(s)
  {
    TrimStartDropsSpace(c, s);
  }

  lemma {:induction false} FirstSpaceOf(w: string, rest: string)
    requires NoSpace(Py, w) && (rest == [] || PySpace(rest[0]))
    ensures FirstSpace(w + rest) == |w|
    decreases |w|
  {
    if w == [] {
      assert w + rest == rest;
    } else {
      assert (w + rest)[0] == w[0] && (w + rest)[1..] == w[1..] + rest;
      FirstSpaceOf(w[1..], rest);
    }
  }

  lemma WordsOfWord(w: string, rest: string)
    requires IsWord(w) && (rest == [] || PySpace(rest[0]))
    ensures Words(w + rest) == [w] + Words(rest)
  {
    var t := w + rest;
    assert t[0] == w[0];
    TrimStartNoSpace(t);
    FirstSpaceOf(w, rest);
    assert t[..|w|] == w && t[|w|..] == rest;
  }

  /** Words joined by single spaces split back into the same words. */
  lemma {:induction false} WordsOfJoin(ws: seq<string>)
    requires forall i :: 0 <= i < |ws| ==> IsWord(ws[i])
    ensures Words(Join(ws, " ")) == ws
    decreases |ws|
  {
    if |ws| == 1 {
      WordsOfWord(ws[0], "");
      assert ws[0] + "" == ws[0];
    } else if |ws| > 1 {
      var w := ws[0];
      var tail := ws[1..];
      assert ws == [w] + tail;
      var rest := Join(tail, " ");
      var sp := [' '] + rest;
      assert Join(ws, " ") == w + sp;
      WordsOfWord(w, sp);
      WordsDropSpace(' ', rest);
      assert forall i :: 0 <= i < |tail| ==> tail[i] == ws[i + 1];
      WordsOfJoin(tail);
    }
  }

  function StripStart(s: string, c: char): (r: string)
    decreases |s|
  {
    if s != [] && s[0] == c then StripStart(s[1..], c) else s
  }

  function StripEnd(s: string, c: char): (r: string)
    decreases |s|
  {
    if s != [] && s[|s| - 1] == c then StripEnd(s[..|s| - 1], c) else s
  }

  /** `s.strip(c)`. */
  function StripChar(s: string, c: char): (r: string) {
    StripEnd(StripStart(s, c), c)
  }

  /** Whether a word is a stop word: `w.lower().strip(":") in STOP_WORDS`. */
  predicate IsStopWord(w: string) {
    StripChar(Lower(w), ':') in StopWords
  }

  function Significant(ws: seq<string>): (r: seq<string>) {
    Filter(ws, w => !IsStopWord(w))
  }

  /** The words the image title is made of: up to three significant ones, else the first two. */
  function ChosenWords(ws: seq<string>): (r: seq<string>) {
    var sig := Significant(ws);
    if sig != [] then sig[..if |sig| < 3 then |sig| else 3]
    else ws[..if |ws| < 2 then |ws| else 2]
  }

  /** `extract_title_from_frontmatter`. */
  function ExtractTitle(title: string): (r: string) {
    Upper(Join(ChosenWords(Words(title)), " "))
  }

  /**
   * The chosen words: when the title has a significant word, the first
   * min(3, n) of its n significant words, none a stop word; otherwise its
   * first two words (or fewer).
   */
  lemma ChosenWordsSpec(ws: seq<string>)
    ensures var r := ChosenWords(ws);
      |r| <= 3
      && (Significant(ws) != [] ==>
            |r| == (if |Significant(ws)| < 3 then |Significant(ws)| else 3)
            && r == Significant(ws)[..|r|]
            && forall i :: 0 <= i < |r| ==> r[i] in ws && !IsStopWord(r[i]))
      && (Significant(ws) == [] ==> r == ws[..|r|] && |r| == (if |ws| < 2 then |ws| else 2))
  {
    var sig := Significant(ws);
    forall x | x in sig
      ensures x in ws && !IsStopWord(x)
    {
      FilterMembers(ws, w => !IsStopWord(w), x);
    }
  }

  /** Every significant word really is a word of the title that is not a stop word, and conversely. */
  lemma SignificantMembers(ws: seq<string>, x: string)
    ensures x in Significant(ws) <==> x in ws && !IsStopWord(x)
  {
    FilterMembers(ws, w => !IsStopWord(w), x);
  }

  lemma {:induction false} UpperEmptyIff(s: string)
    ensures Upper(s) == [] <==> s == []
    decreases |s|
  {
    if s != [] {
      assert |UpperChar(s[0])| >= 1;
      assert Upper(s) == UpperChar(s[0]) + Upper(s[1..]);
    }
  }

  lemma JoinNonEmpty(ws: seq<string>, sep: string)
    requires ws != [] && ws[0] != []
    ensures Join(ws, sep) != []
  {
    if |ws| > 1 {
      assert Join(ws, sep) == ws[0] + sep + Join(ws[1..], sep);
    }
  }

  lemma ChosenFirstIsWord(ws: seq<string>)
    requires ws != [] && forall i :: 0 <= i < |ws| ==> IsWord(ws[i])
    ensures ChosenWords(ws) != [] && IsWord(ChosenWords(ws)[0])
  {
    var sig := Significant(ws);
    if sig != [] {
      SignificantMembers(ws, sig[0]);
    }
  }

  /** The image title is empty exactly when the post title has no words. */
  lemma TitleEmptyIff(title: string)
    ensures ExtractTitle(title) == "" <==> Words(title) == []
  {
    var ws := Words(title);
    var chosen := ChosenWords(ws);
    UpperEmptyIff(Join(chosen, " "));
    if ws != [] {
      WordsAreWords(title);
      ChosenFirstIsWord(ws);
      JoinNonEmpty(chosen, " ");
    }
  }

  /** A post without a title gets `TÍTULO`: `SIN` is a stop word. */
  lemma DefaultTitleExtracted()
    ensures ExtractTitle(DefaultTitle) == "T\U{CD}TULO"
  {
    var ws := ["SIN", "T\U{CD}TULO"];
    DefaultTitleWords();
    SinIsStopWord();
    TituloIsSignificant();
    assert Significant(ws) == Filter(ws[1..], w => !IsStopWord(w));
    assert ws[1..][1..] == [];
    assert ChosenWords(ws) == [ws[1]];
    UpperTitulo();
  }

  lemma DefaultTitleWords()
    ensures Words(DefaultTitle) == ["SIN", "T\U{CD}TULO"]
  {
    var ws := ["SIN", "T\U{CD}TULO"];
    assert Join(ws, " ") == DefaultTitle by {
      assert Join(ws[1..], " ") == "T\U{CD}TULO";
    }
    assert IsWord(ws[0]) && IsWord(ws[1]);
    WordsOfJoin(ws);
  }

  lemma SinIsStopWord()
    ensures IsStopWord("SIN")
  {
    LowerWord("SIN", "sin");
    StopWordVia("SIN", "sin");
    SinInStopWords();
  }

  lemma SinInStopWords()
    ensures "sin" in StopWords
  {
    assert "sin" in StopWords4;
  }

  lemma TituloIsSignificant()
    ensures !IsStopWord("T\U{CD}TULO")
  {
    LowerTitulo();
    StopWordVia("T\U{CD}TULO", "t\U{ED}tulo");
    TituloNotStop();
  }

  lemma LowerTitulo()
    ensures Lower("T\U{CD}TULO") == "t\U{ED}tulo"
  {
    LowerWord("T\U{CD}TULO", "t\U{ED}tulo");
  }

  /** `título` is in no row of the stop words; checked row by row. */
  lemma TituloNotStop()
    ensures "t\U{ED}tulo" !in StopWords
  {
    TituloNotStop1();
    TituloNotStop2();
    TituloNotStop3();
    TituloNotStop4();
    TituloNotStop5();
  }

  lemma TituloNotStop1() ensures "t\U{ED}tulo" !in StopWords1 { }
  lemma TituloNotStop2() ensures "t\U{ED}tulo" !in StopWords2 { }
  lemma TituloNotStop3() ensures "t\U{ED}tulo" !in StopWords3 { }
  lemma TituloNotStop4() ensures "t\U{ED}tulo" !in StopWords4 { }
  lemma TituloNotStop5() ensures "t\U{ED}tulo" !in StopWords5 { }

  lemma LowerWord(w: string, l: string)
    requires |w| == |l| && forall i :: 0 <= i < |w| ==> LowerChar(w[i]) == l[i]
    ensures Lower(w) == l
  {
  }

  /** A word whose lowered form has no colon at either end is a stop word iff that form is one. */
  lemma StopWordVia(w: string, l: string)
    requires Lower(w) == l && l != [] && l[0] != ':' && l[|l| - 1] != ':'
    ensures IsStopWord(w) <==> l in StopWords
  {
    assert StripChar(l, ':') == l;
  }

  lemma UpperTitulo()
    ensures Upper("T\U{CD}TULO") == "T\U{CD}TULO"
  {
    var t := "T\U{CD}TULO";
    assert Upper(t[5..]) == "O";
    assert Upper(t[4..]) == "LO";
    assert Upper(t[3..]) == "ULO";
    assert Upper(t[2..]) == "TULO";
    assert Upper(t[1..]) == "\U{CD}TULO";
  }

  /** The image title has no lower-case ASCII letter. */
  lemma TitleIsUpperCase(title: string)
    ensures forall i :: 0 <= i < |ExtractTitle(title)| ==> !('a' <= ExtractTitle(title)[i] <= 'z')
  {
    UpperHasNoAsciiLower(Join(ChosenWords(Words(title)), " "));
  }

  // ---------------------------------------------------------------------------
  // truncate_subtitle
  // ---------------------------------------------------------------------------

  const Ellipsis: char := '\U{2026}'

  /** `truncate_subtitle`: at most `maxLen` characters, else cut at the last space and marked with `…`. */
  function TruncateSubtitle(text: string, maxLen: nat := 45): (r: string)
    ensures |text| <= maxLen ==> r == text
    ensures |text| > maxLen ==> |r| >= 1 && r[|r| - 1] == Ellipsis
    ensures |text| > maxLen ==>
      var t := text[..maxLen];
      var kept := r[..|r| - 1];
      |kept| <= maxLen && kept == t[..|kept|]
      && (|kept| < maxLen ==> t[|kept|] == ' ' && ' ' !in t[|kept| + 1..])
      && (|kept| == maxLen ==> ' ' !in t)
  {
    if |text| <= maxLen then text
    else
      var t := text[..maxLen];
      var kept := match LastIndexOf(t, ' ')
        case Some(i) => t[..i]
        case None => t;
      assert (kept + [Ellipsis])[..|kept|] == kept;
      kept + [Ellipsis]
  }

  /** A truncated subtitle is never more than one character longer than `maxLen`, and starts with a prefix of the text. */
  lemma TruncateBounds(text: string, maxLen: nat)
    ensures |TruncateSubtitle(text, maxLen)| <= maxLen + 1
    ensures |text| > maxLen ==> var r := TruncateSubtitle(text, maxLen); StartsWith(text, r[..|r| - 1])
  {
  }

  // ---------------------------------------------------------------------------
  // tags_to_tree
  // ---------------------------------------------------------------------------

  /** The tree connectors `└──` and `├──`. */
  const LastBranch: string := "\U{2514}\U{2500}\U{2500}"
  const MidBranch: string := "\U{251C}\U{2500}\U{2500}"

  /** The tree shown for a post without tags. */
  const NoTagsTree: seq<string> := [LastBranch + " (sin tags)"]

  /** The tree line for tag `i` of `n` shown. */
  function TreeLine(tag: string, i: nat, n: nat): string {
    (if i == n - 1 then LastBranch else MidBranch) + " " + Lower(tag)
  }

  /** The tree for a list of tags: the first three, lowered, the last with `└──`. */
  function TreeItems(tags: seq<string>): (r: seq<string>)
  {
    if tags == [] then NoTagsTree
    else
      var n := if |tags| < 3 then |tags| else 3;
      seq(n, i requires 0 <= i < n => TreeLine(tags[i], i, n))
  }

  /** `tags_to_tree`. */
  method TagsToTree(tags: seq<string>) returns (items: seq<string>)
    ensures items == TreeItems(tags)
  {
    if tags == [] {
      return NoTagsTree;
    }
    var top := tags[..if |tags| < 3 then |tags| else 3];
    items := [];
    for i := 0 to |top|
      invariant |items| == i
      invariant forall k :: 0 <= k < i ==> items[k] == TreeLine(tags[k], k, |top|)
    {
      var prefix := if i == |top| - 1 then LastBranch else MidBranch;
      items := items + [prefix + " " + Lower(top[i])];
    }
  }

  /**
   * The tree has one line per shown tag, at most three, each the lowered tag
   * after `├── `, except the last, which uses `└── `.
   */
  lemma TreeItemsShape(tags: seq<string>)
    requires tags != []
    ensures var r := TreeItems(tags);
      |r| == (if |tags| < 3 then |tags| else 3)
      && (forall i :: 0 <= i < |r| - 1 ==> r[i] == MidBranch + " " + Lower(tags[i]))
      && r[|r| - 1] == LastBranch + " " + Lower(tags[|r| - 1])
  {
  }

  // ---------------------------------------------------------------------------
  // article_from_frontmatter
  // ---------------------------------------------------------------------------

  /**
   * A cover image to draw: file name, title, subtitle, category and tree
   * lines. The category is whatever the frontmatter holds, so a boolean
   * `category:` line is carried along as a boolean.
   */
  datatype Article = Article(filename: string, title: string, subtitle: string, category: FmValue, tree: seq<string>)

  /** The title used when a post has none. */
  const DefaultTitle: string := "SIN T\U{CD}TULO"

  /** `os.path.basename`: what follows the last `/`. */
  function Basename(p: string): (r: string)
    ensures '/' !in r && EndsWith(p, r)
  {
    match LastIndexOf(p, '/')
    case Some(i) => p[i + 1..]
    case None => p
  }

  lemma BasenameOfPath(dir: string, name: string)
    requires '/' !in name
    ensures Basename(dir + "/" + name) == name
  {
    var p := dir + "/" + name;
    assert p[|dir|] == '/';
    var r := LastIndexOf(p, '/');
    if r.None? {
      assert false;
    } else if r.value < |dir| {
      assert false;
    } else if r.value > |dir| {
      assert false;
    }
    assert p[|dir| + 1..] == name;
  }

  /** `_CATALOG_INDEX`: each catalog file name mapped to its last entry. */
  function CatalogIndex(catalog: seq<Article>): (idx: map<string, Article>)
    decreases |catalog|
  {
    if catalog == [] then map[]
    else
      var last := catalog[|catalog| - 1];
      CatalogIndex(catalog[..|catalog| - 1])[last.filename := last]
  }

  /** A name is indexed exactly when some entry has it. */
  lemma {:induction false} CatalogIndexKeys(catalog: seq<Article>, name: string)
    ensures name in CatalogIndex(catalog) <==> exists i :: 0 <= i < |catalog| && catalog[i].filename == name
    decreases |catalog|
  {
    if catalog != [] {
      var init := catalog[..|catalog| - 1];
      CatalogIndexKeys(init, name);
      assert forall i :: 0 <= i < |init| ==> init[i] == catalog[i];
    }
  }

  /** Entry `i` is the last one of the catalog named `name`. */
  predicate LastNamed(catalog: seq<Article>, i: nat, name: string) {
    i < |catalog| && catalog[i].filename == name
    && forall j :: i < j < |catalog| ==> catalog[j].filename != name
  }

  /** An indexed name maps to the last entry with that name. */
  lemma {:induction false} CatalogIndexLast(catalog: seq<Article>, name: string)
    requires name in CatalogIndex(catalog)
    ensures exists i: nat :: LastNamed(catalog, i, name) && CatalogIndex(catalog)[name] == catalog[i]
    decreases |catalog|
  {
    var n := |catalog| - 1;
    if catalog[n].filename != name {
      var init := catalog[..n];
      CatalogIndexLast(init, name);
      var i: nat :| LastNamed(init, i, name) && CatalogIndex(init)[name] == init[i];
      assert init[i] == catalog[i];
      assert forall j :: i < j < n ==> catalog[j] == init[j];
      assert LastNamed(catalog, i, name);
    } else {
      assert LastNamed(catalog, n, name);
    }
  }

  /** The stored value under `key`, or `default`: `fm.get(key, default)`. */
  function Get(fm: map<string, FmValue>, key: string, default: FmValue): FmValue {
    if key in fm then fm[key] else default
  }

  /**
   * The image a post names: none when `image` is missing or falsy, its base
   * name when it is a string, and the `TypeError` of `os.path.basename`
   * when it is `true`.
   */
  function ImageName(fm: map<string, FmValue>): (r: Result<Option<string>, string>)
    ensures r == Ok(None) <==> !Truthy(Get(fm, "image", Str("")))
    ensures r.Ok? && r.value.Some? ==> Get(fm, "image", Str("")).Str? && r.value.value == Basename(Get(fm, "image", Str("")).s)
    ensures r.Err? <==> Truthy(Get(fm, "image", Str(""))) && !Get(fm, "image", Str("")).Str?
  {
    match Get(fm, "image", Str(""))
    case Str(s) => if s == [] then Ok(None) else Ok(Some(Basename(s)))
    case Bool(b) => if b then Err("TypeError: expected str, bytes or os.PathLike object, not bool") else Ok(None)
    case Tags(items) => if items == [] then Ok(None) else Err("TypeError: expected str, bytes or os.PathLike object, not list")
  }

  /** The cover an uncatalogued post gets from its own frontmatter. */
  function DerivedArticle(fm: map<string, FmValue>, filename: string): (r: Result<Article, string>)
  {
    match Get(fm, "title", Str(DefaultTitle))
    case Bool(_) => Err("AttributeError: 'bool' object has no attribute 'split'")
    case Tags(_) => Err("AttributeError: 'list' object has no attribute 'split'")
    case Str(title) =>
      match Get(fm, "description", Str(""))
      case Bool(_) => Err("TypeError: object of type 'bool' has no len()")
      case Tags(_) => Err("TypeError: the description is a list")
      case Str(description) =>
        var tags := match Get(fm, "tags", Tags([])) case Tags(ts) => ts case _ => [];
        Ok(Article(filename, ExtractTitle(title), TruncateSubtitle(description),
                   Get(fm, "category", Str("Linux")), TreeItems(tags)))
  }

  /**
   * `article_from_frontmatter`: nothing without an image; the catalog entry
   * for the image's base name when there is one; otherwise the cover derived
   * from the post's title, description, category and tags.
   */
  function ArticleFromFrontmatter(fm: map<string, FmValue>, catalog: seq<Article>)
    : (r: Result<Option<Article>, string>)
    requires WellFormed(fm)
    ensures r == Ok(None) <==> !Truthy(Get(fm, "image", Str("")))
    ensures r.Ok? && r.value.Some? ==> ImageName(fm) == Ok(Some(r.value.value.filename))
  {
    match ImageName(fm)
    case Err(e) => Err(e)
    case Ok(None) => Ok(None)
    case Ok(Some(filename)) =>
      var index := CatalogIndex(catalog);
      if filename in index then
        CatalogFilename(catalog, filename);
        Ok(Some(index[filename]))
      else
        match DerivedArticle(fm, filename)
        case Err(e) => Err(e)
        case Ok(a) => Ok(Some(a))
  }

  lemma CatalogFilename(catalog: seq<Article>, name: string)
    requires name in CatalogIndex(catalog)
    ensures CatalogIndex(catalog)[name].filename == name
  {
    CatalogIndexLast(catalog, name);
  }

  /** A catalogued image overrides whatever the post says. */
  lemma CatalogOverrides(fm: map<string, FmValue>, catalog: seq<Article>, name: string)
    requires WellFormed(fm) && ImageName(fm) == Ok(Some(name)) && name in CatalogIndex(catalog)
    ensures ArticleFromFrontmatter(fm, catalog) == Ok(Some(CatalogIndex(catalog)[name]))
  {
  }

  /**
   * An uncatalogued post with string title and description gets a derived
   * cover; a missing title, description, category or tag list falls back to
   * the image title `TÍTULO` (from `SIN TÍTULO`), `""`, `Linux` and the
   * no-tags tree.
   */
  lemma DerivedDefaults(fm: map<string, FmValue>, catalog: seq<Article>, name: string)
    requires WellFormed(fm) && ImageName(fm) == Ok(Some(name)) && name !in CatalogIndex(catalog)
    requires Get(fm, "title", Str(DefaultTitle)).Str? && Get(fm, "description", Str("")).Str?
    ensures var r := ArticleFromFrontmatter(fm, catalog);
      r.Ok? && r.value.Some? && r.value.value.filename == name
      && ("title" !in fm ==> r.value.value.title == "T\U{CD}TULO")
      && ("description" !in fm ==> r.value.value.subtitle == "")
      && ("category" !in fm ==> r.value.value.category == Str("Linux"))
      && ("tags" !in fm ==> r.value.value.tree == NoTagsTree)
  {
    DefaultTitleExtracted();
  }

  /** A post whose image is `true` makes `os.path.basename` fail. */
  lemma TrueImageFails(fm: map<string, FmValue>, catalog: seq<Article>)
    requires WellFormed(fm) && "image" in fm && fm["image"] == Bool(true)
    ensures ArticleFromFrontmatter(fm, catalog).Err?
  {
  }

  // ---------------------------------------------------------------------------
  // The commands' list and set computations
  // ---------------------------------------------------------------------------

  /** The `--category` filter of `cmd_list`, `cmd_auto` and `cmd_catalog`; an empty value filters nothing. */
  function FilterByCategory(articles: seq<Article>, category: Option<string>): (r: seq<Article>)
    ensures category.None? || category.value == "" ==> r == articles
  {
    if category.Some? && category.value != "" then
      Filter(articles, (a: Article) => a.category == Str(category.value))
    else articles
  }

  /** With a category given, exactly the entries of that category are kept. */
  lemma FilterByCategoryMembers(articles: seq<Article>, c: string, a: Article)
    requires c != ""
    ensures a in FilterByCategory(articles, Some(c)) <==> a in articles && a.category == Str(c)
  {
    FilterMembers(articles, (x: Article) => x.category == Str(c), a);
  }

  /** What each file of the content directory says about its image. */
  function Images(read: map<string, string>): (m: map<string, Result<Option<string>, string>>)
    ensures m.Keys == read.Keys
  {
    map n | n in read :: ImageName(Frontmatter(read[n]))
  }

  /** What the first loop of `cmd_check` collects. */
  datatype Scan = Scan(referenced: map<string, string>, withoutImage: seq<string>)

  /** The `.md` names of `names` all have an entry in `m`. */
  predicate PostsIn<V>(names: seq<string>, m: map<string, V>) {
    forall i :: 0 <= i < |names| && EndsWith(names[i], ".md") ==> names[i] in m
  }

  /** The first loop of `cmd_check` over the sorted listing `names`, given what each post says about its image. */
  function CheckScan(names: seq<string>, images: map<string, Result<Option<string>, string>>): (r: Result<Scan, string>)
    requires PostsIn(names, images)
    decreases |names|
  {
    if names == [] then Ok(Scan(map[], []))
    else
      var n := names[|names| - 1];
      match CheckScan(names[..|names| - 1], images)
      case Err(e) => Err(e)
      case Ok(sc) => ScanStep(sc, n, images)
  }

  /** One iteration of the scan on the name `n`. */
  function ScanStep(sc: Scan, n: string, images: map<string, Result<Option<string>, string>>): Result<Scan, string>
    requires EndsWith(n, ".md") ==> n in images
  {
    if !EndsWith(n, ".md") then Ok(sc)
    else
      match images[n]
      case Err(e) => Err(e)
      case Ok(Some(f)) => Ok(Scan(sc.referenced[f := n], sc.withoutImage))
      case Ok(None) => Ok(Scan(sc.referenced, sc.withoutImage + [n]))
  }

  /** The scan of a prefix one name longer. */
  lemma CheckScanSnoc(names: seq<string>, images: map<string, Result<Option<string>, string>>, i: nat)
    requires PostsIn(names, images) && i < |names|
    ensures PostsIn(names[..i], images) && PostsIn(names[..i + 1], images)
    ensures var prev := CheckScan(names[..i], images);
      CheckScan(names[..i + 1], images) == if prev.Err? then prev else ScanStep(prev.value, names[i], images)
  {
    assert names[..i + 1][..i] == names[..i];
  }

  /** A post with an image of the wrong type stops the scan. */
  lemma {:induction false} CheckScanFails(names: seq<string>, images: map<string, Result<Option<string>, string>>, k: nat)
    requires PostsIn(names, images)
    requires k <= |names| && CheckScan(names[..k], images).Err?
    ensures CheckScan(names, images) == CheckScan(names[..k], images)
    decreases |names|
  {
    if k < |names| {
      var init := names[..|names| - 1];
      assert init[..k] == names[..k];
      CheckScanFails(init, images, k);
    } else {
      assert names[..k] == names;
    }
  }

  /** A referenced image is named by some post, and each image a post names is referenced. */
  lemma {:induction false} CheckScanReferenced(names: seq<string>, images: map<string, Result<Option<string>, string>>, f: string)
    requires PostsIn(names, images)
    requires CheckScan(names, images).Ok?
    ensures f in CheckScan(names, images).value.referenced <==>
      exists i :: 0 <= i < |names| && EndsWith(names[i], ".md") && images[names[i]] == Ok(Some(f))
    decreases |names|
  {
    if names != [] {
      var init := names[..|names| - 1];
      CheckScanReferenced(init, images, f);
      assert forall i :: 0 <= i < |init| ==> init[i] == names[i];
    }
  }

  /** A referenced image points at the last post (in listing order) that names it. */
  lemma {:induction false} CheckScanLastPost(names: seq<string>, images: map<string, Result<Option<string>, string>>, i: nat, f: string)
    requires PostsIn(names, images)
    requires CheckScan(names, images).Ok?
    requires i < |names| && EndsWith(names[i], ".md") && images[names[i]] == Ok(Some(f))
    requires forall j :: i < j < |names| && EndsWith(names[j], ".md") ==> images[names[j]] != Ok(Some(f))
    ensures f in CheckScan(names, images).value.referenced
    ensures CheckScan(names, images).value.referenced[f] == names[i]
    decreases |names|
  {
    var init := names[..|names| - 1];
    if i < |names| - 1 {
      assert forall j :: 0 <= j < |init| ==> init[j] == names[j];
      CheckScanLastPost(init, images, i, f);
    }
  }

  /** The posts listed as without image are the `.md` posts whose image is missing or empty, in order. */
  lemma {:induction false} CheckScanWithoutImage(names: seq<string>, images: map<string, Result<Option<string>, string>>)
    requires PostsIn(names, images)
    requires CheckScan(names, images).Ok?
    ensures CheckScan(names, images).value.withoutImage ==
      Filter(names, (n: string) => EndsWith(n, ".md") && n in images && images[n] == Ok(None))
    decreases |names|
  {
    if names != [] {
      var init := names[..|names| - 1];
      CheckScanWithoutImage(init, images);
      FilterSnoc(names, (n: string) => EndsWith(n, ".md") && n in images && images[n] == Ok(None));
    }
  }

  lemma {:induction false} FilterSnoc<T>(s: seq<T>, p: T -> bool)
    requires s != []
    ensures Filter(s, p) ==
      Filter(s[..|s| - 1], p) + (if p(s[|s| - 1]) then [s[|s| - 1]] else [])
    decreases |s|
  {
    if |s| == 1 {
      assert s[..0] == [];
    } else {
      var t := s[1..];
      FilterSnoc(t, p);
      assert t[..|t| - 1] == s[..|s| - 1][1..];
      assert s[..|s| - 1][0] == s[0];
      assert t[|t| - 1] == s[|s| - 1];
    }
  }

  /** The `.jpg` names of the output directory, none when it does not exist. */
  function JpgFiles(outDir: Option<seq<string>>): (r: set<string>)
    ensures forall f :: f in r ==> EndsWith(f, ".jpg") && outDir.Some? && f in outDir.value
  {
    if outDir.None? then {} else set f | f in outDir.value && EndsWith(f, ".jpg")
  }

  /** The three results `cmd_check` reports. */
  datatype CheckReport = CheckReport(missing: map<string, string>, orphans: set<string>, withoutImage: seq<string>)

  /** Every `.md` name of the listing can be read, so every `.md` name of the sorted listing has an image entry. */
  lemma PostsInSorted(listing: seq<string>, read: map<string, string>)
    requires forall n :: n in listing && EndsWith(n, ".md") ==> n in read
    ensures PostsIn(Sort(listing), Images(read))
  {
    var s := Sort(listing);
    var images := Images(read);
    forall i | 0 <= i < |s| && EndsWith(s[i], ".md")
      ensures s[i] in images
    {
      assert s[i] in multiset(s);
      assert s[i] in multiset(listing);
      assert s[i] in listing;
    }
  }

  /** The first loop of `cmd_check`: parse each post of `names` and record the image it names. */
  method ScanPosts(names: seq<string>, read: map<string, string>) returns (r: Result<Scan, string>)
    requires PostsIn(names, Images(read))
    ensures r == CheckScan(names, Images(read))
  {
    ghost var images := Images(read);
    var referenced: map<string, string> := map[];
    var withoutImage: seq<string> := [];
    for i := 0 to |names|
      invariant CheckScan(names[..i], images) == Ok(Scan(referenced, withoutImage))
    {
      var fname := names[i];
      CheckScanSnoc(names, images, i);
      if EndsWith(fname, ".md") {
        var fm := ParseFrontmatter(read[fname]);
        var image := ImageName(fm);
        assert image == images[fname];
        if image.Err? {
          CheckScanFails(names, images, i + 1);
          return Err(image.error);
        }
        match image.value {
          case Some(f) =>
            referenced := referenced[f := fname];
          case None =>
            withoutImage := withoutImage + [fname];
        }
      }
    }
    assert names[..|names|] == names;
    return Ok(Scan(referenced, withoutImage));
  }

  /**
   * `cmd_check` without its output: `listing` is the content directory,
   * `read` the contents of its files, `outDir` the listing of the image
   * directory if it exists. It scans the sorted listing, then compares the
   * referenced images with the `.jpg` files on disk.
   */
  method CmdCheck(listing: seq<string>, read: map<string, string>, outDir: Option<seq<string>>)
    returns (r: Result<CheckReport, string>)
    requires forall n :: n in listing && EndsWith(n, ".md") ==> n in read
    ensures PostsIn(Sort(listing), Images(read))
    ensures r.Err? <==> CheckScan(Sort(listing), Images(read)).Err?
    ensures r.Ok? ==>
      var sc := CheckScan(Sort(listing), Images(read)).value;
      var existing := JpgFiles(outDir);
      r.value.withoutImage == sc.withoutImage
      && (forall f :: f in r.value.missing <==> f in sc.referenced && f !in existing)
      && (forall f :: f in r.value.missing ==> r.value.missing[f] == sc.referenced[f])
      && r.value.orphans == existing - sc.referenced.Keys
    ensures r.Ok? ==> r.value.missing.Keys !! JpgFiles(outDir)
    ensures r.Ok? ==> forall o :: o in r.value.orphans ==> EndsWith(o, ".jpg") && outDir.Some? && o in outDir.value
  {
    var names := Sort(listing);
    PostsInSorted(listing, read);
    var scan := ScanPosts(names, read);
    if scan.Err? {
      return Err(scan.error);
    }
    var referenced := scan.value.referenced;
    var existing := JpgFiles(outDir);
    var missing := map f | f in referenced && f !in existing :: referenced[f];
    var orphans := existing - referenced.Keys;
    return Ok(CheckReport(missing, orphans, scan.value.withoutImage));
  }

  /** What `cmd_auto` takes from each file of the content directory: nothing for a draft, else `article_from_frontmatter`. */
  function AutoEntries(read: map<string, string>, catalog: seq<Article>): (m: map<string, Result<Option<Article>, string>>)
    ensures m.Keys == read.Keys
    ensures forall n :: n in read && Truthy(Get(Frontmatter(read[n]), "draft", Bool(false))) ==> m[n] == Ok(None)
  {
    map n | n in read ::
      var fm := Frontmatter(read[n]);
      if Truthy(Get(fm, "draft", Bool(false))) then Ok(None) else ArticleFromFrontmatter(fm, catalog)
  }

  /** The first loop of `cmd_auto` over the sorted listing `names`. */
  function AutoCollect(names: seq<string>, entries: map<string, Result<Option<Article>, string>>): (r: Result<seq<Article>, string>)
    requires PostsIn(names, entries)
    decreases |names|
  {
    if names == [] then Ok([])
    else
      match AutoCollect(names[..|names| - 1], entries)
      case Err(e) => Err(e)
      case Ok(articles) => AutoStep(articles, names[|names| - 1], entries)
  }

  /** One iteration of that loop on the name `n`. */
  function AutoStep(articles: seq<Article>, n: string, entries: map<string, Result<Option<Article>, string>>)
    : Result<seq<Article>, string>
    requires EndsWith(n, ".md") ==> n in entries
  {
    if !EndsWith(n, ".md") then Ok(articles)
    else
      match entries[n]
      case Err(e) => Err(e)
      case Ok(None) => Ok(articles)
      case Ok(Some(a)) => Ok(articles + [a])
  }

  lemma AutoCollectSnoc(names: seq<string>, entries: map<string, Result<Option<Article>, string>>, i: nat)
    requires PostsIn(names, entries) && i < |names|
    ensures PostsIn(names[..i], entries) && PostsIn(names[..i + 1], entries)
    ensures var prev := AutoCollect(names[..i], entries);
      AutoCollect(names[..i + 1], entries) == if prev.Err? then prev else AutoStep(prev.value, names[i], entries)
  {
    assert names[..i + 1][..i] == names[..i];
  }

  /** An exception while reading a post ends the command with that exception. */
  lemma {:induction false} AutoCollectFails(names: seq<string>, entries: map<string, Result<Option<Article>, string>>, k: nat)
    requires PostsIn(names, entries)
    requires k <= |names| && AutoCollect(names[..k], entries).Err?
    ensures AutoCollect(names, entries) == AutoCollect(names[..k], entries)
    decreases |names|
  {
    if k < |names| {
      var init := names[..|names| - 1];
      assert init[..k] == names[..k];
      AutoCollectFails(init, entries, k);
    } else {
      assert names[..k] == names;
    }
  }

  /** The collected covers are exactly those of the `.md` posts that yield one (so never a draft's). */
  lemma {:induction false} AutoCollectMembers(names: seq<string>, entries: map<string, Result<Option<Article>, string>>, a: Article)
    requires PostsIn(names, entries)
    requires AutoCollect(names, entries).Ok?
    ensures a in AutoCollect(names, entries).value <==>
      exists i :: 0 <= i < |names| && EndsWith(names[i], ".md") && entries[names[i]] == Ok(Some(a))
    decreases |names|
  {
    if names != [] {
      var init := names[..|names| - 1];
      AutoCollectMembers(init, entries, a);
      assert forall i :: 0 <= i < |init| ==> init[i] == names[i];
    }
  }

  /** A draft post contributes no cover. */
  lemma DraftsSkipped(names: seq<string>, read: map<string, string>, catalog: seq<Article>, a: Article)
    requires PostsIn(names, read)
    requires forall i :: 0 <= i < |names| && EndsWith(names[i], ".md") ==> Truthy(Get(Frontmatter(read[names[i]]), "draft", Bool(false)))
    ensures PostsIn(names, AutoEntries(read, catalog))
    ensures AutoCollect(names, AutoEntries(read, catalog)) == Ok([])
  {
    var entries := AutoEntries(read, catalog);
    if AutoCollect(names, entries).Ok? {
      if AutoCollect(names, entries).value != [] {
        var b := AutoCollect(names, entries).value[0];
        AutoCollectMembers(names, entries, b);
      }
    } else {
      DraftsCannotFail(names, entries);
    }
  }

  lemma {:induction false} DraftsCannotFail(names: seq<string>, entries: map<string, Result<Option<Article>, string>>)
    requires PostsIn(names, entries)
    requires forall i :: 0 <= i < |names| && EndsWith(names[i], ".md") ==> entries[names[i]].Ok?
    ensures AutoCollect(names, entries).Ok?
    decreases |names|
  {
    if names != [] {
      var init := names[..|names| - 1];
      assert forall i :: 0 <= i < |init| ==> init[i] == names[i];
      DraftsCannotFail(init, entries);
    }
  }

  /** The first loop of `cmd_auto`: parse each post and keep the covers of those that are not drafts. */
  method CollectArticles(names: seq<string>, read: map<string, string>, catalog: seq<Article>)
    returns (r: Result<seq<Article>, string>)
    requires PostsIn(names, AutoEntries(read, catalog))
    ensures r == AutoCollect(names, AutoEntries(read, catalog))
  {
    ghost var entries := AutoEntries(read, catalog);
    var articles: seq<Article> := [];
    for i := 0 to |names|
      invariant AutoCollect(names[..i], entries) == Ok(articles)
    {
      var fname := names[i];
      AutoCollectSnoc(names, entries, i);
      if EndsWith(fname, ".md") {
        var fm := ParseFrontmatter(read[fname]);
        if !Truthy(Get(fm, "draft", Bool(false))) {
          var article := ArticleFromFrontmatter(fm, catalog);
          assert article == entries[fname];
          if article.Err? {
            AutoCollectFails(names, entries, i + 1);
            return Err(article.error);
          }
          if article.value.Some? {
            articles := articles + [article.value.value];
          }
        }
      }
    }
    assert names[..|names|] == names;
    return Ok(articles);
  }

  /**
   * The base names whose path in the output directory is the directory
   * itself or its parent; `os.path.basename` gives `""` for an image path
   * ending in `/`.
   */
  const DirectoryNames: set<string> := {"", ".", ".."}

  /**
   * `os.path.exists(os.path.join(OUT_DIR, f))` once `os.makedirs` has created
   * the output directory: `onDisk` holds the names of its entries, whatever
   * their extension, and the directory and its parent always exist.
   */
  predicate Exists(f: string, onDisk: set<string>) {
    f in onDisk || f in DirectoryNames
  }

  /**
   * The file names the second loop of `cmd_auto` writes, in order, starting
   * from the entries `onDisk` of the output directory: a cover whose path
   * exists is skipped unless `force`, and each written file exists from
   * then on.
   */
  function Generated(articles: seq<Article>, onDisk: set<string>, force: bool): (r: seq<string>)
    ensures |r| <= |articles|
    decreases |articles|
  {
    if articles == [] then []
    else
      var f := articles[0].filename;
      if Exists(f, onDisk) && !force then Generated(articles[1..], onDisk, force)
      else [f] + Generated(articles[1..], onDisk + {f}, force)
  }

  /** The file names of a list of covers. */
  function Filenames(articles: seq<Article>): (r: seq<string>)
    ensures |r| == |articles| && forall i :: 0 <= i < |r| ==> r[i] == articles[i].filename
  {
    seq(|articles|, i requires 0 <= i < |articles| => articles[i].filename)
  }

  /** With `--force` every cover is written and none is skipped. */
  lemma {:induction false} ForceGeneratesAll(articles: seq<Article>, onDisk: set<string>)
    ensures Generated(articles, onDisk, true) == Filenames(articles)
    decreases |articles|
  {
    if articles != [] {
      ForceGeneratesAll(articles[1..], onDisk + {articles[0].filename});
      assert Filenames(articles) == [articles[0].filename] + Filenames(articles[1..]);
    }
  }

  /**
   * Without `--force` the written files are distinct, none of them existed,
   * and every cover whose path did not exist is written.
   */
  lemma {:induction false} NoForceGeneratesMissing(articles: seq<Article>, onDisk: set<string>, f: string)
    ensures Distinct(Generated(articles, onDisk, false))
    ensures f in Generated(articles, onDisk, false) <==> !Exists(f, onDisk) && f in Filenames(articles)
    decreases |articles|
  {
    if articles != [] {
      var g := articles[0].filename;
      var rest := articles[1..];
      assert Filenames(articles) == [g] + Filenames(rest);
      if Exists(g, onDisk) {
        NoForceGeneratesMissing(rest, onDisk, f);
      } else {
        NoForceGeneratesMissing(rest, onDisk + {g}, f);
        NoForceGeneratesMissing(rest, onDisk + {g}, g);
        var tail := Generated(rest, onDisk + {g}, false);
        var r := [g] + tail;
        forall i, j | 0 <= i < j < |r| ensures r[i] != r[j] {
          if i == 0 {
            assert r[j] == tail[j - 1];
          } else {
            assert r[i] == tail[i - 1] && r[j] == tail[j - 1];
          }
        }
      }
    }
  }

  /** The second loop of `cmd_auto`: write each cover whose file is absent, or every cover with `force`. */
  method WriteCovers(articles: seq<Article>, onDisk: set<string>, force: bool)
    returns (written: seq<string>, skipped: nat, disk: set<string>)
    ensures written == Generated(articles, onDisk, force)
    ensures |written| + skipped == |articles|
    ensures disk == onDisk + set f | f in written
  {
    disk := onDisk;
    written := [];
    skipped := 0;
    for i := 0 to |articles|
      invariant written + Generated(articles[i..], disk, force) == Generated(articles, onDisk, force)
      invariant disk == onDisk + set f | f in written
      invariant |written| + skipped == i
    {
      var a := articles[i];
      GeneratedFrom(articles, i, disk, force);
      if Exists(a.filename, disk) && !force {
        skipped := skipped + 1;
      } else {
        FilesAppend(written, a.filename);
        disk := disk + {a.filename};
        written := written + [a.filename];
      }
    }
    assert articles[|articles|..] == [];
  }

  /** The covers from the `i`-th on: the `i`-th cover is skipped or written, then the rest follow. */
  lemma GeneratedFrom(articles: seq<Article>, i: nat, disk: set<string>, force: bool)
    requires i < |articles|
    ensures var f := articles[i].filename;
      Generated(articles[i..], disk, force)
        == if Exists(f, disk) && !force then Generated(articles[i + 1..], disk, force)
           else [f] + Generated(articles[i + 1..], disk + {f}, force)
  {
    assert articles[i..][0] == articles[i] && articles[i..][1..] == articles[i + 1..];
  }

  /**
   * An image path ending in `/`, `/.` or `/..` names the output directory or
   * its parent, which exists, so without `--force` its cover is skipped.
   */
  lemma DirectoryNameSkipped(articles: seq<Article>, onDisk: set<string>, i: nat)
    requires i < |articles| && articles[i].filename in DirectoryNames
    ensures articles[i].filename !in Generated(articles, onDisk, false)
  {
    NoForceGeneratesMissing(articles, onDisk, articles[i].filename);
  }

  lemma FilesAppend(written: seq<string>, f: string)
    ensures (set g | g in written + [f]) == (set g | g in written) + {f}
  {
  }

  /** What `cmd_auto` reports: the files written, the number skipped, the total, and the output directory's entries now. */
  datatype AutoReport = AutoReport(generated: seq<string>, skipped: nat, total: nat, onDisk: set<string>)

  /**
   * `cmd_auto`: collect the covers of the sorted listing's posts, filter them
   * by category, then write each whose file is absent (or all with `force`).
   */
  method CmdAuto(listing: seq<string>, read: map<string, string>, catalog: seq<Article>,
                 category: Option<string>, onDisk: set<string>, force: bool)
    returns (r: Result<AutoReport, string>)
    requires forall n :: n in listing && EndsWith(n, ".md") ==> n in read
    ensures PostsIn(Sort(listing), AutoEntries(read, catalog))
    ensures r.Err? <==> AutoCollect(Sort(listing), AutoEntries(read, catalog)).Err?
    ensures r.Ok? ==>
      var articles := FilterByCategory(AutoCollect(Sort(listing), AutoEntries(read, catalog)).value, category);
      r.value.generated == Generated(articles, onDisk, force)
      && r.value.total == |articles|
      && r.value.onDisk == onDisk + set f | f in r.value.generated
    ensures r.Ok? ==> |r.value.generated| + r.value.skipped == r.value.total
  {
    var names := Sort(listing);
    PostsInSorted(listing, read);
    var collected := CollectArticles(names, read, catalog);
    if collected.Err? {
      return Err(collected.error);
    }
    var articles := FilterByCategory(collected.value, category);
    var written, skipped, disk := WriteCovers(articles, onDisk, force);
    return Ok(AutoReport(written, skipped, |articles|, disk));
  }

  /**
   * `cmd_catalog`'s selection: the catalog filtered by category, then by the
   * file names given on the command line; exit status 1 when names were
   * given and none is in the catalog.
   */
  function CatalogSelection(catalog: seq<Article>, category: Option<string>, files: seq<string>)
    : (r: Result<seq<Article>, string>)
    ensures files == [] ==> r == Ok(FilterByCategory(catalog, category))
    ensures r.Err? ==> files != [] && StartsWith(r.error, "No se encontraron art\U{ED}culos para: ")
  {
    var articles := FilterByCategory(catalog, category);
    if files == [] then Ok(articles)
    else
      var chosen := Filter(articles, (a: Article) => a.filename in files);
      if chosen == [] then Err("No se encontraron art\U{ED}culos para: " + Join(files, ", ")) else Ok(chosen)
  }

  /** The selection fails exactly when names are given and no entry of the category has one of them; otherwise it holds exactly those entries. */
  lemma CatalogSelectionMembers(catalog: seq<Article>, category: Option<string>, files: seq<string>, a: Article)
    requires files != []
    ensures CatalogSelection(catalog, category, files).Err? <==>
      forall b :: b in FilterByCategory(catalog, category) ==> b.filename !in files
    ensures CatalogSelection(catalog, category, files).Ok? ==>
      (a in CatalogSelection(catalog, category, files).value <==> a in FilterByCategory(catalog, category) && a.filename in files)
  {
    var articles := FilterByCategory(catalog, category);
    var p := (b: Article) => b.filename in files;
    FilterMembers(articles, p, a);
    var chosen := Filter(articles, p);
    if chosen != [] {
      FilterMembers(articles, p, chosen[0]);
    } else {
      forall b | b in articles ensures b.filename !in files {
        FilterMembers(articles, p, b);
      }
    }
  }
}
