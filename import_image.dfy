/**
 * The image-import helpers: listing the posts of the content directory, the
 * resize and size arithmetic of the WebP conversion, and the embed snippet.
 */
module ImportImage {
  import opened Wrappers
  import opened Text

  /** The default `max_width` of a conversion. */
  const MaxWidth: nat := 750

  // ---------------------------------------------------------------------------
  // get_posts
  // ---------------------------------------------------------------------------

  /** One entry of a directory listing: its name and whether it is a regular file. */
  datatype DirEntry = DirEntry(name: string, isFile: bool)

  /**
   * Where a file name splits into stem and suffix: at its last dot, unless
   * that dot is the first or the last character (pathlib's rule).
   */
  function SuffixStart(name: string): (r: Option<nat>)
    ensures r.Some? ==> 0 < r.value < |name| - 1 && name[r.value] == '.'
    ensures r.Some? ==> '.' !in name[r.value + 1..]
  {
    match LastIndexOf(name, '.')
    case Some(i) => if 0 < i < |name| - 1 then Some(i) else None
    case None => None
  }

  /** `PurePath.suffix`. */
  function Suffix(name: string): string {
    match SuffixStart(name)
    case Some(i) => name[i..]
    case None => ""
  }

  /** `PurePath.stem`. */
  function Stem(name: string): (r: string)
    ensures Stem(name) + Suffix(name) == name
  {
    match SuffixStart(name)
    case Some(i) => assert name == name[..i] + name[i..]; name[..i]
    case None => name
  }

  /** The entries `get_posts` keeps: regular files whose suffix is `.md` or `.mdx`. */
  predicate IsPost(e: DirEntry) {
    e.isFile && (Suffix(e.name) == ".md" || Suffix(e.name) == ".mdx")
  }

  /** The stems of the post entries, in directory order (the list comprehension). */
  function PostStems(entries: seq<DirEntry>): (r: seq<string>)
    ensures |r| <= |entries|
    ensures forall x :: x in r <==> exists i :: 0 <= i < |entries| && IsPost(entries[i]) && Stem(entries[i].name) == x
  {
    if entries == [] then []
    else
      var rest := PostStems(entries[1..]);
      assert forall i :: 1 <= i < |entries| ==> entries[i] == entries[1..][i - 1];
      if IsPost(entries[0]) then [Stem(entries[0].name)] + rest else rest
  }

  /** `get_posts`: the sorted stems of the `.md`/`.mdx` files of a directory. */
  function GetPosts(entries: seq<DirEntry>): (r: seq<string>)
    ensures Sorted(r)
    ensures multiset(r) == multiset(PostStems(entries))
  {
    Sort(PostStems(entries))
  }

  /** A post's stem appears in the listing exactly when some post entry carries it. */
  lemma GetPostsMembers(entries: seq<DirEntry>, x: string)
    ensures x in GetPosts(entries) <==>
      exists i :: 0 <= i < |entries| && IsPost(entries[i]) && Stem(entries[i].name) == x
  {
    var r := GetPosts(entries);
    assert (x in r) == (x in multiset(r));
    assert (x in PostStems(entries)) == (x in multiset(PostStems(entries)));
  }

  /** Every post entry is listed; the listing is ordered and has nothing else. */
  lemma GetPostsIsSortedStems(entries: seq<DirEntry>, r: seq<string>)
    requires Sorted(r) && multiset(r) == multiset(PostStems(entries))
    ensures r == GetPosts(entries)
  {
    SortedUnique(r, GetPosts(entries));
  }

  /** A directory without `.md`/`.mdx` regular files lists no posts (also the empty one). */
  lemma {:induction false} NoPostsListsNothing(entries: seq<DirEntry>)
    requires forall i :: 0 <= i < |entries| ==> !IsPost(entries[i])
    ensures GetPosts(entries) == []
  {
    if entries != [] {
      NoPostsListsNothing(entries[1..]);
    }
  }

  /** A name made of a non-empty stem and an extension without inner dots splits there. */
  lemma StemAndSuffix(stem: string, ext: string)
    requires |stem| > 0 && |ext| >= 2 && ext[0] == '.' && '.' !in ext[1..]
    ensures Suffix(stem + ext) == ext && Stem(stem + ext) == stem
  {
    var name := stem + ext;
    assert name[|stem|] == '.';
    var r := LastIndexOf(name, '.');
    if r.None? {
      assert false;
    } else if r.value < |stem| {
      assert false;
    } else if r.value > |stem| {
      assert false;
    }
    assert name[..|stem|] == stem && name[|stem|..] == ext;
  }

  lemma ExampleStems()
    ensures PostStems([DirEntry("ssh.md", true), DirEntry("ufw.mdx", true),
                       DirEntry("borrador.md", true)])
            == ["ssh", "ufw", "borrador"]
  {
    var a, b, c := DirEntry("ssh.md", true), DirEntry("ufw.mdx", true), DirEntry("borrador.md", true);
    ExamplePost(a, "ssh", ".md");
    ExamplePost(b, "ufw", ".mdx");
    ExamplePost(c, "borrador", ".md");
    ThreePosts(a, b, c);
  }

  lemma ThreePosts(a: DirEntry, b: DirEntry, c: DirEntry)
    requires IsPost(a) && IsPost(b) && IsPost(c)
    ensures PostStems([a, b, c]) == [Stem(a.name), Stem(b.name), Stem(c.name)]
  {
    var l := [a, b, c];
    assert l[1..] == [b, c] && l[1..][1..] == [c] && l[1..][1..][1..] == [];
    assert PostStems([c]) == [Stem(c.name)];
    assert PostStems([b, c]) == [Stem(b.name), Stem(c.name)];
  }

  /** One entry of the example listing: a file named `<stem><ext>` with a post extension. */
  lemma ExamplePost(e: DirEntry, stem: string, ext: string)
    requires e == DirEntry(stem + ext, true) && |stem| > 0 && (ext == ".md" || ext == ".mdx")
    ensures IsPost(e) && Stem(e.name) == stem
  {
    StemAndSuffix(stem, ext);
  }

  lemma ExampleSorted()
    ensures Sorted(["borrador", "ssh", "ufw"])
  {
    assert LexLe("borrador", "ssh");
    assert LexLe("ssh", "ufw");
    assert LexLe("borrador", "ufw");
  }

  /** The listing keeps names a draft would have: `borrador.md` is listed like any other. */
  lemma ListingExample()
    ensures GetPosts([DirEntry("ssh.md", true), DirEntry("ufw.mdx", true),
                      DirEntry("borrador.md", true)])
            == ["borrador", "ssh", "ufw"]
  {
    var entries := [DirEntry("ssh.md", true), DirEntry("ufw.mdx", true),
                    DirEntry("borrador.md", true)];
    var expected := ["borrador", "ssh", "ufw"];
    ExampleStems();
    ExampleSorted();
    assert multiset(expected) == multiset(PostStems(entries));
    GetPostsIsSortedStems(entries, expected);
  }

  /**
   * Only the last suffix is removed: `notas.md.md` is listed as `notas.md`,
   * which still ends in an extension.
   */
  lemma DoubleExtensionKeepsInnerSuffix()
    ensures GetPosts([DirEntry("notas.md.md", true)]) == ["notas.md"]
  {
    StemAndSuffix("notas.md", ".md");
    assert "notas.md" + ".md" == "notas.md.md";
    assert PostStems([DirEntry("notas.md.md", true)]) == ["notas.md"];
  }

  // ---------------------------------------------------------------------------
  // convert_and_save: resize and size arithmetic
  // ---------------------------------------------------------------------------

  /** Floor division keeps the scaled height within one pixel row of the exact ratio. */
  lemma ScaledHeightBounds(height: nat, maxWidth: nat, width: nat)
    requires maxWidth < width
    ensures var h := height * maxWidth / width;
      h * width <= height * maxWidth < (h + 1) * width && h <= height
  {
    var p := height * maxWidth;
    var h := p / width;
    assert p == h * width + p % width;
    assert height * maxWidth <= height * width by {
      MulMono(height, maxWidth, width);
    }
  }

  lemma MulMono(a: nat, b: nat, c: nat)
    requires b <= c
    ensures a * b <= a * c
  {
  }

  /** The dimensions of a saved WebP image and the size in KB reported for it. */
  datatype Converted = Converted(width: nat, height: nat, kb: nat)

  /** The `ValueError` Pillow raises when asked to resize to an empty image. */
  const EmptyResize := "height and width must be > 0"

  /**
   * `convert_and_save` without the image codec: the output dimensions and
   * the size in KB reported for `writtenBytes` bytes written, or Pillow's
   * error when the scaled height rounds down to zero rows.
   */
  method ConvertAndSave(width: nat, height: nat, writtenBytes: nat, maxWidth: nat := MaxWidth)
    returns (r: Result<Converted, string>)
    ensures r.Err? <==> width > maxWidth && height * maxWidth < width
    ensures r.Err? ==> r.error == EmptyResize
    ensures r.Ok? ==> r.value.width == (if width > maxWidth then maxWidth else width)
    ensures r.Ok? && width <= maxWidth ==> r.value.height == height
    ensures r.Ok? && width > maxWidth ==>
      1 <= r.value.height && r.value.height * width <= height * maxWidth < (r.value.height + 1) * width
    ensures r.Ok? ==> r.value.width <= width && r.value.height <= height
    ensures r.Ok? ==> r.value.kb >= 1
    ensures r.Ok? && writtenBytes >= 1024 ==> r.value.kb * 1024 <= writtenBytes < (r.value.kb + 1) * 1024
    ensures r.Ok? && writtenBytes < 1024 ==> r.value.kb == 1
  {
    var w, h := width, height;
    if w > maxWidth {
      h := height * maxWidth / width;
      ScaledHeightBounds(height, maxWidth, width);
      if h == 0 {
        return Err(EmptyResize);
      }
      w := maxWidth;
    }
    var k := writtenBytes / 1024;
    var kb := if k > 1 then k else 1;
    return Ok(Converted(w, h, kb));
  }

  /**
   * The two sizes pinned by the test suite, 1200×800 becomes 750×500 and
   * 400×300 is kept, and a strip one pixel high that scales to no rows.
   */
  method ResizeExamples() {
    var r := ConvertAndSave(1200, 800, 2048);
    assert r.Ok?;
    assert r.value.width == 750;
    assert r.value.height * 1200 <= 800 * 750 < (r.value.height + 1) * 1200;
    assert r.value.height == 500;
    assert r.value.kb == 2;
    r := ConvertAndSave(400, 300, 10);
    assert r == Ok(Converted(400, 300, 1));
    r := ConvertAndSave(751, 1, 4096);
    assert r == Err(EmptyResize);
  }

  // ---------------------------------------------------------------------------
  // build_snippet
  // ---------------------------------------------------------------------------

  function HexDigit(d: nat): (c: char)
    requires d < 16
  {
    "0123456789abcdef"[d]
  }

  /**
   * Whether Python's `repr` writes the Latin-1 character `c` as an escape.
   * Beyond U+00FF the model writes every character verbatim.
   */
  predicate ReprEscapes(c: char) {
    c == '\\' || c == '\'' || c < ' ' || ('\U{7F}' <= c <= '\U{A0}') || c == '\U{AD}'
  }

  /** How Python's `repr` writes one character inside `quote` quotes. */
  function ReprChar(c: char, quote: char): string {
    if c == quote || c == '\\' then ['\\', c]
    else if c == '\t' then "\\t"
    else if c == '\n' then "\\n"
    else if c == '\r' then "\\r"
    else if c < ' ' || ('\U{7F}' <= c <= '\U{A0}') || c == '\U{AD}' then
      ['\\', 'x', HexDigit(c as int / 16), HexDigit(c as int % 16)]
    else [c]
  }

  function ReprBody(s: string, quote: char): string
    decreases |s|
  {
    if s == [] then "" else ReprChar(s[0], quote) + ReprBody(s[1..], quote)
  }

  /** `repr(s)`: single quotes, or double quotes when `s` has a `'` and no `"`. */
  function PyRepr(s: string): string {
    var quote := if '\'' in s && '"' !in s then '"' else '\'';
    [quote] + ReprBody(s, quote) + [quote]
  }

  /** A Latin-1 kind without quotes, backslashes or control characters is quoted verbatim. */
  lemma {:induction false} ReprPlain(s: string)
    requires forall i :: 0 <= i < |s| ==> s[i] <= '\U{FF}' && !ReprEscapes(s[i])
    ensures PyRepr(s) == "'" + s + "'"
  {
    ReprBodyPlain(s);
  }

  lemma {:induction false} ReprBodyPlain(s: string)
    requires forall i :: 0 <= i < |s| ==> s[i] <= '\U{FF}' && !ReprEscapes(s[i])
    ensures ReprBody(s, '\'') == s
  {
    if s != [] {
      ReprBodyPlain(s[1..]);
      assert s == [s[0]] + s[1..];
    }
  }

  /** The `kind` values `build_snippet` accepts. */
  predicate KnownKind(kind: string) {
    kind == "simple" || kind == "figure"
  }

  /**
   * `build_snippet`: a Markdown image for `simple`, a `<Figure>` element for
   * `figure` (with a caption attribute only when a caption is given, even an
   * empty one), and the ValueError message for any other kind.
   */
  function BuildSnippet(path: string, alt: string, kind: string, caption: Option<string>)
    : (r: Result<string, string>)
    ensures r.Ok? <==> KnownKind(kind)
    ensures r.Err? ==> StartsWith(r.error, "kind desconocido: " + PyRepr(kind))
    ensures r.Err? ==> EndsWith(r.error, ". Usa 'simple' o 'figure'.")
  {
    if kind == "simple" then
      Ok("![" + alt + "](" + path + ")")
    else if kind == "figure" then
      if caption.Some? then
        Ok("<Figure src=\"" + path + "\" alt=\"" + alt + "\" caption=\"" + caption.value + "\" />")
      else
        Ok("<Figure src=\"" + path + "\" alt=\"" + alt + "\" />")
    else
      Err("kind desconocido: " + PyRepr(kind) + ". Usa 'simple' o 'figure'.")
  }

  /** The error for an unknown kind quotes it the way Python's `repr` does. */
  lemma UnknownKindMessage(path: string, alt: string, kind: string, caption: Option<string>)
    requires !KnownKind(kind)
    ensures var r := BuildSnippet(path, alt, kind, caption);
      r.Err? && Contains(r.error, PyRepr(kind))
  {
    var msg := BuildSnippet(path, alt, kind, caption).error;
    var head := "kind desconocido: ";
    assert msg[|head|..|head| + |PyRepr(kind)|] == PyRepr(kind);
    ContainsAt(msg, PyRepr(kind), |head|);
  }

  /** For a Latin-1 kind without quotes, backslashes or control characters that quoting is `'kind'`. */
  lemma UnknownPlainKindMessage(path: string, alt: string, kind: string, caption: Option<string>)
    requires !KnownKind(kind)
    requires forall i :: 0 <= i < |kind| ==> kind[i] <= '\U{FF}' && !ReprEscapes(kind[i])
    ensures var r := BuildSnippet(path, alt, kind, caption);
      r.Err? && Contains(r.error, "'" + kind + "'")
  {
    ReprPlain(kind);
    UnknownKindMessage(path, alt, kind, caption);
  }

  // A reader for snippets, used to show that a snippet carries exactly the
  // values it was built from.

  /** Reads back `<Figure src="…" alt="…" [caption="…"] />`. */
  function ParseFigure(s: string): Option<(string, string, Option<string>)> {
    var open := "<Figure src=\"";
    if !StartsWith(s, open) then None
    else
      var (path, r1) := Span(s[|open|..], '"');
      if !StartsWith(r1, "\" alt=\"") then None
      else
        var (alt, r2) := Span(r1[7..], '"');
        if r2 == "\" />" then Some((path, alt, None))
        else if !StartsWith(r2, "\" caption=\"") then None
        else
          var (cap, r3) := Span(r2[11..], '"');
          if r3 == "\" />" then Some((path, alt, Some(cap))) else None
  }

  /** Reads back `![alt](path)`. */
  function ParseSimple(s: string): Option<(string, string)> {
    if !StartsWith(s, "![") then None
    else
      var (alt, r1) := Span(s[2..], ']');
      if !StartsWith(r1, "](") then None
      else
        var (path, r2) := Span(r1[2..], ')');
        if r2 == ")" then Some((path, alt)) else None
  }

  lemma DropPrefix(p: string, rest: string)
    ensures StartsWith(p + rest, p) && (p + rest)[|p|..] == rest
  {
  }

  /** A simple snippet gives back its path and alt text. */
  lemma SimpleRoundTrip(path: string, alt: string)
    requires ']' !in alt && ')' !in path
    ensures ParseSimple(BuildSnippet(path, alt, "simple", None).value) == Some((path, alt))
  {
    var s := BuildSnippet(path, alt, "simple", None).value;
    var r2 := ")";
    var r1 := "](" + (path + r2);
    assert s == "![" + (alt + r1);
    DropPrefix("![", alt + r1);
    SpanOf(alt, ']', r1);
    DropPrefix("](", path + r2);
    SpanOf(path, ')', r2);
  }

  /** A figure snippet gives back its path, alt text and caption (or its absence). */
  lemma FigureRoundTrip(path: string, alt: string, caption: Option<string>)
    requires '"' !in path && '"' !in alt && (caption.Some? ==> '"' !in caption.value)
    ensures ParseFigure(BuildSnippet(path, alt, "figure", caption).value) == Some((path, alt, caption))
  {
    var s := BuildSnippet(path, alt, "figure", caption).value;
    var close := "\" />";
    var tail := if caption.Some? then "\" caption=\"" + (caption.value + close) else close;
    var r1 := "\" alt=\"" + (alt + tail);
    assert s == "<Figure src=\"" + (path + r1);
    DropPrefix("<Figure src=\"", path + r1);
    SpanOf(path, '"', r1);
    DropPrefix("\" alt=\"", alt + tail);
    SpanOf(alt, '"', tail);
    if caption.Some? {
      DropPrefix("\" caption=\"", caption.value + close);
      SpanOf(caption.value, '"', close);
    }
  }
}
