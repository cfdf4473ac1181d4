/**
 * The blog's string and list utilities: `slugify`, and the sorted,
 * duplicate-free category and tag listings built from the posts.
 */
module Helpers {
  import opened Text

  // ---------------------------------------------------------------------------
  // slugify
  // ---------------------------------------------------------------------------

  /** The combining diacritical marks, U+0300 to U+036F, that `slugify` deletes. */
  predicate IsCombiningMark(c: char) {
    '\U{300}' <= c <= '\U{36F}'
  }

  predicate IsUnmarked(c: char) {
    !IsCombiningMark(c)
  }

  /** The characters `[a-z0-9-]` a slug is made of. */
  predicate IsSlugChar(c: char) {
    'a' <= c <= 'z' || '0' <= c <= '9' || c == '-'
  }

  /** The characters `[a-z0-9\s-]` that survive the deletion step. */
  predicate IsKept(c: char) {
    IsSlugChar(c) || JsSpace(c)
  }

  /** The separators `[\s_]` whose runs become one hyphen. */
  predicate IsSeparator(c: char) {
    JsSpace(c) || c == '_'
  }

  predicate IsDash(c: char) {
    c == '-'
  }

  /** No two hyphens in a row. */
  predicate NoDoubleDash(s: string) {
    forall i :: 0 <= i < |s| - 1 ==> !(s[i] == '-' && s[i + 1] == '-')
  }

  predicate IsSlug(s: string) {
    (forall i :: 0 <= i < |s| ==> IsSlugChar(s[i])) && NoDoubleDash(s)
  }

  /** Drops the leading characters that satisfy `p`. */
  function SkipRun(s: string, p: char -> bool): (r: string)
    ensures |r| <= |s| && r == s[|s| - |r|..]
    ensures r == [] || !p(r[0])
    decreases |s|
  {
    if s != [] && p(s[0]) then SkipRun(s[1..], p) else s
  }

  /**
   * `s.replace(/[p]+/g, '-')`: every maximal run of characters satisfying
   * `p` becomes a single hyphen; every other character is kept in place.
   */
  function ReplaceRuns(s: string, p: char -> bool): (r: string)
    ensures s != [] ==> r != [] && r[0] == if p(s[0]) then '-' else s[0]
    decreases |s|
  {
    if s == [] then []
    else if p(s[0]) then "-" + ReplaceRuns(SkipRun(s[1..], p), p)
    else [s[0]] + ReplaceRuns(s[1..], p)
  }

  /** Every character of the result is a hyphen or a character of the input outside the runs. */
  lemma {:induction false} ReplaceRunsChars(s: string, p: char -> bool)
    ensures forall i :: 0 <= i < |ReplaceRuns(s, p)| ==>
      ReplaceRuns(s, p)[i] == '-' || (!p(ReplaceRuns(s, p)[i]) && ReplaceRuns(s, p)[i] in s)
    decreases |s|
  {
    if s != [] {
      var r := ReplaceRuns(s, p);
      var rest := if p(s[0]) then SkipRun(s[1..], p) else s[1..];
      var tail := ReplaceRuns(rest, p);
      assert r[1..] == tail;
      ReplaceRunsChars(rest, p);
      forall i | 0 <= i < |r| ensures r[i] == '-' || (!p(r[i]) && r[i] in s) {
        if i > 0 && r[i] != '-' {
          assert r[i] == r[1..][i - 1] == tail[i - 1];
          var j :| 0 <= j < |rest| && rest[j] == r[i];
          assert s[|s| - |rest| + j] == r[i];
        }
      }
    }
  }

  /** Without a run there is nothing to replace. */
  lemma {:induction false} ReplaceRunsNone(s: string, p: char -> bool)
    requires forall i :: 0 <= i < |s| ==> !p(s[i])
    ensures ReplaceRuns(s, p) == s
    decreases |s|
  {
    if s != [] {
      ReplaceRunsNone(s[1..], p);
      assert [s[0]] + s[1..] == s;
    }
  }

  /** Squeezing single hyphens changes nothing. */
  lemma {:induction false} SqueezeSingles(s: string)
    requires NoDoubleDash(s)
    ensures ReplaceRuns(s, IsDash) == s
    decreases |s|
  {
    if s != [] {
      assert NoDoubleDash(s[1..]);
      SqueezeSingles(s[1..]);
      if s[0] == '-' {
        assert SkipRun(s[1..], IsDash) == s[1..];
      }
      assert [s[0]] + s[1..] == s;
    }
  }

  /** Squeezing the runs of `-` leaves no two hyphens in a row. */
  lemma {:induction false} ReplaceRunsSqueezes(s: string, p: char -> bool)
    requires p('-')
    ensures NoDoubleDash(ReplaceRuns(s, p))
    decreases |s|
  {
    if s != [] {
      var rest := if p(s[0]) then SkipRun(s[1..], p) else s[1..];
      ReplaceRunsSqueezes(rest, p);
    }
  }

  /**
   * `slugify` (src/utils/helpers.ts): delete combining marks, lower-case,
   * trim, delete every character outside `[a-z0-9\s-]`, turn each run of
   * `[\s_]` into `-`, and squeeze runs of `-`. The input is taken as already
   * in decomposed form.
   */
  function Slugify(text: string): (r: string)
    ensures IsSlug(r)
  {
    var unmarked := Filter(text, IsUnmarked);
    var lowered := Lower(unmarked);
    var trimmed := Trim(Js, lowered);
    var kept := Filter(trimmed, IsKept);
    var dashed := ReplaceRuns(kept, IsSeparator);
    ReplaceRunsChars(kept, IsSeparator);
    assert forall i :: 0 <= i < |dashed| ==> IsSlugChar(dashed[i]) by {
      forall i | 0 <= i < |dashed| ensures IsSlugChar(dashed[i]) {
        if dashed[i] != '-' {
          var c := dashed[i];
          FilterMembers(trimmed, IsKept, c);
        }
      }
    }
    var r := ReplaceRuns(dashed, IsDash);
    ReplaceRunsChars(dashed, IsDash);
    ReplaceRunsSqueezes(dashed, IsDash);
    r
  }

  /** The separators are gone after the deletion step except whitespace: an underscore never becomes a hyphen. */
  lemma {:induction false} KeptHasNoUnderscore(s: string)
    ensures '_' !in Filter(s, IsKept)
  {
    FilterMembers(s, IsKept, '_');
  }

  lemma FilterAll<T>(s: seq<T>, p: T -> bool)
    requires forall i :: 0 <= i < |s| ==> p(s[i])
    ensures Filter(s, p) == s
    decreases |s|
  {
    if s != [] {
      FilterAll(s[1..], p);
      assert [s[0]] + s[1..] == s;
    }
  }

  /** Lower-casing leaves a slug as it is. */
  lemma SlugLowered(s: string)
    requires IsSlug(s)
    ensures Lower(s) == s
  {
    forall i | 0 <= i < |s| ensures Lower(s)[i] == s[i] {
      assert IsSlugChar(s[i]);
    }
  }

  /** A slug holds no whitespace. */
  lemma SlugNoSpace(s: string)
    requires IsSlug(s)
    ensures NoSpace(Js, s)
  {
    forall i | 0 <= i < |s| ensures !JsSpace(s[i]) {
      assert IsSlugChar(s[i]);
    }
  }

  /** Every step of `slugify` leaves a slug as it is. */
  lemma SlugFixed(s: string)
    requires IsSlug(s)
    ensures Slugify(s) == s
  {
    FilterAll(s, IsUnmarked);
    SlugLowered(s);
    SlugNoSpace(s);
    TrimNoSpace(Js, s);
    FilterAll(s, IsKept);
    ReplaceRunsNone(s, IsSeparator);
    SqueezeSingles(s);
  }

  /** Slugifying twice is slugifying once. */
  lemma SlugifyIdempotent(text: string)
    ensures Slugify(Slugify(text)) == Slugify(text)
  {
    SlugFixed(Slugify(text));
  }

  /**
   * Only whitespace becomes a hyphen: text without whitespace and without
   * `-` gives a slug without `-`, so an underscore or any other dropped
   * character is deleted rather than turned into a separator.
   */
  lemma SlugifyOnlySpacesDash(text: string)
    requires forall i :: 0 <= i < |text| ==> !JsSpace(text[i]) && text[i] != '-'
    ensures '-' !in Slugify(text)
  {
    var unmarked := Filter(text, IsUnmarked);
    var lowered := Lower(unmarked);
    forall c | c in lowered ensures !JsSpace(c) && c != '-' {
      var i :| 0 <= i < |lowered| && lowered[i] == c;
      FilterMembers(text, IsUnmarked, unmarked[i]);
    }
    assert NoSpace(Js, lowered);
    TrimNoSpace(Js, lowered);
    var kept := Filter(lowered, IsKept);
    forall i | 0 <= i < |kept| ensures !IsSeparator(kept[i]) && kept[i] != '-' {
      FilterMembers(lowered, IsKept, kept[i]);
    }
    ReplaceRunsNone(kept, IsSeparator);
    ReplaceRunsNone(kept, IsDash);
    FilterMembers(lowered, IsKept, '-');
  }

  // ---------------------------------------------------------------------------
  // getUniqueCategories / getUniqueTags
  // ---------------------------------------------------------------------------

  /** The frontmatter fields of a post that the listings read. */
  datatype Post = Post(category: string, tags: seq<string>)

  /** `posts.map((post) => post.data.category)`. */
  function Categories(posts: seq<Post>): (r: seq<string>)
    ensures |r| == |posts| && forall i :: 0 <= i < |posts| ==> r[i] == posts[i].category
  {
    seq(|posts|, i requires 0 <= i < |posts| => posts[i].category)
  }

  /** `posts.flatMap((post) => post.data.tags)`. */
  function AllTags(posts: seq<Post>): (r: seq<string>)
    ensures forall t :: t in r <==> exists i :: 0 <= i < |posts| && t in posts[i].tags
    decreases |posts|
  {
    if posts == [] then []
    else
      var rest := AllTags(posts[1..]);
      assert forall i :: 1 <= i < |posts| ==> posts[i] == posts[1..][i - 1];
      posts[0].tags + rest
  }

  /** `[...new Set(xs)].sort()`: the distinct values, in ascending order. */
  function SortedSet(xs: seq<string>): (r: seq<string>)
    ensures StrictlySorted(r)
    ensures forall x :: x in r <==> x in xs
  {
    var d := Dedup(xs);
    var r := Sort(d);
    SortKeepsDistinct(d);
    SortedDistinctStrict(r);
    forall x ensures x in r <==> x in d {
      assert (x in r) == (x in multiset(r)) && (x in d) == (x in multiset(d));
    }
    r
  }

  /** `getUniqueCategories`: each category once, ascending. */
  function UniqueCategories(posts: seq<Post>): (r: seq<string>)
    ensures StrictlySorted(r)
    ensures forall c :: c in r <==> exists i :: 0 <= i < |posts| && posts[i].category == c
  {
    SortedSet(Categories(posts))
  }

  /** `getUniqueTags`: each tag of any post once, ascending. */
  function UniqueTags(posts: seq<Post>): (r: seq<string>)
    ensures StrictlySorted(r)
    ensures forall t :: t in r <==> exists i :: 0 <= i < |posts| && t in posts[i].tags
  {
    SortedSet(AllTags(posts))
  }

  /** The category listing is the one ascending, repeat-free listing of the categories. */
  lemma UniqueCategoriesCanonical(posts: seq<Post>, listing: seq<string>)
    requires StrictlySorted(listing)
    requires forall c :: c in listing <==> exists i :: 0 <= i < |posts| && posts[i].category == c
    ensures UniqueCategories(posts) == listing
  {
    StrictlySortedUnique(UniqueCategories(posts), listing);
  }

  /** The tag listing is the one ascending, repeat-free listing of the union of the posts' tags. */
  lemma UniqueTagsCanonical(posts: seq<Post>, listing: seq<string>)
    requires StrictlySorted(listing)
    requires forall t :: t in listing <==> exists i :: 0 <= i < |posts| && t in posts[i].tags
    ensures UniqueTags(posts) == listing
  {
    StrictlySortedUnique(UniqueTags(posts), listing);
  }

  /** The order of the posts does not matter to the tag listing. */
  lemma UniqueTagsOrderFree(posts: seq<Post>, other: seq<Post>)
    requires multiset(posts) == multiset(other)
    ensures UniqueTags(posts) == UniqueTags(other)
  {
    forall t ensures t in UniqueTags(posts) <==> t in UniqueTags(other) {
      if t in UniqueTags(posts) {
        var i :| 0 <= i < |posts| && t in posts[i].tags;
        assert posts[i] in multiset(other);
        var j :| 0 <= j < |other| && other[j] == posts[i];
      }
      if t in UniqueTags(other) {
        var j :| 0 <= j < |other| && t in other[j].tags;
        assert other[j] in multiset(posts);
        var i :| 0 <= i < |posts| && posts[i] == other[j];
      }
    }
    StrictlySortedUnique(UniqueTags(posts), UniqueTags(other));
  }
}
