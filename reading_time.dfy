/**
 * The reading-time estimate shown on every post: the number of
 * whitespace-separated words at 160 words per minute, rounded up, and at
 * least one minute.
 */
module ReadingTime {
  import opened Wrappers
  import opened Text

  /** `wordsPerMinute`. */
  const WordsPerMinute: nat := 160

  /** The index of the first whitespace character, if any. */
  function FirstSpace(s: string): (r: Option<nat>)
    ensures r.Some? ==> r.value < |s| && JsSpace(s[r.value])
    ensures forall i :: 0 <= i < |s| && (r.None? || i < r.value) ==> !JsSpace(s[i])
    decreases |s|
  {
    if s == [] then None
    else if JsSpace(s[0]) then Some(0)
    else match FirstSpace(s[1..])
      case None => None
      case Some(i) => Some(i + 1)
  }

  /**
   * `s.split(/\s+/)`: the pieces between the maximal runs of whitespace,
   * including an empty first or last piece when `s` starts or ends with
   * whitespace; the empty string splits into one empty piece.
   */
  function Split(s: string): (parts: seq<string>)
    ensures |parts| >= 1
    ensures forall k :: 0 <= k < |parts| ==> NoSpace(Js, parts[k])
    decreases |s|
  {
    match FirstSpace(s)
    case None => [s]
    case Some(i) => [s[..i]] + Split(TrimStart(Js, s[i..]))
  }

  /** `Math.ceil(words / 160)` for a whole number of words. */
  function CeilDiv(n: nat, d: nat): (q: nat)
    requires d > 0
    ensures q * d >= n && (q == 0 || (q - 1) * d < n)
  {
    (n + d - 1) / d
  }

  /** `getReadingTime` (src/utils/readingTime.ts). */
  function GetReadingTime(content: string): (minutes: nat)
    ensures minutes >= 1
  {
    var words := |Split(Trim(Js, content))|;
    var m := CeilDiv(words, WordsPerMinute);
    if m > 1 then m else 1
  }

  // ---------------------------------------------------------------------------
  // An independent count of the words
  // ---------------------------------------------------------------------------

  /**
   * The number of words of `s`, counted one character at a time: a word
   * starts at each non-whitespace character that follows whitespace, or the
   * start when `afterSpace` holds.
   */
  function WordStarts(s: string, afterSpace: bool): nat
    decreases |s|
  {
    if s == [] then 0
    else (if afterSpace && !JsSpace(s[0]) then 1 else 0) + WordStarts(s[1..], JsSpace(s[0]))
  }

  /** The number of whitespace-separated words of `s`. */
  function WordCount(s: string): nat {
    WordStarts(s, true)
  }

  /** Counting across a split point. */
  lemma {:induction false} WordStartsAppend(a: string, b: string, afterSpace: bool)
    ensures WordStarts(a + b, afterSpace)
      == WordStarts(a, afterSpace) + WordStarts(b, if a == [] then afterSpace else JsSpace(a[|a| - 1]))
    decreases |a|
  {
    if a == [] {
      assert a + b == b;
    } else {
      var head := if afterSpace && !JsSpace(a[0]) then 1 else 0;
      assert (a + b)[0] == a[0] && (a + b)[1..] == a[1..] + b;
      assert WordStarts(a + b, afterSpace) == head + WordStarts(a[1..] + b, JsSpace(a[0]));
      assert WordStarts(a, afterSpace) == head + WordStarts(a[1..], JsSpace(a[0]));
      WordStartsAppend(a[1..], b, JsSpace(a[0]));
      if |a| > 1 {
        assert a[1..][|a| - 2] == a[|a| - 1];
      } else {
        assert a[1..] == [];
      }
    }
  }

  /** A run of whitespace starts no word. */
  lemma {:induction false} WordStartsSpaces(s: string, afterSpace: bool)
    requires forall i :: 0 <= i < |s| ==> JsSpace(s[i])
    ensures WordStarts(s, afterSpace) == 0
    decreases |s|
  {
    if s != [] {
      WordStartsSpaces(s[1..], true);
    }
  }

  /** A run without whitespace is one word when it follows whitespace, none otherwise. */
  lemma {:induction false} WordStartsWord(s: string, afterSpace: bool)
    requires s != [] && NoSpace(Js, s)
    ensures WordStarts(s, afterSpace) == if afterSpace then 1 else 0
    decreases |s|
  {
    if |s| > 1 {
      WordStartsWord(s[1..], false);
    } else {
      assert s[1..] == [];
    }
  }

  /** Leading whitespace starts no word. */
  lemma TrimStartWords(s: string, afterSpace: bool)
    ensures WordStarts(s, afterSpace) == WordStarts(TrimStart(Js, s), afterSpace || |TrimStart(Js, s)| < |s|)
  {
    var t := TrimStart(Js, s);
    var lead := s[..|s| - |t|];
    assert s == lead + t;
    WordStartsAppend(lead, t, afterSpace);
    WordStartsSpaces(lead, afterSpace);
  }

  /** Trailing whitespace starts no word. */
  lemma TrimEndWords(s: string, afterSpace: bool)
    ensures WordStarts(s, afterSpace) == WordStarts(TrimEnd(Js, s), afterSpace)
  {
    var t := TrimEnd(Js, s);
    var trail := s[|t|..];
    assert s == t + trail;
    WordStartsAppend(t, trail, afterSpace);
    WordStartsSpaces(trail, if t == [] then afterSpace else JsSpace(t[|t| - 1]));
  }

  /** Trimming keeps the words. */
  lemma TrimWords(s: string)
    ensures WordCount(Trim(Js, s)) == WordCount(s)
  {
    TrimStartWords(s, true);
    TrimEndWords(TrimStart(Js, s), true);
  }

  /** Between trimmed ends, the split has one piece per word. */
  lemma {:induction false} SplitCountsWords(t: string)
    requires t != [] && !JsSpace(t[0]) && !JsSpace(t[|t| - 1])
    ensures |Split(t)| == WordCount(t)
    decreases |t|
  {
    match FirstSpace(t)
    case None =>
      WordStartsWord(t, true);
    case Some(i) =>
      var word, gap := t[..i], t[i..];
      var rest := TrimStart(Js, gap);
      assert t == word + gap;
      assert i > 0 && NoSpace(Js, word);
      WordStartsAppend(word, gap, true);
      WordStartsWord(word, true);
      assert gap[|gap| - 1] == t[|t| - 1];
      TrimStartWords(gap, false);
      assert rest != [] && |rest| < |gap| && rest[|rest| - 1] == t[|t| - 1];
      SplitCountsWords(rest);
  }

  /**
   * The estimate is the word count at 160 words per minute, rounded up,
   * and at least one minute; whitespace-only content counts as one minute.
   */
  lemma ReadingTimeIsCeiling(content: string)
    ensures GetReadingTime(content) == if WordCount(content) <= WordsPerMinute then 1
      else CeilDiv(WordCount(content), WordsPerMinute)
  {
    var t := Trim(Js, content);
    TrimWords(content);
    TrimEnds(Js, content);
    if t == [] {
      assert Split(t) == [t];
    } else {
      SplitCountsWords(t);
    }
  }

  /** More words never make a shorter estimate. */
  lemma ReadingTimeMonotone(a: string, b: string)
    requires WordCount(a) <= WordCount(b)
    ensures GetReadingTime(a) <= GetReadingTime(b)
  {
    ReadingTimeIsCeiling(a);
    ReadingTimeIsCeiling(b);
    var x, y := WordCount(a), WordCount(b);
    assert x + 159 <= y + 159;
  }

  /** One to 160 words read in one minute; 161 words take two. */
  lemma ReadingTimeBoundary(a: string, b: string)
    requires 1 <= WordCount(a) <= 160 && WordCount(b) == 161
    ensures GetReadingTime(a) == 1 && GetReadingTime(b) == 2
  {
    ReadingTimeIsCeiling(a);
    ReadingTimeIsCeiling(b);
  }
}
