/** The text normaliser `preprocess_text` (app.py:43-49): lower-case the text,
    delete decimal digits and ASCII punctuation, split on whitespace, drop the
    stopwords and rejoin the rest with single spaces. The stopword set, which
    the application loads from NLTK at start-up, is a parameter. */
module Normalizer {
  import opened StrBuiltins

  /** A character matched by the regular expression `\d`, restricted to ASCII. */
  predicate IsDigit(c: char) {
    '0' <= c <= '9'
  }

  /** `IsDigit` holds for exactly the ten decimal digits. */
  lemma DigitsAreDecimal(c: char)
    ensures IsDigit(c) <==> c in "0123456789"
  {
  }

  /** One of the 32 characters of Python's `string.punctuation`:
      !"#$%&'()*+,-./  :;<=>?@  [\]^_`  {|}~ */
  predicate IsPunctuation(c: char) {
    ('!' <= c <= '/') || (':' <= c <= '@') || ('[' <= c <= '`') || ('{' <= c <= '~')
  }

  /** `IsPunctuation` holds for exactly the characters of `string.punctuation`. */
  lemma PunctuationIsStringPunctuation(c: char)
    ensures IsPunctuation(c) <==> c in "!\"#$%&'()*+,-./:;<=>?@[\\]^_`{|}~"
  {
  }

  /** A character that can survive normalisation. */
  predicate IsClean(c: char) {
    !IsUpper(c) && !IsDigit(c) && !IsPunctuation(c)
  }

  /** `s` with every element satisfying `drop` deleted and the others kept. */
  function Filter<T(==,!new)>(s: seq<T>, drop: T -> bool): (r: seq<T>)
    ensures |r| <= |s|
    ensures forall x :: x in r <==> x in s && !drop(x)
  {
    if s == [] then []
    else (if drop(s[0]) then [] else [s[0]]) + Filter(s[1..], drop)
  }

  /** `a` is `b` with some elements deleted, the rest in their original order. */
  ghost predicate IsSubsequence<T>(a: seq<T>, b: seq<T>)
    decreases |b|
  {
    a == [] || (b != [] && ((a[0] == b[0] && IsSubsequence(a[1..], b[1..])) || IsSubsequence(a, b[1..])))
  }

  /** Deleting elements twice is deleting elements once. */
  lemma {:induction false} SubsequenceTransitive<T>(a: seq<T>, b: seq<T>, c: seq<T>)
    requires IsSubsequence(a, b) && IsSubsequence(b, c)
    ensures IsSubsequence(a, c)
    decreases |c|
  {
    if a != [] {
      if IsSubsequence(b, c[1..]) {
        SubsequenceTransitive(a, b, c[1..]);
      } else if a[0] == b[0] && IsSubsequence(a[1..], b[1..]) {
        SubsequenceTransitive(a[1..], b[1..], c[1..]);
      } else {
        SubsequenceTransitive(a, b[1..], c[1..]);
      }
    }
  }

  /** Filtering keeps the relative order of the elements it keeps. */
  lemma {:induction false} FilterOrdered<T(!new)>(s: seq<T>, drop: T -> bool)
    ensures IsSubsequence(Filter(s, drop), s)
  {
    if s != [] {
      var rest := Filter(s[1..], drop);
      FilterOrdered(s[1..], drop);
      if !drop(s[0]) {
        var r := [s[0]] + rest;
        assert Filter(s, drop) == r;
        assert r[0] == s[0] && r[1..] == rest;
      } else {
        assert Filter(s, drop) == rest;
      }
    }
  }

  /** Filtering deletes every occurrence of a dropped element and keeps every
      occurrence of any other. */
  lemma {:induction false} FilterCounts<T(!new)>(s: seq<T>, drop: T -> bool)
    ensures forall x :: multiset(Filter(s, drop))[x] == if drop(x) then 0 else multiset(s)[x]
  {
    if s != [] {
      var rest := Filter(s[1..], drop);
      FilterCounts(s[1..], drop);
      assert s == [s[0]] + s[1..];
      assert multiset(s) == multiset([s[0]]) + multiset(s[1..]);
      if !drop(s[0]) {
        assert multiset(Filter(s, drop)) == multiset([s[0]]) + multiset(rest);
      }
    }
  }

  /** Filtering drops nothing from a sequence none of whose elements is dropped. */
  lemma {:induction false} FilterKeepsAll<T(!new)>(s: seq<T>, drop: T -> bool)
    requires forall k :: 0 <= k < |s| ==> !drop(s[k])
    ensures Filter(s, drop) == s
  {
    if s != [] {
      FilterKeepsAll(s[1..], drop);
    }
  }

  /** The character-level steps (app.py:44-46): `re.sub(r'\d+', '', s)` on the
      lowered text, then `translate` with `string.punctuation` deleted. */
  function Clean(text: string): (r: string)
    ensures forall c :: c in r ==> IsClean(c)
  {
    Filter(Filter(Lower(text), IsDigit), IsPunctuation)
  }

  /** Cleaning deletes every digit and punctuation character of the lowered
      text and keeps every occurrence of every other character. */
  lemma CleanCounts(text: string)
    ensures forall c :: multiset(Clean(text))[c] ==
              if IsDigit(c) || IsPunctuation(c) then 0 else multiset(Lower(text))[c]
  {
    FilterCounts(Lower(text), IsDigit);
    FilterCounts(Filter(Lower(text), IsDigit), IsPunctuation);
  }

  /** Cleaning only deletes characters: what is left keeps its order in the
      lowered text. With `CleanCounts` this fixes `Clean` completely. */
  lemma CleanOrdered(text: string)
    ensures IsSubsequence(Clean(text), Lower(text))
  {
    var digitless := Filter(Lower(text), IsDigit);
    FilterOrdered(Lower(text), IsDigit);
    FilterOrdered(digitless, IsPunctuation);
    SubsequenceTransitive(Clean(text), digitless, Lower(text));
  }

  /** The list comprehension of app.py:48. */
  function RemoveStopwords(tokens: seq<string>, stopWords: set<string>): (r: seq<string>)
    ensures forall t :: t in r <==> t in tokens && t !in stopWords
    ensures forall k :: 0 <= k < |r| ==> r[k] in tokens && r[k] !in stopWords
  {
    var r := Filter(tokens, (t: string) => t in stopWords);
    assert forall k :: 0 <= k < |r| ==> r[k] in r;
    r
  }

  /** `preprocess_text(text)` with `stop_words == stopWords` (app.py:43-49). */
  function Preprocess(text: string, stopWords: set<string>): (r: string)
    ensures forall c :: c in r ==> c == ' ' || IsClean(c)
    ensures text == [] ==> r == []
  {
    Join(RemoveStopwords(Split(Clean(text)), stopWords))
  }

  /** The output has no upper-case letter, no digit and no punctuation, and its
      only whitespace is single spaces strictly between tokens. */
  lemma PreprocessCharacters(text: string, stopWords: set<string>)
    ensures forall c :: c in Preprocess(text, stopWords) ==> !IsUpper(c) && !IsDigit(c) && !IsPunctuation(c)
    ensures SingleSpaced(Preprocess(text, stopWords))
  {
    JoinSingleSpaced(RemoveStopwords(Split(Clean(text)), stopWords));
  }

  /** The tokens of the output are the tokens of the cleaned input with the
      stopwords removed, in their original order; none of them is a stopword. */
  lemma PreprocessTokens(text: string, stopWords: set<string>)
    ensures Split(Preprocess(text, stopWords)) == RemoveStopwords(Split(Clean(text)), stopWords)
    ensures IsSubsequence(Split(Preprocess(text, stopWords)), Split(Clean(text)))
    ensures forall t :: t in Split(Preprocess(text, stopWords)) ==> t !in stopWords
    ensures forall t :: t !in stopWords ==>
              multiset(Split(Preprocess(text, stopWords)))[t] == multiset(Split(Clean(text)))[t]
  {
    var tokens := Split(Clean(text));
    var kept := RemoveStopwords(tokens, stopWords);
    assert forall k :: 0 <= k < |kept| ==> IsWord(kept[k]) by {
      forall k | 0 <= k < |kept| ensures IsWord(kept[k]) {
        assert kept[k] in tokens;
      }
    }
    SplitJoin(kept);
    FilterOrdered(tokens, (t: string) => t in stopWords);
    FilterCounts(tokens, (t: string) => t in stopWords);
  }

  /** Text already made only of clean characters and spaces passes the
      character-level steps unchanged. */
  lemma CleanOfClean(s: string)
    requires forall c :: c in s ==> c == ' ' || IsClean(c)
    ensures Clean(s) == s
  {
    LowerOfLower(s);
    assert forall i :: 0 <= i < |s| ==> s[i] in s;
    FilterKeepsAll(s, IsDigit);
    FilterKeepsAll(s, IsPunctuation);
  }

  /** Normalising normalised text changes nothing. */
  lemma PreprocessIdempotent(text: string, stopWords: set<string>)
    ensures Preprocess(Preprocess(text, stopWords), stopWords) == Preprocess(text, stopWords)
  {
    var r := Preprocess(text, stopWords);
    var kept := RemoveStopwords(Split(Clean(text)), stopWords);
    CleanOfClean(r);
    PreprocessTokens(text, stopWords);
    assert Split(Clean(r)) == kept;
    assert forall k :: 0 <= k < |kept| ==> kept[k] in kept;
    FilterKeepsAll(kept, (t: string) => t in stopWords);
  }
}
