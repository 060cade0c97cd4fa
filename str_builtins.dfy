/** The Python `str` built-ins the document pipeline relies on, restricted to
    ASCII: the whitespace class of `str.isspace`, `str.lower`, `str.strip`,
    `str.split()` with no separator and `" ".join`. Characters outside ASCII
    are treated as ordinary non-space characters that `lower` leaves alone. */
module StrBuiltins {

  /** ASCII whitespace as CPython's `str.split()` and `str.strip()` see it:
      space, \t \n \x0b \x0c \r, and the separators \x1c to \x1f. */
  predicate IsSpace(c: char) {
    c == ' ' || ('\t' <= c <= '\r') || ('\U{1C}' <= c <= '\U{1F}')
  }

  /** `IsSpace` is membership in the ten ASCII characters CPython treats as
      whitespace. */
  lemma SpaceIsAsciiWhitespace(c: char)
    ensures IsSpace(c) <==> c in " \t\n\U{B}\U{C}\r\U{1C}\U{1D}\U{1E}\U{1F}"
  {
  }

  predicate IsUpper(c: char) {
    'A' <= c <= 'Z'
  }

  /** `str.lower` on one character. */
  function LowerChar(c: char): (d: char)
    ensures !IsUpper(d)
    ensures IsUpper(c) ==> d as int == c as int + 32
    ensures !IsUpper(c) ==> d == c
  {
    if IsUpper(c) then (c as int + 32) as char else c
  }

  /** `str.lower`: every character mapped to its lower-case form. */
  function Lower(s: string): (r: string)
    ensures |r| == |s|
    ensures forall i :: 0 <= i < |s| ==> r[i] == LowerChar(s[i])
    ensures forall c :: c in r ==> !IsUpper(c)
  {
    if s == [] then [] else [LowerChar(s[0])] + Lower(s[1..])
  }

  lemma LowerOfLower(s: string)
    requires forall c :: c in s ==> !IsUpper(c)
    ensures Lower(s) == s
  {
  }

  /** The truth value of `not s.strip()`: nothing but whitespace. */
  predicate IsBlank(s: string) {
    forall i :: 0 <= i < |s| ==> IsSpace(s[i])
  }

  lemma BlankConcat(x: string, y: string)
    ensures IsBlank(x + y) <==> IsBlank(x) && IsBlank(y)
  {
    assert forall k :: 0 <= k < |x| ==> (x + y)[k] == x[k];
    assert forall k :: 0 <= k < |y| ==> (x + y)[|x| + k] == y[k];
  }

  /** How many whitespace characters `str.lstrip()` removes: every character
      before that position is whitespace and the one at it is not. */
  function LeadingSpace(s: string): (n: nat)
    ensures n <= |s|
    ensures forall k :: 0 <= k < n ==> IsSpace(s[k])
    ensures n == |s| || !IsSpace(s[n])
  {
    if s != [] && IsSpace(s[0]) then 1 + LeadingSpace(s[1..]) else 0
  }

  /** How much of the text `str.rstrip()` keeps: every character from that
      position on is whitespace and the one just before it is not. */
  function TrailingStart(s: string): (n: nat)
    ensures n <= |s|
    ensures forall k :: n <= k < |s| ==> IsSpace(s[k])
    ensures n == 0 || !IsSpace(s[n - 1])
  {
    if s != [] && IsSpace(s[|s| - 1]) then TrailingStart(s[..|s| - 1]) else |s|
  }

  /** `str.lstrip()`: the text after its leading whitespace. */
  function StripLeft(s: string): string {
    s[LeadingSpace(s)..]
  }

  /** `str.rstrip()`: the text before its trailing whitespace. */
  function StripRight(s: string): string {
    s[..TrailingStart(s)]
  }

  /** `str.strip()`: empty exactly for whitespace-only text, which is when
      `not text.strip()` holds. */
  function Strip(s: string): (r: string)
    ensures |r| <= |s|
    ensures r == [] <==> IsBlank(s)
  {
    var l := StripLeft(s);
    assert IsBlank(s) ==> l == [];
    assert l != [] ==> !IsSpace(l[0]);
    StripRight(l)
  }

  /** Slicing a suffix again is slicing the original. */
  lemma SliceOfSuffix(s: string, i: nat, m: nat)
    requires i + m <= |s|
    ensures s[i..][..m] == s[i..i + m]
  {
  }

  /** What `strip` leaves: the slice `s[i..j]` with only whitespace cut off
      either side, which begins and ends with a non-space character unless it
      is empty. */
  lemma StripBounds(s: string) returns (i: nat, j: nat)
    ensures i <= j <= |s| && Strip(s) == s[i..j]
    ensures forall k :: 0 <= k < i ==> IsSpace(s[k])
    ensures forall k :: j <= k < |s| ==> IsSpace(s[k])
    ensures i < j ==> !IsSpace(s[i]) && !IsSpace(s[j - 1])
  {
    i := LeadingSpace(s);
    var l := s[i..];
    var t := TrailingStart(l);
    j := i + t;
    SliceOfSuffix(s, i, t);
    assert forall k :: j <= k < |s| ==> s[k] == l[k - i];
    if i < j {
      assert s[j - 1] == l[t - 1];
    }
  }

  /** No whitespace at either end. */
  predicate Trimmed(s: string) {
    s == [] || (!IsSpace(s[0]) && !IsSpace(s[|s| - 1]))
  }

  /** `strip` leaves no whitespace at either end. */
  lemma StripTrimmed(s: string)
    ensures Trimmed(Strip(s))
  {
    var i, j := StripBounds(s);
  }

  /** `s.startswith(prefix)`. */
  predicate StartsWith(s: string, prefix: string) {
    |prefix| <= |s| && s[..|prefix|] == prefix
  }

  lemma StartsWithAppend(prefix: string, rest: string)
    ensures StartsWith(prefix + rest, prefix)
  {
  }

  /** `lstrip` skips a leading run of whitespace and keeps everything after
      the first non-space character. */
  lemma {:induction false} LeadingSpaceAppend(x: string, y: string)
    ensures LeadingSpace(x + y) == if IsBlank(x) then |x| + LeadingSpace(y) else LeadingSpace(x)
  {
    if x == [] {
      assert x + y == y;
    } else {
      assert (x + y)[0] == x[0];
      if IsSpace(x[0]) {
        assert (x + y)[1..] == x[1..] + y;
        assert IsBlank(x) <==> IsBlank(x[1..]) by {
          assert forall k :: 1 <= k < |x| ==> x[k] == x[1..][k - 1];
        }
        LeadingSpaceAppend(x[1..], y);
      } else {
        assert !IsBlank(x);
      }
    }
  }

  /** Leading whitespace of a concatenation: a blank head is skipped entirely. */
  lemma StripLeftAppend(x: string, y: string)
    ensures StripLeft(x + y) == if IsBlank(x) then StripLeft(y) else StripLeft(x) + y
  {
    LeadingSpaceAppend(x, y);
    var n := LeadingSpace(x + y);
    if IsBlank(x) {
      assert (x + y)[n..] == y[n - |x|..];
    } else {
      assert (x + y)[n..] == x[n..] + y;
    }
  }

  /** Text that ends in a non-space character loses only its leading whitespace. */
  lemma StripEndingInWord(x: string, y: string)
    requires y != [] && !IsSpace(y[|y| - 1])
    ensures Strip(x + y) == if IsBlank(x) then StripLeft(y) else StripLeft(x) + y
  {
    StripLeftAppend(x, y);
    var l := StripLeft(x + y);
    assert l != [] && l[|l| - 1] == y[|y| - 1] by {
      assert !IsBlank(x + y) by {
        assert (x + y)[|x + y| - 1] == y[|y| - 1];
      }
      assert l == (x + y)[LeadingSpace(x + y)..];
    }
    assert StripRight(l) == l;
  }

  /** Text ending in one whitespace character and then a message that begins
      and ends with non-space characters strips to the message alone when what
      precedes it is blank, and otherwise only loses its leading whitespace. */
  lemma StripBeforeNotice(x: string, sep: char, notice: string)
    requires IsSpace(sep)
    requires notice != [] && !IsSpace(notice[0]) && !IsSpace(notice[|notice| - 1])
    ensures Strip(x + ([sep] + notice)) == if IsBlank(x) then notice else StripLeft(x) + ([sep] + notice)
  {
    var y := [sep] + notice;
    assert y[|y| - 1] == notice[|notice| - 1];
    StripEndingInWord(x, y);
    assert y[1..] == notice;
  }

  /** Blank text in front changes nothing after stripping. */
  lemma StripBlankPrefix(x: string, y: string)
    requires IsBlank(x)
    ensures Strip(x + y) == Strip(y)
  {
    StripLeftAppend(x, y);
  }

  /** A token of `str.split()`: non-empty and free of whitespace. */
  predicate IsWord(w: string) {
    w != [] && forall i :: 0 <= i < |w| ==> !IsSpace(w[i])
  }

  /** Length of the longest whitespace-free prefix. */
  function WordEnd(s: string): (n: nat)
    ensures n <= |s|
    ensures forall i :: 0 <= i < n ==> !IsSpace(s[i])
    ensures n == |s| || IsSpace(s[n])
  {
    if s == [] || IsSpace(s[0]) then 0 else 1 + WordEnd(s[1..])
  }

  /** `str.split()`: the maximal runs of non-space characters, in order. */
  function Split(s: string): (r: seq<string>)
    ensures forall k :: 0 <= k < |r| ==> IsWord(r[k])
    ensures forall k, i :: 0 <= k < |r| && 0 <= i < |r[k]| ==> r[k][i] in s
    ensures r == [] <==> IsBlank(s)
    decreases |s|
  {
    if s == [] then []
    else if IsSpace(s[0]) then
      assert forall k :: 0 <= k < |s| - 1 ==> s[1..][k] == s[k + 1];
      Split(s[1..])
    else
      var n := WordEnd(s);
      [s[..n]] + Split(s[n..])
  }

  /** `" ".join(ts)`. */
  function Join(ts: seq<string>): (r: string)
    ensures ts == [] ==> r == []
    ensures forall c :: c in r ==> c == ' ' || exists k :: 0 <= k < |ts| && c in ts[k]
  {
    if ts == [] then []
    else if |ts| == 1 then ts[0]
    else ts[0] + " " + Join(ts[1..])
  }

  /** Every whitespace character is a plain space strictly inside the string
      with non-space neighbours: no leading, trailing or doubled spaces. */
  predicate SingleSpaced(s: string) {
    forall i :: 0 <= i < |s| && IsSpace(s[i]) ==>
      s[i] == ' ' && 0 < i < |s| - 1 && !IsSpace(s[i - 1]) && !IsSpace(s[i + 1])
  }

  lemma {:induction false} JoinSingleSpaced(ts: seq<string>)
    requires forall k :: 0 <= k < |ts| ==> IsWord(ts[k])
    ensures SingleSpaced(Join(ts))
    ensures ts != [] ==> Join(ts) != []
  {
    if |ts| >= 2 {
      var t, rest := ts[0], Join(ts[1..]);
      JoinSingleSpaced(ts[1..]);
      var s := t + " " + rest;
      assert IsWord(t);
      assert rest != [] && !IsSpace(rest[0]);
      forall i | 0 <= i < |s|
        ensures IsSpace(s[i]) ==>
          s[i] == ' ' && 0 < i < |s| - 1 && !IsSpace(s[i - 1]) && !IsSpace(s[i + 1])
      {
        if i < |t| {
          assert s[i] == t[i];
        } else if i == |t| {
          assert s[i - 1] == t[|t| - 1];
          assert s[i + 1] == rest[0];
        } else {
          var j := i - |t| - 1;
          assert s[i] == rest[j];
          if IsSpace(rest[j]) {
            assert 0 < j < |rest| - 1;
            assert s[i - 1] == rest[j - 1];
            assert s[i + 1] == rest[j + 1];
          }
        }
      }
    } else if |ts| == 1 {
      assert IsWord(ts[0]);
    }
  }

  lemma {:induction false} WordEndOfWord(w: string, rest: string)
    requires IsWord(w)
    requires rest == [] || IsSpace(rest[0])
    ensures WordEnd(w + rest) == |w|
  {
    assert (w + rest)[1..] == w[1..] + rest;
    if |w| > 1 {
      WordEndOfWord(w[1..], rest);
    } else {
      assert w[1..] + rest == rest;
    }
  }

  /** `WordEnd` looks no further than the first whitespace character. */
  lemma {:induction false} WordEndAppend(a: string, t: string)
    requires WordEnd(a) < |a| || t == [] || IsSpace(t[0])
    ensures WordEnd(a + t) == WordEnd(a)
  {
    if a == [] {
      assert a + t == t;
    } else if !IsSpace(a[0]) {
      assert (a + t)[0] == a[0];
      assert (a + t)[1..] == a[1..] + t;
      WordEndAppend(a[1..], t);
    }
  }

  /** A single word splits to itself. */
  lemma SplitWord(w: string)
    requires IsWord(w)
    ensures Split(w) == [w]
  {
    WordEndOfWord(w, []);
    assert w + [] == w;
    assert w[|w|..] == [];
  }

  /** `str.split()` cuts at every whitespace character: the tokens of text
      around one are the tokens before it followed by the tokens after it.
      With `SplitWord` and `Split("") == []` this fixes `Split` on every
      input. */
  lemma {:induction false} SplitAtSpace(a: string, c: char, b: string)
    requires IsSpace(c)
    ensures Split(a + [c] + b) == Split(a) + Split(b)
    decreases |a|
  {
    var s := a + [c] + b;
    if a == [] {
      assert Split(s) == Split(b) by {
        assert s == [c] + b;
        assert s[1..] == b;
      }
    } else if IsSpace(a[0]) {
      assert Split(s) == Split(a[1..] + [c] + b) by {
        assert s[0] == a[0];
        assert s[1..] == a[1..] + [c] + b;
      }
      SplitAtSpace(a[1..], c, b);
    } else {
      var n := WordEnd(a);
      assert Split(s) == [a[..n]] + Split(a[n..] + [c] + b) by {
        assert s == a + ([c] + b);
        WordEndAppend(a, [c] + b);
        assert s[..n] == a[..n];
        assert s[n..] == a[n..] + [c] + b;
      }
      SplitAtSpace(a[n..], c, b);
    }
  }

  /** Splitting a joined list of tokens gives the tokens back. */
  lemma {:induction false} SplitJoin(ts: seq<string>)
    requires forall k :: 0 <= k < |ts| ==> IsWord(ts[k])
    ensures Split(Join(ts)) == ts
  {
    if ts == [] {
    } else if |ts| == 1 {
      SplitWord(ts[0]);
    } else {
      var w, rest := ts[0], Join(ts[1..]);
      var s := w + " " + rest;
      assert s == w + (" " + rest);
      WordEndOfWord(w, " " + rest);
      assert s[..|w|] == w;
      assert s[|w|..] == " " + rest;
      assert (" " + rest)[1..] == rest;
      SplitJoin(ts[1..]);
    }
  }
}
