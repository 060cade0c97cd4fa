/** The rule-based categoriser `categorize` (app.py:52-62): four keyword lists
    tested in a fixed order by substring containment, with "Uncategorized" as
    the fallback. */
module Categorizer {

  const BillWords: seq<string> := ["invoice", "gst", "amount", "total"]
  const IdWords: seq<string> := ["prn", "roll", "student", "id"]
  const NotesWords: seq<string> := ["assignment", "lecture", "subject", "class"]
  const CertificateWords: seq<string> := ["certificate", "award", "completion"]

  const Labels: set<string> := {"Bill", "ID Document", "Notes", "Certificate", "Uncategorized"}

  /** `text[i..]` begins with `word`. */
  ghost predicate OccursAt(word: string, text: string, i: int) {
    0 <= i && i + |word| <= |text| && text[i..i + |word|] == word
  }

  /** Python's `word in text` on strings: substring containment, decided by
      trying every starting position from the left. As in Python, the empty
      word occurs in every text and a word longer than the text never does. */
  predicate Occurs(word: string, text: string)
    ensures word == [] ==> Occurs(word, text)
    ensures Occurs(word, text) ==> |word| <= |text|
    decreases |text|
  {
    if |text| < |word| then false
    else text[..|word|] == word || (text != [] && Occurs(word, text[1..]))
  }

  /** `Occurs` holds exactly when `word` sits at some position of `text`. */
  lemma {:induction false} OccursIff(word: string, text: string)
    ensures Occurs(word, text) <==> exists i :: OccursAt(word, text, i)
  {
    if |text| >= |word| {
      if text[..|word|] == word {
        assert OccursAt(word, text, 0);
      } else {
        assert text != [];
        OccursIff(word, text[1..]);
        if Occurs(word, text[1..]) {
          var i :| OccursAt(word, text[1..], i);
          assert text[1..][i..i + |word|] == text[i + 1..i + 1 + |word|];
          assert OccursAt(word, text, i + 1);
        } else {
          forall i | 0 < i && i + |word| <= |text| ensures !OccursAt(word, text, i) {
            assert text[1..][i - 1..i - 1 + |word|] == text[i..i + |word|];
            assert !OccursAt(word, text[1..], i - 1);
          }
          assert !OccursAt(word, text, 0);
        }
      }
    }
  }

  /** A word whose first letter does not occur in the text is not a substring of it. */
  lemma {:induction false} AbsentFirstLetter(word: string, text: string)
    requires word != [] && word[0] !in text
    ensures !Occurs(word, text)
  {
    if |text| >= |word| {
      assert text[0] in text;
      assert forall c :: c in text[1..] ==> c in text;
      AbsentFirstLetter(word, text[1..]);
    }
  }

  /** `any(word in text for word in words)`: some word of the list, tried from
      the left, occurs in the text. */
  predicate AnyOccurs(words: seq<string>, text: string)
    ensures AnyOccurs(words, text) <==> exists k :: 0 <= k < |words| && Occurs(words[k], text)
  {
    if words == [] then false
    else
      assert forall k :: 1 <= k < |words| ==> words[k] == words[1..][k - 1];
      Occurs(words[0], text) || AnyOccurs(words[1..], text)
  }

  /** Some keyword of the list is a substring of the text. */
  ghost predicate HasKeyword(words: seq<string>, text: string) {
    exists k, i :: 0 <= k < |words| && OccursAt(words[k], text, i)
  }

  lemma {:induction false} AnyOccursIff(words: seq<string>, text: string)
    ensures AnyOccurs(words, text) <==> HasKeyword(words, text)
  {
    if words != [] {
      AnyOccursIff(words[1..], text);
      OccursIff(words[0], text);
      if HasKeyword(words, text) {
        var k, i :| 0 <= k < |words| && OccursAt(words[k], text, i);
        if k > 0 {
          assert words[1..][k - 1] == words[k];
        }
      }
      if HasKeyword(words[1..], text) {
        var k, i :| 0 <= k < |words[1..]| && OccursAt(words[1..][k], text, i);
        assert words[k + 1] == words[1..][k];
      }
    }
  }

  /** `categorize(text)` (app.py:52-62). */
  function Categorize(text: string): (category: string)
    ensures category in Labels
  {
    if AnyOccurs(BillWords, text) then "Bill"
    else if AnyOccurs(IdWords, text) then "ID Document"
    else if AnyOccurs(NotesWords, text) then "Notes"
    else if AnyOccurs(CertificateWords, text) then "Certificate"
    else "Uncategorized"
  }

  /** The same decision as an ordered table of keyword lists and labels. */
  datatype Rule = Rule(words: seq<string>, category: string)

  const Rules: seq<Rule> := [
    Rule(BillWords, "Bill"),
    Rule(IdWords, "ID Document"),
    Rule(NotesWords, "Notes"),
    Rule(CertificateWords, "Certificate")
  ]

  /** The five categories are pairwise different strings. */
  lemma LabelsDistinct()
    ensures forall j, k :: 0 <= j < k < |Rules| ==> Rules[j].category != Rules[k].category
    ensures forall j :: 0 <= j < |Rules| ==> Rules[j].category != "Uncategorized"
  {
  }

  /** No rule before position `k` of the table matches. */
  ghost predicate NoEarlierMatch(text: string, k: int)
    requires 0 <= k <= |Rules|
  {
    forall j :: 0 <= j < k ==> !HasKeyword(Rules[j].words, text)
  }

  lemma NoEarlierMatchUnrolled(text: string)
    ensures NoEarlierMatch(text, 0)
    ensures NoEarlierMatch(text, 1) <==> !HasKeyword(BillWords, text)
    ensures NoEarlierMatch(text, 2) <==> NoEarlierMatch(text, 1) && !HasKeyword(IdWords, text)
    ensures NoEarlierMatch(text, 3) <==> NoEarlierMatch(text, 2) && !HasKeyword(NotesWords, text)
    ensures NoEarlierMatch(text, 4) <==> NoEarlierMatch(text, 3) && !HasKeyword(CertificateWords, text)
  {
    assert Rules[0].words == BillWords && Rules[1].words == IdWords;
    assert Rules[2].words == NotesWords && Rules[3].words == CertificateWords;
  }

  /** Priority: the label of rule `k` is returned exactly when no earlier list
      has a keyword in the text and list `k` has one. */
  lemma CategorizePriority(text: string, k: int)
    requires 0 <= k < |Rules|
    ensures Categorize(text) == Rules[k].category
            <==> NoEarlierMatch(text, k) && HasKeyword(Rules[k].words, text)
  {
    LabelsDistinct();
    NoEarlierMatchUnrolled(text);
    AnyOccursIff(BillWords, text);
    AnyOccursIff(IdWords, text);
    AnyOccursIff(NotesWords, text);
    AnyOccursIff(CertificateWords, text);
  }

  /** The fallback is returned exactly when no list has a keyword in the text. */
  lemma CategorizeFallback(text: string)
    ensures Categorize(text) == "Uncategorized" <==> NoEarlierMatch(text, |Rules|)
  {
    LabelsDistinct();
    NoEarlierMatchUnrolled(text);
    AnyOccursIff(BillWords, text);
    AnyOccursIff(IdWords, text);
    AnyOccursIff(NotesWords, text);
    AnyOccursIff(CertificateWords, text);
  }

  /** A bill keyword decides the label whatever else the text contains. */
  lemma BillWins(text: string, k: int, i: int)
    requires 0 <= k < |BillWords| && OccursAt(BillWords[k], text, i)
    ensures Categorize(text) == "Bill"
  {
    AnyOccursIff(BillWords, text);
  }

  /** No non-empty keyword occurs in the empty text. */
  lemma NoneInEmpty(words: seq<string>)
    requires forall k :: 0 <= k < |words| ==> words[k] != []
    ensures !AnyOccurs(words, "")
  {
  }

  lemma EmptyIsUncategorized()
    ensures Categorize("") == "Uncategorized"
  {
    NoneInEmpty(BillWords);
    NoneInEmpty(IdWords);
    NoneInEmpty(NotesWords);
    NoneInEmpty(CertificateWords);
  }

  /** Matching is by substring, not by token: "valid" contains "id". */
  lemma SubstringNotToken()
    ensures Categorize("valid") == "ID Document"
  {
    var text := "valid";
    AbsentFirstLetter("gst", text);
    AbsentFirstLetter("total", text);
    assert forall k :: 0 <= k < |BillWords| ==> !Occurs(BillWords[k], text);
    assert Occurs(IdWords[3], text);
  }
}
