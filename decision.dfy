/** The keep/filter decision taken from the model's answer: an answer whose
    lower-cased text contains "yes" anywhere is filtered, every other answer
    is kept. */
module Decision {
  import opened Text

  /** The values the loop writes into the `isFiltered` column. */
  const FilterLabel: string := "Filter"
  const KeepLabel: string := "Keep"

  /** The marker searched for in the lower-cased answer. */
  const Marker: string := "yes"

  /** The label an answer without the marker gets: the decision fails open. */
  const NoMarkerLabel: string := KeepLabel

  /** Reference reading of the decision: the letters y, e, s in either
      case stand next to each other at position `i`. */
  predicate YesAt(s: string, i: nat) {
    i + 3 <= |s| && s[i] in "yY" && s[i + 1] in "eE" && s[i + 2] in "sS"
  }

  ghost predicate MentionsYes(s: string) {
    exists i: nat :: YesAt(s, i)
  }

  lemma LowerCharIs(c: char, lower: char, upper: char)
    requires 'a' <= lower <= 'z' && upper as int == lower as int - 32
    ensures LowerChar(c) == lower <==> c == lower || c == upper
  {
  }

  /** The marker occurs in the lower-cased text exactly where the reference
      reading finds y, e, s in either case. */
  lemma MarkerAt(s: string, i: nat)
    ensures OccursAt(Lower(s), Marker, i) <==> YesAt(s, i)
  {
    if i + 3 <= |s| {
      var l := Lower(s);
      LowerCharIs(s[i], 'y', 'Y');
      LowerCharIs(s[i + 1], 'e', 'E');
      LowerCharIs(s[i + 2], 's', 'S');
      assert l[i..i + 3] == Marker <==> l[i] == 'y' && l[i + 1] == 'e' && l[i + 2] == 's' by {
        if l[i] == 'y' && l[i + 1] == 'e' && l[i + 2] == 's' {
          assert l[i..i + 3] == [l[i], l[i + 1], l[i + 2]];
        }
      }
    }
  }

  lemma MarkerIffMentionsYes(s: string)
    ensures Contains(Lower(s), Marker) <==> MentionsYes(s)
  {
    forall i: nat ensures OccursAt(Lower(s), Marker, i) <==> YesAt(s, i) {
      MarkerAt(s, i);
    }
  }

  /** The `isFiltered` value for one answer. */
  function Decide(analysis: string): (verdict: string)
    ensures verdict == FilterLabel || verdict == KeepLabel
  {
    if Contains(Lower(analysis), Marker) then FilterLabel else KeepLabel
  }

  /** An answer is filtered exactly when it mentions "yes" in any case, and
      kept otherwise. */
  lemma DecideIff(analysis: string)
    ensures Decide(analysis) == FilterLabel <==> MentionsYes(analysis)
    ensures Decide(analysis) == NoMarkerLabel <==> !MentionsYes(analysis)
  {
    MarkerIffMentionsYes(analysis);
  }

  /** Two answers that differ only in the case of their letters get the
      same decision. */
  lemma DecideIgnoresCase(a: string, b: string)
    requires Lower(a) == Lower(b)
    ensures Decide(a) == Decide(b)
  {
  }

  /** An answer without the letter y in either case is always kept. */
  lemma FailOpen(analysis: string)
    requires forall i :: 0 <= i < |analysis| ==> analysis[i] != 'y' && analysis[i] != 'Y'
    ensures Decide(analysis) == KeepLabel
  {
    DecideIff(analysis);
  }

  /** The marker is a plain substring test, so a "yes" inside a longer word
      filters an answer that says to keep the idea. */
  lemma MarkerInsideWord()
    ensures Decide("No - keep idea. Eyes.") == FilterLabel
  {
    assert YesAt("No - keep idea. Eyes.", 17);
    DecideIff("No - keep idea. Eyes.");
  }

  /** An answer in capitals without a "yes" is kept. */
  lemma UpperCaseNoKept()
    ensures Decide("1. NO. Score 80.") == KeepLabel
  {
    FailOpen("1. NO. Score 80.");
  }
}
