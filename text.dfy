/**
 * The case-insensitive substring test behind the search endpoint's
 * `ilike('%term%')`: ASCII letters are folded to lower case and the folded
 * term must occur somewhere in the folded question text.
 */
module Text {

  function LowerChar(c: char): char
  {
    if 'A' <= c <= 'Z' then (c as int + 32) as char else c
  }

  function UpperChar(c: char): char
  {
    if 'a' <= c <= 'z' then (c as int - 32) as char else c
  }

  function Lower(s: string): (r: string)
    ensures |r| == |s|
    ensures forall i :: 0 <= i < |s| ==> r[i] == LowerChar(s[i])
  {
    seq(|s|, i requires 0 <= i < |s| => LowerChar(s[i]))
  }

  function Upper(s: string): (r: string)
    ensures |r| == |s|
    ensures forall i :: 0 <= i < |s| ==> r[i] == UpperChar(s[i])
  {
    seq(|s|, i requires 0 <= i < |s| => UpperChar(s[i]))
  }

  /** `needle` occurs in `hay` starting at position i. */
  ghost predicate OccursAt(needle: string, hay: string, i: int)
  {
    0 <= i && i + |needle| <= |hay| && hay[i..i + |needle|] == needle
  }

  /** Left-to-right substring search. */
  function Contains(hay: string, needle: string): (r: bool)
    ensures r <==> exists i :: OccursAt(needle, hay, i)
    decreases |hay|
  {
    if |needle| > |hay| then
      assert forall i :: !OccursAt(needle, hay, i);
      false
    else if hay[..|needle|] == needle then
      assert OccursAt(needle, hay, 0);
      true
    else
      var rest := Contains(hay[1..], needle);
      ShiftOccurrence(needle, hay);
      rest
  }

  /** An occurrence in hay[1..] is an occurrence in hay one position later, and back. */
  lemma ShiftOccurrence(needle: string, hay: string)
    requires |hay| > 0 && !OccursAt(needle, hay, 0)
    ensures (exists i :: OccursAt(needle, hay[1..], i)) <==> (exists i :: OccursAt(needle, hay, i))
  {
    if i :| OccursAt(needle, hay[1..], i) {
      assert hay[i + 1..i + 1 + |needle|] == hay[1..][i..i + |needle|];
      assert OccursAt(needle, hay, i + 1);
    }
    if i :| OccursAt(needle, hay, i) {
      assert i >= 1;
      assert hay[1..][i - 1..i - 1 + |needle|] == hay[i..i + |needle|];
      assert OccursAt(needle, hay[1..], i - 1);
    }
  }

  /** `text ILIKE '%term%'`, with ASCII case folding. */
  function ContainsIgnoringCase(text: string, term: string): (r: bool)
    ensures r <==> exists i :: OccursAt(Lower(term), Lower(text), i)
  {
    Contains(Lower(text), Lower(term))
  }

  /** Folding to lower case twice is folding once. */
  lemma LowerIdempotent(s: string)
    ensures Lower(Lower(s)) == Lower(s)
  {
  }

  /** Lower-casing an upper-cased string is the same as lower-casing it directly. */
  lemma LowerOfUpper(s: string)
    ensures Lower(Upper(s)) == Lower(s)
  {
  }

  /**
   * The match does not depend on the case of either the term or the text:
   * lower-casing or upper-casing either one leaves the answer unchanged.
   */
  lemma MatchIgnoresCase(text: string, term: string)
    ensures ContainsIgnoringCase(text, term) == ContainsIgnoringCase(text, Lower(term))
    ensures ContainsIgnoringCase(text, term) == ContainsIgnoringCase(text, Upper(term))
    ensures ContainsIgnoringCase(text, term) == ContainsIgnoringCase(Upper(text), term)
  {
    LowerIdempotent(term);
    LowerOfUpper(term);
    LowerOfUpper(text);
  }

  /** The empty search term (`'%%'`) matches every text. */
  lemma EmptyTermMatchesAll(text: string)
    ensures ContainsIgnoringCase(text, "")
  {
  }

  /** A term that is literally part of the text, in any case, is found. */
  lemma SubstringIsFound(text: string, i: nat, j: nat)
    requires i <= j <= |text|
    ensures ContainsIgnoringCase(text, text[i..j])
    ensures ContainsIgnoringCase(text, Upper(text[i..j]))
  {
    var lt, lterm := Lower(text), Lower(text[i..j]);
    assert lt[i..j] == lterm;
    assert OccursAt(lterm, lt, i);
    MatchIgnoresCase(text, text[i..j]);
  }
}
