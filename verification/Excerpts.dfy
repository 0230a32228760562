/** Which tokens or bytes stand at a place of a text: the round trips say of a printed text that it stands
    where the parser begins. */
module Excerpts {

  ghost predicate Here<T>(text: seq<T>, pos: nat, part: seq<T>) {
    pos + |part| <= |text| && text[pos..pos + |part|] == part
  }

  lemma WholeIsHere<T>(text: seq<T>)
    ensures Here(text, 0, text)
  {
  }

  lemma HereParts<T>(text: seq<T>, pos: nat, a: seq<T>, b: seq<T>)
    requires Here(text, pos, a + b)
    ensures Here(text, pos, a) && Here(text, pos + |a|, b)
  {
    assert text[pos..pos + |a|] == (a + b)[..|a|] == a;
    assert text[pos + |a|..pos + |a| + |b|] == (a + b)[|a|..] == b;
  }

  lemma HereAt<T>(text: seq<T>, pos: nat, part: seq<T>, i: nat)
    requires Here(text, pos, part) && i < |part|
    ensures pos + i < |text| && text[pos + i] == part[i]
  {
    assert text[pos..pos + |part|][i] == text[pos + i];
  }

  // For proofs in which Here is hidden.
  lemma HereLength<T>(text: seq<T>, pos: nat, part: seq<T>)
    requires Here(text, pos, part)
    ensures pos + |part| <= |text|
  {
  }
}
