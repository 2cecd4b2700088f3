/**
 * The `token` enumeration of src/extension.ts and the keyword classification
 * that `scan_identifier_or_keyword` applies to an accumulated identifier.
 */
module Tokens {
  import opened Text

  datatype Token =
    | Invalid | Eof
    | Entity | Architecture | Of | Package | Body | Configuration | Library | Use | Is
    | Identifier

  /** The keyword tokens with their spelling, in the order the classifier tries them. */
  const Keywords: seq<(string, Token)> := [
    ("entity", Entity), ("architecture", Architecture), ("of", Of),
    ("package", Package), ("body", Body), ("configuration", Configuration),
    ("library", Library), ("use", Use), ("is", Is)
  ]

  /** A case-insensitive, unanchored regular-expression match of the lower-case keyword `k`. */
  predicate Matches(text: string, k: string) {
    Contains(Lower(text), k)
  }

  /** The index of the first entry of `table` whose keyword `text` matches, or `|table|` when none does. */
  function MatchIndex(text: string, table: seq<(string, Token)>): (i: nat)
    ensures i <= |table|
    ensures forall j :: 0 <= j < i ==> !Matches(text, table[j].0)
    ensures i < |table| ==> Matches(text, table[i].0)
  {
    if table == [] then 0
    else if Matches(text, table[0].0) then 0
    else
      var i := 1 + MatchIndex(text, table[1..]);
      assert forall j :: 1 <= j < |table| ==> table[j] == table[1..][j - 1];
      i
  }

  /** The token of the first entry of `table` whose keyword `text` matches, or `Identifier`. */
  function ClassifyIn(text: string, table: seq<(string, Token)>): Token {
    if table == [] then Identifier
    else if Matches(text, table[0].0) then table[0].1
    else ClassifyIn(text, table[1..])
  }

  /** The classification of an accumulated identifier text (src/extension.ts:202-221). */
  function Classify(text: string): Token {
    ClassifyIn(text, Keywords)
  }

  /** Walking the table stops at the first matching entry. */
  lemma {:induction false} ClassifyInIndex(text: string, table: seq<(string, Token)>)
    ensures ClassifyIn(text, table) ==
      var i := MatchIndex(text, table);
      if i < |table| then table[i].1 else Identifier
  {
    if table != [] && !Matches(text, table[0].0) {
      ClassifyInIndex(text, table[1..]);
    }
  }

  /** The position of a keyword token in the table. */
  function KeywordRank(t: Token): nat {
    match t
    case Entity => 0
    case Architecture => 1
    case Of => 2
    case Package => 3
    case Body => 4
    case Configuration => 5
    case Library => 6
    case Use => 7
    case Is => 8
    case _ => 9
  }

  lemma KeywordsRanked(i: nat)
    requires i < |Keywords|
    ensures KeywordRank(Keywords[i].1) == i
  {
  }

  predicate IsKeyword(t: Token) {
    t in {Entity, Architecture, Of, Package, Body, Configuration, Library, Use, Is}
  }

  /**
   * The classifier gives a keyword exactly when the text contains that keyword
   * and none of the keywords tried before it.
   */
  lemma ClassifySpec(text: string, k: nat)
    requires k < |Keywords|
    ensures Classify(text) == Keywords[k].1 <==>
      Matches(text, Keywords[k].0) && forall j :: 0 <= j < k ==> !Matches(text, Keywords[j].0)
  {
    ClassifyInIndex(text, Keywords);
    var i := MatchIndex(text, Keywords);
    KeywordsRanked(k);
    if i < |Keywords| {
      KeywordsRanked(i);
    }
  }

  /** It gives `Identifier` exactly when the text contains no keyword at all. */
  lemma ClassifyIdentifier(text: string)
    ensures Classify(text) == Identifier <==> forall j :: 0 <= j < |Keywords| ==> !Matches(text, Keywords[j].0)
  {
    ClassifyInIndex(text, Keywords);
    var i := MatchIndex(text, Keywords);
    if i < |Keywords| {
      KeywordsRanked(i);
    }
  }

  /** Classification never yields `Invalid` or `Eof`. */
  lemma ClassifyRange(text: string)
    ensures Classify(text) == Identifier || IsKeyword(Classify(text))
  {
    ClassifyInIndex(text, Keywords);
  }

  /** The table walk is the chain of `if`s of src/extension.ts:202-221. */
  lemma ClassifyInOrder(text: string)
    ensures Classify(text) ==
      if Matches(text, "entity") then Entity
      else if Matches(text, "architecture") then Architecture
      else if Matches(text, "of") then Of
      else if Matches(text, "package") then Package
      else if Matches(text, "body") then Body
      else if Matches(text, "configuration") then Configuration
      else if Matches(text, "library") then Library
      else if Matches(text, "use") then Use
      else if Matches(text, "is") then Is
      else Identifier
  {
    ClassifyInIndex(text, Keywords);
    var i := MatchIndex(text, Keywords);
    assert Keywords[0].0 == "entity" && Keywords[1].0 == "architecture" && Keywords[2].0 == "of";
    assert Keywords[3].0 == "package" && Keywords[4].0 == "body" && Keywords[5].0 == "configuration";
    assert Keywords[6].0 == "library" && Keywords[7].0 == "use" && Keywords[8].0 == "is";
    assert forall j :: 0 <= j < i ==> !Matches(text, Keywords[j].0);
  }

  /** Lower-casing a text first does not change its classification, since matching ignores case already. */
  lemma ClassifyLower(text: string)
    ensures Classify(Lower(text)) == Classify(text)
  {
    LowerIdempotent(text);
    ClassifyInOrder(text);
    ClassifyInOrder(Lower(text));
  }

  /** The keywords are spelled in lower-case letters. */
  lemma KeywordLetters(j: nat)
    requires j < |Keywords|
    ensures forall i :: 0 <= i < |Keywords[j].0| ==> 'a' <= Keywords[j].0[i] <= 'z'
  {
  }

  /**
   * Matching is unanchored: a word with any keyword inside it, such as
   * `packagex` or `thesis`, is never an identifier.
   */
  lemma KeywordInside(a: string, j: nat, b: string)
    requires j < |Keywords|
    ensures Classify(a + Keywords[j].0 + b) != Identifier
  {
    var k := Keywords[j].0;
    KeywordLetters(j);
    LowerFixed(k);
    LowerAppend(a, k);
    LowerAppend(a + k, b);
    assert Contains(k, k) by { assert OccursAt(k, k, 0); }
    ContainsExtend(Lower(a), k, Lower(b), k);
    ClassifyIdentifier(a + k + b);
  }
}
