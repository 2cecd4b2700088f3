/**
 * Concrete runs of `lex` (src/extension.ts:60-226) on small texts, showing its
 * quirks: keywords are found anywhere inside a word, the keyword tried first
 * wins, a word that ends the text keeps the previous token, and `Invalid` can
 * come back.
 */
module LexExamples {
  import opened Text
  import opened Tokens
  import opened Lexing

  /** A name with no keyword in it is an identifier. */
  lemma ClassifyPlainName()
    ensures Classify("foo") == Identifier
  {
    assert Lower("foo") == "foo";
    assert !Matches("foo", "entity");
    assert !Matches("foo", "architecture");
    assert !Matches("foo", "of") by { OccursIff("foo", "of"); }
    assert !Matches("foo", "package");
    assert !Matches("foo", "body");
    assert !Matches("foo", "configuration");
    assert !Matches("foo", "library");
    assert !Matches("foo", "use") by { OccursIff("foo", "use"); }
    assert !Matches("foo", "is") by { OccursIff("foo", "is"); }
    ClassifyInOrder("foo");
  }

  /** A word that merely contains `is` is the keyword `is`. */
  lemma ClassifyKeywordInside()
    ensures Classify("this") == Is
  {
    assert Lower("this") == "this";
    assert !Matches("this", "entity");
    assert !Matches("this", "architecture");
    assert !Matches("this", "of") by { OccursIff("this", "of"); }
    assert !Matches("this", "package");
    assert !Matches("this", "body") by { OccursIff("this", "body"); }
    assert !Matches("this", "configuration");
    assert !Matches("this", "library");
    assert !Matches("this", "use") by { OccursIff("this", "use"); }
    assert OccursAt("this", "is", 2);
    ClassifyInOrder("this");
  }

  /** Matching ignores case: `Profile` contains `of`. */
  lemma ClassifyIgnoresCase()
    ensures Classify("Profile") == Of
  {
    assert Lower("Profile") == "profile";
    assert !Matches("Profile", "entity") by { OccursIff("profile", "entity"); }
    assert !Matches("Profile", "architecture");
    assert OccursAt("profile", "of", 2);
    ClassifyInOrder("Profile");
  }

  /** `of` is tried before `body`, wherever they stand in the word. */
  lemma ClassifyListOrder()
    ensures Classify("bodyof") == Of
  {
    assert Lower("bodyof") == "bodyof";
    assert !Matches("bodyof", "entity") by { OccursIff("bodyof", "entity"); }
    assert !Matches("bodyof", "architecture");
    assert OccursAt("bodyof", "of", 4);
    ClassifyInOrder("bodyof");
  }

  /** The keywords spell themselves. */
  lemma ClassifyEntity()
    ensures Classify("entity") == Token.Entity
  {
    assert Lower("entity") == "entity";
    assert OccursAt("entity", "entity", 0);
    ClassifyInOrder("entity");
  }

  lemma ClassifyIs()
    ensures Classify("is") == Is
  {
    assert Lower("is") == "is";
    assert !Matches("is", "of") by { OccursIff("is", "of"); }
    assert OccursAt("is", "is", 0);
    ClassifyInOrder("is");
  }

  /** A one-line entity header. */
  const Header: string := "entity foo is\n"

  lemma HeaderToken1()
    ensures Lex(Header, Initial) == LexState(6, 0, Token.Entity, "entity", 0)
  {
    assert NextStart(Header, 0) == 0 && WordEnd(Header, 0) == 6;
    assert Header[0..6] == "entity" && Lower("entity") == "entity";
    LexAtWord(Header, Initial, 0);
    ClassifyEntity();
  }

  lemma HeaderToken2()
    ensures Lex(Header, LexState(6, 0, Token.Entity, "entity", 0)) == LexState(10, 0, Identifier, "foo", 0)
  {
    assert NextStart(Header, 6) == 7 && WordEnd(Header, 7) == 10;
    assert Header[7..10] == "foo" && Lower("foo") == "foo";
    assert LinesBefore(Header, 7) == 0 && LinesBefore(Header, 10) == 0;
    LexAtWord(Header, LexState(6, 0, Token.Entity, "entity", 0), 7);
    ClassifyPlainName();
  }

  lemma HeaderToken3()
    ensures Lex(Header, LexState(10, 0, Identifier, "foo", 0)) == LexState(13, 0, Is, "is", 0)
  {
    assert NextStart(Header, 10) == 11 && WordEnd(Header, 11) == 13;
    assert Header[11..13] == "is" && Lower("is") == "is";
    assert LinesBefore(Header, 11) == 0 && LinesBefore(Header, 13) == 0;
    LexAtWord(Header, LexState(10, 0, Identifier, "foo", 0), 11);
    ClassifyIs();
  }

  lemma HeaderToken4()
    ensures Lex(Header, LexState(13, 0, Is, "is", 0)) == LexState(14, 1, Eof, "is", 0)
  {
    assert NextStart(Header, 13) == 14;
    assert LinesBefore(Header, 14) == 1;
    LexAtEnd(Header, LexState(13, 0, Is, "is", 0));
  }

  /** The four tokens `parse` sees: `entity`, `foo`, `is` and the end of the text on line 1. */
  lemma HeaderStream()
    ensures Stream(Header, Initial) == [
      LexState(6, 0, Token.Entity, "entity", 0), LexState(10, 0, Identifier, "foo", 0),
      LexState(13, 0, Is, "is", 0), LexState(14, 1, Eof, "is", 0)]
  {
    HeaderToken1();
    HeaderToken2();
    HeaderToken3();
    HeaderToken4();
  }

  /**
   * Without the final line break the last word runs to the end of the text,
   * so `lex` leaves the previous token, the identifier `foo`, in place of
   * `is`, and the header is abandoned.
   */
  const Unterminated: string := "entity foo is"

  lemma UnterminatedToken3()
    ensures Lex(Unterminated, LexState(10, 0, Identifier, "foo", 0)) == LexState(13, 0, Identifier, "foo", 0)
  {
    assert NextStart(Unterminated, 10) == 11 && WordEnd(Unterminated, 11) == 13;
    assert LinesBefore(Unterminated, 11) == 0;
    LexAtWord(Unterminated, LexState(10, 0, Identifier, "foo", 0), 11);
  }

  lemma UnterminatedToken1()
    ensures Lex(Unterminated, Initial) == LexState(6, 0, Token.Entity, "entity", 0)
  {
    assert NextStart(Unterminated, 0) == 0 && WordEnd(Unterminated, 0) == 6;
    assert Unterminated[0..6] == "entity" && Lower("entity") == "entity";
    LexAtWord(Unterminated, Initial, 0);
    ClassifyEntity();
  }

  lemma UnterminatedToken2()
    ensures Lex(Unterminated, LexState(6, 0, Token.Entity, "entity", 0)) == LexState(10, 0, Identifier, "foo", 0)
  {
    assert NextStart(Unterminated, 6) == 7 && WordEnd(Unterminated, 7) == 10;
    assert Unterminated[7..10] == "foo" && Lower("foo") == "foo";
    assert LinesBefore(Unterminated, 7) == 0 && LinesBefore(Unterminated, 10) == 0;
    LexAtWord(Unterminated, LexState(6, 0, Token.Entity, "entity", 0), 7);
    ClassifyPlainName();
  }

  lemma UnterminatedToken4()
    ensures Lex(Unterminated, LexState(13, 0, Identifier, "foo", 0)) == LexState(13, 0, Eof, "foo", 0)
  {
    LexAtEnd(Unterminated, LexState(13, 0, Identifier, "foo", 0));
  }

  lemma UnterminatedStream()
    ensures Stream(Unterminated, Initial) == [
      LexState(6, 0, Token.Entity, "entity", 0), LexState(10, 0, Identifier, "foo", 0),
      LexState(13, 0, Identifier, "foo", 0), LexState(13, 0, Eof, "foo", 0)]
  {
    UnterminatedToken1();
    UnterminatedToken2();
    UnterminatedToken3();
    UnterminatedToken4();
  }

  /**
   * A text that is one identifier and nothing else: `lex` reaches the end
   * inside it and hands back the parser's initial token, `Invalid`.
   */
  lemma InvalidReturned()
    ensures Lex("abc", Initial).token == Invalid
  {
    LexAtWord("abc", Initial, 0);
  }
}
