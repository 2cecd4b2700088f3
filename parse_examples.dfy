/**
 * Concrete runs of `parse` (src/extension.ts:228-304) on the texts of
 * `LexExamples`.
 */
module ParseExamples {
  import opened Tokens
  import opened Lexing
  import opened DesignUnits
  import opened Recognizer
  import opened LexExamples

  /** The grammar over the tokens of the header: one entity record. */
  lemma HeaderTokensFound(file: string)
    ensures Recognize(file, [
      LexState(6, 0, Token.Entity, "entity", 0), LexState(10, 0, Identifier, "foo", 0),
      LexState(13, 0, Is, "is", 0), LexState(14, 1, Eof, "is", 0)])
      == [DesignUnit(DesignType.Entity, file, 0, "foo", None)]
  {
    var t1 := LexState(6, 0, Token.Entity, "entity", 0);
    var t4 := LexState(14, 1, Eof, "is", 0);
    var rest := [LexState(10, 0, Identifier, "foo", 0), LexState(13, 0, Is, "is", 0), t4];
    assert [t1] + rest == [t1, rest[0], rest[1], t4];
    RecognizeCons(file, t1, rest);
    assert Skip(rest, 2) == [t4];
    RecognizeCons(file, t4, []);
  }

  /** `parse` turns the header into one record for line 0 of the file. */
  lemma HeaderFound(file: string)
    ensures Recognize(file, Stream(Header, Initial)) == [DesignUnit(DesignType.Entity, file, 0, "foo", None)]
  {
    HeaderStream();
    HeaderTokensFound(file);
  }

  /** The grammar over the tokens of the unterminated header: no record. */
  lemma UnterminatedTokensLost(file: string)
    ensures Recognize(file, [
      LexState(6, 0, Token.Entity, "entity", 0), LexState(10, 0, Identifier, "foo", 0),
      LexState(13, 0, Identifier, "foo", 0), LexState(13, 0, Eof, "foo", 0)]) == []
  {
    var t1 := LexState(6, 0, Token.Entity, "entity", 0);
    var t4 := LexState(13, 0, Eof, "foo", 0);
    var rest := [LexState(10, 0, Identifier, "foo", 0), LexState(13, 0, Identifier, "foo", 0), t4];
    assert [t1] + rest == [t1, rest[0], rest[1], t4];
    assert Skip(rest, 2) == [t4];
    assert Attempt(file, t1, rest) == (None, [t4]);
    RecognizeCons(file, t1, rest);
    RecognizeCons(file, t4, []);
  }

  /** The unterminated header yields no record. */
  lemma UnterminatedLost(file: string)
    ensures Recognize(file, Stream(Unterminated, Initial)) == []
  {
    UnterminatedStream();
    UnterminatedTokensLost(file);
  }
}
