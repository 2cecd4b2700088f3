/**
 * The class `parser` of src/extension.ts:45-305: a cursor over one file's text,
 * a line counter, and the last token with its text and start line, advanced by
 * `lex` and driven by `parse`.
 */
module Scanner {
  import opened Text
  import opened Tokens
  import opened Lexing
  import opened DesignUnits
  import opened Recognizer

  class Parser {
    const file: string
    const input: string
    const size: nat

    var currentToken: Token
    var currentText: string
    var currentLine: nat

    var position: nat
    var lineno: nat

    /**
     * The cursor stays within the text and never between the CR and the LF of
     * a CRLF pair, the line counter is the number of line terminators before
     * the cursor, and `Eof` is only ever the token at the end of the text.
     */
    ghost predicate Valid()
      reads this
    {
      size == |input| && position <= size && NoSplit(input, position) &&
      lineno == LinesBefore(input, position) &&
      (currentToken == Eof ==> position == size)
    }

    /** The scanner state as a value. */
    function State(): LexState
      reads this
    {
      LexState(position, lineno, currentToken, currentText, currentLine)
    }

    /** The caller passes the text and its length (src/extension.ts:389). */
    constructor (file: string, input: string, size: nat)
      requires size == |input|
      ensures Valid()
      ensures this.file == file && this.input == input && this.size == size
      ensures State() == Initial
    {
      this.file := file;
      this.input := input;
      this.size := size;
      currentToken := Invalid;
      currentText := "";
      currentLine := 0;
      position := 0;
      lineno := 0;
    }

    /**
     * The next token (src/extension.ts:60-145). Blanks, line terminators, line
     * comments and every character that cannot start an identifier are passed
     * over; the line counter advances once per LF, CR or CRLF.
     */
    method Lex() returns (t: Token)
      requires Valid()
      modifies this
      ensures Valid()
      ensures State() == Lexing.Lex(input, old(State()))
      ensures t == currentToken
    {
      while position < size && input[position] == ' '
        invariant Valid()
        invariant old(position) <= position
        invariant NextStart(input, position) == NextStart(input, old(position))
        invariant currentToken == old(currentToken) && currentText == old(currentText)
        invariant currentLine == old(currentLine)
      {
        PassOver(input, position);
        position := position + 1;
      }

      while position < size
        invariant Valid()
        invariant old(position) <= position
        invariant NextStart(input, position) == NextStart(input, old(position))
        invariant currentToken == old(currentToken) && currentText == old(currentText)
        invariant currentLine == old(currentLine)
      {
        if IsLetter(input[position]) {
          LexAtWord(input, old(State()), position);
          ScanIdentifierOrKeyword();
          t := currentToken;
          return;
        }
        PassOverOne();
      }

      LexAtEnd(input, old(State()));
      if position >= size {
        currentToken := Eof;
      } else {
        // The loop only ends at the end of the text, so `token.invalid` is never set here.
        assert false;
      }
      t := currentToken;
    }

    /**
     * The cases of the `switch` in `lex` (src/extension.ts:68-136) for a
     * character that cannot start an identifier: a blank; a CR, a CRLF pair or an
     * LF, which count one line; two hyphens and the comment text after them; a
     * single hyphen; a double quote, after which `scan_string` consumes nothing;
     * and any other character. The cursor moves on and the next identifier
     * start stays where it was.
     */
    method PassOverOne()
      requires Valid() && position < size && !IsLetter(input[position])
      modifies this`position, this`lineno
      ensures Valid()
      ensures old(position) < position
      ensures position ==
        if CommentOpens(input, old(position)) then CommentEnd(input, old(position) + 2)
        else if input[old(position)] == '\r' && old(position) + 1 < size && input[old(position) + 1] == '\n' then old(position) + 2
        else old(position) + 1
      ensures NextStart(input, position) == NextStart(input, old(position))
    {
      var c := input[position];
      if c == ' ' {
        PassOver(input, position);
        position := position + 1;
      } else if c == '\r' {
        if position + 1 < size && input[position + 1] == '\n' {
          PassOverCrLf(input, position);
          position := position + 2;
        } else {
          PassOver(input, position);
          position := position + 1;
        }
        lineno := lineno + 1;
      } else if c == '\n' {
        PassOver(input, position);
        position := position + 1;
        lineno := lineno + 1;
      } else if c == '-' {
        if position + 1 < size && input[position + 1] == '-' {
          PassOverCommentOpen(input, position);
          position := position + 2;
          SkipCommentText();
        } else {
          PassOver(input, position);
          position := position + 1;
        }
      } else if c == '"' {
        PassOver(input, position);
        position := position + 1;
        ScanString();
      } else {
        PassOver(input, position);
        position := position + 1;
      }
    }

    /**
     * The inner loop of the `'-'` case of `lex` (src/extension.ts:87-94): after
     * the two hyphens of a line comment, the cursor moves up to the next line
     * terminator, or to the end of the text.
     */
    method SkipCommentText()
      requires Valid()
      modifies this`position
      ensures Valid()
      ensures position == CommentEnd(input, old(position))
    {
      while position < size
        invariant Valid()
        invariant CommentEnd(input, position) == CommentEnd(input, old(position))
      {
        if input[position] == '\r' || input[position] == '\n' {
          break;
        }
        PassOverCommentText(input, position);
        position := position + 1;
      }
    }

    /**
     * Meant to skip a string literal, but its guard `_position <= _size`
     * (src/extension.ts:150) always holds, so it returns at once and consumes
     * nothing; the loop behind the guard is never reached.
     */
    method ScanString()
      requires Valid()
      modifies this`position
      ensures position == old(position)
    {
      if position <= size {
        return;
      }
      assert false;
    }

    /**
     * Accumulates the identifier at the cursor (src/extension.ts:164-226). If it
     * runs to the end of the text only the cursor and `currentLine` change;
     * otherwise the text is classified and `currentText` becomes its lower-cased
     * form, for keywords as well as identifiers.
     */
    method ScanIdentifierOrKeyword()
      requires Valid()
      modifies this
      ensures Valid()
      ensures position == WordEnd(input, old(position))
      ensures lineno == old(lineno) && currentLine == old(lineno)
      ensures position == size ==> currentToken == old(currentToken) && currentText == old(currentText)
      ensures position < size ==>
        currentToken == Classify(input[old(position)..position]) &&
        currentText == Lower(input[old(position)..position])
    {
      currentLine := lineno;
      var text := GatherWord();
      if position >= size {
        return;
      }
      var tok := ClassifyText(text);
      currentToken := tok;
      currentText := Lower(text);
    }

    /** The loop of `scan_identifier_or_keyword`: the identifier characters from the cursor on. */
    method GatherWord() returns (text: string)
      requires Valid()
      modifies this
      ensures Valid()
      ensures position == WordEnd(input, old(position)) && text == input[old(position)..position]
      ensures lineno == old(lineno) && currentLine == old(currentLine)
      ensures currentToken == old(currentToken) && currentText == old(currentText)
    {
      text := "";
      ghost var start := position;
      while position < size && IsWordChar(input[position])
        invariant Valid()
        invariant start <= position
        invariant text == input[start..position]
        invariant WordEnd(input, position) == WordEnd(input, start)
        invariant lineno == old(lineno) && currentLine == old(currentLine)
        invariant currentToken == old(currentToken) && currentText == old(currentText)
      {
        assert input[start..position + 1] == input[start..position] + [input[position]];
        text := text + [input[position]];
        position := position + 1;
      }
    }

    /**
     * The catalogue of one file (src/extension.ts:228-304): `lex` is called
     * until it yields `Eof`, and each `entity`, `architecture`, `package`,
     * `package body` and `configuration` header whose tokens arrive in the
     * expected order becomes a record; the first token out of order abandons
     * the header and the next turn starts after it.
     */
    method Parse() returns (result: seq<DesignUnit>)
      requires Valid()
      modifies this
      ensures Valid() && currentToken == Eof
      ensures result == Recognize(file, Stream(input, old(State())))
    {
      result := [];
      while currentToken != Eof
        invariant Valid()
        invariant result + Recognize(file, Stream(input, State())) == Recognize(file, Stream(input, old(State())))
        decreases size - position, if currentToken == Eof then 0 else 1
      {
        var found := ParseTurn();
        PushFound(result, found, Recognize(file, Stream(input, State())));
        if found.Some? {
          result := result + [found.value];
        }
      }
    }

    /**
     * One turn of the loop of `parse` (src/extension.ts:234-297): `lex`, then
     * the rest of the header the token opens, if any. The records of the
     * stream before the turn are the one found, then those of the stream after.
     */
    method ParseTurn() returns (found: Option<DesignUnit>)
      requires Valid() && currentToken != Eof
      modifies this
      ensures Valid()
      ensures old(position) < position || currentToken == Eof
      ensures Recognize(file, Stream(input, old(State()))) ==
        (if found.Some? then [found.value] else []) + Recognize(file, Stream(input, State()))
    {
      ghost var toks := Stream(input, State());
      var t := Lex();
      var ln := currentLine;
      ghost var lead := State();
      ghost var rest := Stream(input, State());
      assert toks == [lead] + rest;
      found := ParseHeader(t, ln);
      RecognizeCons(file, lead, rest);
    }

    /**
     * The `switch` of `parse` (src/extension.ts:236-297) on the token just
     * lexed: each header keyword reads the rest of its header; any other token
     * is passed over.
     */
    method ParseHeader(t: Token, ln: nat) returns (found: Option<DesignUnit>)
      requires Valid() && t == currentToken && ln == currentLine
      modifies this
      ensures Valid()
      ensures old(position) <= position
      ensures (found, Stream(input, State())) == Attempt(file, old(State()), Stream(input, old(State())))
    {
      found := None;
      if t == Token.Entity {
        found := ParseNamed(DesignType.Entity, ln);
      } else if t == Token.Architecture {
        found := ParseTarget(DesignType.Architecture, ln);
      } else if t == Token.Package {
        found := ParsePackage(ln);
      } else if t == Token.Configuration {
        found := ParseTarget(DesignType.Configuration, ln);
      }
    }

    /**
     * The `entity` case of `parse` (src/extension.ts:238-246), and the
     * `package body` case once `body` has been read (src/extension.ts:262-270):
     * an identifier, then `is`.
     */
    method ParseNamed(kind: DesignType, ln: nat) returns (found: Option<DesignUnit>)
      requires Valid()
      modifies this
      ensures Valid()
      ensures old(position) <= position
      ensures (found, Stream(input, State())) == NamedHeader(kind, file, ln, Stream(input, old(State())))
    {
      ghost var rest := Stream(input, State());
      found := None;
      StreamAdvance(input, State(), rest, 0);
      var t := Lex();
      if t != Identifier {
        return;
      }
      var name := currentText;
      StreamAdvance(input, State(), rest, 1);
      t := Lex();
      if t != Is {
        return;
      }
      found := Some(DesignUnit(kind, file, ln, name, None));
    }

    /**
     * The `architecture` and `configuration` cases of `parse`
     * (src/extension.ts:247-259 and 281-293), which differ only in the kind of
     * the record: the unit's name, then the rest of the header.
     */
    method ParseTarget(kind: DesignType, ln: nat) returns (found: Option<DesignUnit>)
      requires Valid()
      modifies this
      ensures Valid()
      ensures old(position) <= position
      ensures (found, Stream(input, State())) == TargetHeader(kind, file, ln, Stream(input, old(State())))
    {
      ghost var rest := Stream(input, State());
      found := None;
      StreamAdvance(input, State(), rest, 0);
      var t := Lex();
      if t != Identifier {
        return;
      }
      var name := currentText;
      StreamAdvance(input, State(), rest, 1);
      found := ParseOfTarget(kind, ln, name);
    }

    /** `of`, after the name of an architecture or a configuration, then the rest of the header. */
    method ParseOfTarget(kind: DesignType, ln: nat, name: string) returns (found: Option<DesignUnit>)
      requires Valid()
      modifies this
      ensures Valid()
      ensures old(position) <= position
      ensures (found, Stream(input, State())) == OfTarget(kind, file, ln, name, Stream(input, old(State())))
    {
      ghost var rest := Stream(input, State());
      found := None;
      StreamAdvance(input, State(), rest, 0);
      var t := Lex();
      if t != Of {
        return;
      }
      StreamAdvance(input, State(), rest, 1);
      found := ParseTargetIs(kind, ln, name);
    }

    /** The entity's identifier and `is`, after `of`. */
    method ParseTargetIs(kind: DesignType, ln: nat, name: string) returns (found: Option<DesignUnit>)
      requires Valid()
      modifies this
      ensures Valid()
      ensures old(position) <= position
      ensures (found, Stream(input, State())) == TargetIs(kind, file, ln, name, Stream(input, old(State())))
    {
      ghost var rest := Stream(input, State());
      found := None;
      StreamAdvance(input, State(), rest, 0);
      var t := Lex();
      if t != Identifier {
        return;
      }
      var target := currentText;
      StreamAdvance(input, State(), rest, 1);
      t := Lex();
      if t != Is {
        return;
      }
      found := Some(DesignUnit(kind, file, ln, name, Some(target)));
    }

    /** The `package` case of `parse`, with and without `body` (src/extension.ts:260-280). */
    method ParsePackage(ln: nat) returns (found: Option<DesignUnit>)
      requires Valid()
      modifies this
      ensures Valid()
      ensures old(position) <= position
      ensures (found, Stream(input, State())) == PackageHeader(file, ln, Stream(input, old(State())))
    {
      ghost var rest := Stream(input, State());
      found := None;
      StreamAdvance(input, State(), rest, 0);
      var tk := Lex();
      if tk == Body {
        found := ParseNamed(DesignType.PackageBody, ln);
      } else {
        if tk != Identifier {
          return;
        }
        var pn := currentText;
        StreamAdvance(input, State(), rest, 1);
        var t := Lex();
        if t != Is {
          return;
        }
        found := Some(DesignUnit(DesignType.Package, file, ln, pn, None));
      }
    }
  }

  /**
   * The chain of substring tests that classifies an accumulated word
   * (src/extension.ts:202-221): the first keyword of the list found anywhere
   * in the word, ignoring case, and otherwise `Identifier`.
   */
  method ClassifyText(text: string) returns (tok: Token)
    ensures tok == Classify(text)
    ensures tok == Identifier || IsKeyword(tok)
  {
    ClassifyInOrder(text);
    if Matches(text, "entity") {
      tok := Token.Entity;
    } else if Matches(text, "architecture") {
      tok := Token.Architecture;
    } else if Matches(text, "of") {
      tok := Of;
    } else if Matches(text, "package") {
      tok := Token.Package;
    } else if Matches(text, "body") {
      tok := Body;
    } else if Matches(text, "configuration") {
      tok := Token.Configuration;
    } else if Matches(text, "library") {
      tok := Library;
    } else if Matches(text, "use") {
      tok := Use;
    } else if Matches(text, "is") {
      tok := Is;
    } else {
      tok := Identifier;
    }
  }
}
