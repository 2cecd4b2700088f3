# VHDL design-unit catalogue: the scanner and the header grammar

The extension indexes the VHDL files of a workspace so that the user can jump
to an entity, architecture, package, package body or configuration. This model
covers its core, the `parser` class of `src/extension.ts`:

- `lex` reads the next token, passing over blanks, line terminators (LF, CR
  and CRLF each count one line) and line comments (`--` up to the end of the
  line).
- `scan_identifier_or_keyword` gathers an identifier and classifies it. The
  classifier is a chain of case-insensitive, unanchored regular-expression
  tests tried in a fixed order. A word containing `is` and none of the keywords
  tried before it, such as `this`, is therefore the keyword `is`, and `bodyof`
  is `of`, because `of` is tried before `body`.
- `scan_string` is meant to skip a string literal.
- `parse` calls `lex` until the end of the text and turns each header whose
  tokens arrive in the expected order into a `design_unit` record.

The model also covers `design_item`, which gives each record its label and
its description in the quick-pick list.

The modules follow the program:

- `Text`: the character classes, ASCII lower-casing, substring search and line
  counting.
- `Tokens`: the `token` enumeration and the keyword classification.
- `Lexing`: a value-level reference definition of one `lex` call, `Lex`, and
  of the token stream that repeated calls produce, `Stream`. Lemmas about
  them live here too.
- `DesignUnits`: the `design_type` enumeration and the `design_unit` record.
- `Recognizer`: the grammar `parse` applies, stated over a whole token stream
  (`Recognize`). Lemmas about the records it yields live here too.
- `Scanner`: the class `Parser`, with the source's fields and methods. Its
  loops are proved against `Lexing.Lex`, and `Parse` against
  `Recognizer.Recognize`.
- `DesignItems`: labels and descriptions, with the round trips that show what
  they determine.
- `LineEnds`: the same file written with LF and with CRLF line ends gives the
  same tokens on the same lines, and so the same records.
- `LexExamples` and `ParseExamples`: concrete texts that show the quirks.

The model keeps the program's quirks, as written:

- Keywords are matched as substrings, in priority order.
- `current_text` is updated for keywords as well as identifiers.
- The guard of `scan_string` (`_position <= _size`) always holds. `scan_string`
  therefore returns at once, and the text of a string literal is scanned like
  any other text, so keywords inside it are tokens.
- When an identifier runs to the end of the text, `scan_identifier_or_keyword`
  returns before classifying it. The token and its text stay what they were.
  On the first call that token is `invalid`, and `lex` returns it.
- For the same reason, a header whose final `is` is the last thing in the file
  (`entity foo is` with no line end after it) yields no record.

The name `scan_string` and its call from the `'"'` case of `lex`
(src/extension.ts:100-103) show that it was meant to skip a string literal.
The guard at src/extension.ts:150 keeps it from doing so, and the model follows
the code.

## Model

| member | source | states |
|---|---|---|
| Text.LowerChar | src/extension.ts:222 | lower-casing maps letters to `a`-`z` and leaves every other character alone |
| Text.Lower | src/extension.ts:222 | lower-casing keeps the length and maps each character on its own |
| Text.LowerOfWord | src/extension.ts:222 | the lower-cased form of an identifier is a lower-case identifier |
| Text.LowerIdempotent | src/extension.ts:222 | lower-casing twice is lower-casing once |
| Text.PrefixOfIff | src/extension.ts:202-221 | the character-by-character prefix test agrees with slicing |
| Text.OccursIff | src/extension.ts:202-221 | the left-to-right scan finds a keyword exactly when it occurs at some index, which is what an unanchored `match` finds |
| Text.ContainsExtend | src/extension.ts:202-221 | a word that has a keyword inside it still contains it after text is added on either side |
| Text.LinesFlat | src/extension.ts:72-82 | text without line terminators adds no line |
| Text.LinesMonotone | src/extension.ts:72-82 | the line counter never goes back as the cursor moves forward |
| Text.LinesBefore | src/extension.ts:72-82 | definition: the line terminators before a position, a CRLF pair counting once; its properties are the lemmas below |
| Text.LowerAppend | src/extension.ts:222 | lower-casing a concatenation lower-cases each part |
| Text.LowerFixed | src/extension.ts:222 | lower-case letters are left as they are |
| Tokens.ClassifyIn | src/extension.ts:202-221 | definition: the first entry of the keyword table whose keyword the text contains, else `identifier`; stated by `ClassifyInIndex` and `ClassifySpec` |
| Tokens.Classify | src/extension.ts:202-221 | definition: the table walk over the keywords in the order the chain tests them; stated by `ClassifySpec` and `ClassifyIdentifier` |
| Tokens.MatchIndex | src/extension.ts:202-221 | the index found is that of the first keyword that matches; no earlier keyword matches |
| Tokens.ClassifyInIndex | src/extension.ts:202-221 | walking the keyword table gives the token of the first matching entry, or `identifier` |
| Tokens.KeywordsRanked | src/extension.ts:202-221 | the keyword table lists the tokens in the order the chain tests them |
| Tokens.ClassifySpec | src/extension.ts:202-221 | a text is classified as the k-th keyword exactly when it contains that keyword and none tried before it, for every k |
| Tokens.ClassifyIdentifier | src/extension.ts:202-221 | a text is an `identifier` exactly when it contains no keyword at all |
| Tokens.ClassifyRange | src/extension.ts:202-221 | classification never yields `invalid` or `eof` |
| Tokens.ClassifyInOrder | src/extension.ts:202-221 | the table walk is the chain of `if`s, keyword by keyword |
| Tokens.KeywordInside | src/extension.ts:202-221 | a word with any keyword inside it, at any position and in any case, is never an `identifier` |
| Tokens.ClassifyLower | src/extension.ts:202-222 | classifying the lower-cased text gives the same token, so the stored text classifies as its token |
| Lexing.CommentEnd | src/extension.ts:87-92 | the comment loop stops at the first CR or LF, or at the end |
| Lexing.CommentEndSpan | src/extension.ts:87-92 | a comment's text up to its end holds no line terminator |
| Lexing.WordEnd | src/extension.ts:168-201 | gathering stops at the first character that cannot continue an identifier |
| Lexing.WordEndSpan | src/extension.ts:168-201 | every character up to the end of the gathered word continues an identifier |
| Lexing.NextStart | src/extension.ts:63-136 | `lex` stops at the end of the text or at a letter |
| Lexing.NextStartSkipsOnlyComments | src/extension.ts:83-99 | every letter `lex` passes over lies inside a line comment |
| Lexing.NextStartOutsideComments | src/extension.ts:83-99 | the letter at which `lex` stops is not inside a line comment opened at or after the cursor |
| Lexing.WordStartOutside | src/extension.ts:83-131 | from the start of the text or a position right after an identifier outside comments, the identifier `lex` reads starts outside every comment of the text |
| Lexing.LexAtBoundary | src/extension.ts:60-145 | `lex` leaves the cursor, unless at `eof`, right after an identifier that lies outside every comment |
| Lexing.StreamOutsideComments | src/extension.ts:83-236 | for a whole file, every call of `lex` reads its identifier outside all comments, whether opened before or after the cursor |
| Lexing.Lex | src/extension.ts:60-145 | one `lex` call moves the cursor forward unless it is at the end, yields `eof` when it starts at the end, leaves the cursor at the end whenever it yields `eof`, and never stops inside a CRLF pair |
| Lexing.LexFrom | src/extension.ts:66-145 | the loop of `lex` from any index moves forward and yields `eof` only at the end |
| Lexing.ScanWord | src/extension.ts:164-226 | at the end of the text the token is kept, so `eof` comes back only when it was already the token |
| Lexing.LexFromNextStart | src/extension.ts:66-137 | the loop behaves as if it started at the next identifier start |
| Lexing.LexAtEnd | src/extension.ts:139-144 | with only skippable text left, `lex` moves to the end, counts its lines and yields `eof` |
| Lexing.LexAtWord | src/extension.ts:104-131 | at an identifier, `lex` yields its classified, lower-cased text and its line, or keeps the token and text when the identifier ends the text |
| Lexing.ScanWordEnd | src/extension.ts:164-226 | gathering stops at the identifier's end, then classifies or, at the end of the text, returns |
| Lexing.PassOver | src/extension.ts:68-136 | a blank, a lone CR, an LF, a lone hyphen, a quote or any other character is passed over, and the line count grows by one exactly for a CR or an LF |
| Lexing.PassOverCrLf | src/extension.ts:72-78 | a CRLF pair is passed over as a whole and counts one line |
| Lexing.PassOverCommentOpen | src/extension.ts:83-86 | the two hyphens of a comment add no line |
| Lexing.PassOverCommentText | src/extension.ts:87-92 | a character of a comment's text adds no line |
| Lexing.WordSpan | src/extension.ts:164-201 | an identifier is at least one character long, made of identifier characters, and on one line |
| Lexing.LexInvalid | src/extension.ts:139-144 | `lex` never sets `invalid`; it returns it only when it was already the token and an identifier ran to the end |
| Lexing.ClassifiedFits | src/extension.ts:202-222 | a classified identifier's stored text is a lower-case identifier that classifies as that token |
| Lexing.LexFits | src/extension.ts:164-226 | after `lex`, the text of an identifier or keyword token agrees with the token |
| Lexing.LexLines | src/extension.ts:60-145 | `lex` keeps the line counter equal to the number of line terminators before the cursor; the token's line lies between the previous token's line and the counter |
| Lexing.LexCoherent | src/extension.ts:60-145 | `lex` preserves the scanner invariant (line counter, token line, `eof` at the end, cursor outside comments, token agrees with its text), and the token's line never goes back |
| Lexing.Stream | src/extension.ts:232-236 | definition: the states after each `lex` call of `parse`, up to the first `eof`; stated by `StreamEnds` and `StreamCoherent` |
| Lexing.StreamCoherent | src/extension.ts:232-236 | every state of the token stream satisfies the scanner invariant, and the tokens' lines never decrease |
| Lexing.StreamEnds | src/extension.ts:232-236 | the stream is finite and ends with its only `eof`, after at most one token per character |
| Recognizer.NamedHeader | src/extension.ts:238-246 | definition of the `entity` case; stated by `NamedSpec` |
| Recognizer.TargetHeader | src/extension.ts:247-259 | definition of the `architecture` and `configuration` cases; stated by `TargetSpec` |
| Recognizer.OfTarget | src/extension.ts:251-258 | definition of those cases after the name; stated by `OfTargetSpec` |
| Recognizer.TargetIs | src/extension.ts:253-258 | definition of their end after `of`; stated by `TargetIsSpec` |
| Recognizer.PackageHeader | src/extension.ts:260-280 | definition of the `package` case; stated by `PackageSpec` |
| Recognizer.Attempt | src/extension.ts:236-297 | definition of one turn of the loop; stated by `AttemptSpec` |
| Recognizer.Recognize | src/extension.ts:228-304 | definition of the records of a token sequence; stated by `RecognizeCons`, `RecognizeWellFormed`, `RecognizeOrdered` and `RecognizeAlike` |
| Recognizer.MismatchFirst | src/extension.ts:236-297 | the mismatch count is the index of the first token out of place in a header form, or the form's length |
| Recognizer.FollowsCons | src/extension.ts:236-297 | tokens follow a form exactly when the first token is right and the rest follow the rest of the form |
| Recognizer.ConsumedCons | src/extension.ts:236-297 | a header whose first token is right consumes one token more than the rest of the form |
| Recognizer.NamedSpec | src/extension.ts:238-246 | the `entity` case yields a record exactly when an identifier and `is` follow, named by the identifier's text, and consumes up to the first token out of place |
| Recognizer.TargetIsSpec | src/extension.ts:253-258 | after `of`, a record comes exactly when an identifier and `is` follow, with that identifier's text as the entity, consuming up to the first token out of place |
| Recognizer.OfTargetSpec | src/extension.ts:251-258 | after the name, a record comes exactly when `of`, an identifier and `is` follow, consuming up to the first token out of place |
| Recognizer.TargetSpec | src/extension.ts:247-259 | an `architecture` or `configuration` header yields a record exactly when identifier, `of`, identifier, `is` follow, with the two identifiers' texts as name and entity, consuming up to the first token out of place |
| Recognizer.PackageSpec | src/extension.ts:260-280 | `package` makes a package body exactly when `body` follows, and then a record exactly when `body`, identifier, `is` follow; otherwise a package exactly when identifier, `is` follow |
| Recognizer.AttemptSpec | src/extension.ts:236-297 | one turn passes over a token that opens no header; otherwise it yields a record exactly when the tokens after the keyword follow its form, the record's names are the texts of the form's identifiers, and the turn consumes up to and including the first token out of place |
| Recognizer.SkipAlike | src/extension.ts:236-297 | dropping tokens keeps two sequences alike |
| Recognizer.MismatchAlike | src/extension.ts:236-297 | alike sequences go wrong at the same place in a form |
| Recognizer.AttemptAlike | src/extension.ts:236-297 | a turn looks only at tokens, texts and lines: alike inputs give the same record and alike leftovers |
| Recognizer.RecognizeAlike | src/extension.ts:228-304 | the records of a token sequence depend only on its tokens, their texts and their lines |
| Recognizer.StreamAdvance | src/extension.ts:232-296 | each further `lex` call inside a header returns the next token of the stream |
| Recognizer.PushFound | src/extension.ts:230-302 | associativity of concatenation for the records so far, the record a turn found and the records still to come; the proof step of the loop invariant of `Parse` |
| Recognizer.RecognizeCons | src/extension.ts:232-302 | one turn of the loop pushes the record its header yields, then goes on from the tokens it left |
| Recognizer.AttemptRest | src/extension.ts:236-297 | one turn consumes a prefix of the tokens and leaves the rest untouched |
| Recognizer.NamedFound | src/extension.ts:238-246 | an `entity` record lies on its keyword's line, names no target and, when the tokens agree with their texts, has a keyword-free lower-case name |
| Recognizer.TargetFound | src/extension.ts:247-259 | an `architecture` or `configuration` record names its target; both names are keyword-free lower-case identifiers when the tokens agree with their texts |
| Recognizer.PackageFound | src/extension.ts:260-280 | a `package` or `package body` record lies on its keyword's line and names no target |
| Recognizer.AttemptFound | src/extension.ts:236-297 | a record found by one turn lies on its leading keyword's line, is of a kind that keyword opens, and is well formed |
| Recognizer.RecognizeWellFormed | src/extension.ts:228-304 | every record `parse` pushes belongs to the file, names a target exactly for architectures and configurations, and has keyword-free lower-case names |
| Recognizer.RecognizeOrdered | src/extension.ts:228-304 | records come out in the order of their lines, each within the range of the tokens' lines |
| Recognizer.ParseCatalogue | src/extension.ts:228-304 | a fresh parser's records are well formed, in line order, and on lines of the text |
| Scanner.Parser.constructor | src/extension.ts:54-58 | a new parser is at position 0 on line 0 with token `invalid`, and satisfies the invariant |
| Scanner.Parser.Lex | src/extension.ts:60-145 | the method's new state is the reference `Lex` of its old state; the cursor and line invariant are kept |
| Scanner.Parser.PassOverOne | src/extension.ts:68-136 | each non-letter case of the `switch` moves the cursor past a comment to its end, past a CRLF pair by two, or else by one, and keeps the next identifier start and the line invariant |
| Scanner.Parser.SkipCommentText | src/extension.ts:87-92 | the comment loop leaves the cursor at the comment's end |
| Scanner.Parser.ScanString | src/extension.ts:147-162 | the cursor does not move |
| Scanner.Parser.ScanIdentifierOrKeyword | src/extension.ts:164-226 | the cursor moves to the identifier's end; the token and text are its classification and lower-cased form, or are unchanged when it ends the text |
| Scanner.Parser.GatherWord | src/extension.ts:168-201 | the gathering loop stops at the identifier's end and its text is the characters passed over; nothing else changes |
| Scanner.ClassifyText | src/extension.ts:202-221 | the chain of tests yields the reference classification, which is an identifier or a keyword |
| Scanner.Parser.Parse | src/extension.ts:228-304 | the records returned are `Recognize` of the token stream from the old state, and the parser ends at `eof` |
| Scanner.Parser.ParseTurn | src/extension.ts:234-297 | one turn of the loop: the records of the stream before it are the one it found, then those of the stream after it |
| Scanner.Parser.ParseHeader | src/extension.ts:236-297 | the `switch` on the token just lexed reads the rest of its header exactly as one turn of `Recognize` does |
| Scanner.Parser.ParseNamed | src/extension.ts:238-246 | reads an identifier and `is`, as the `entity` grammar prescribes |
| Scanner.Parser.ParseTarget | src/extension.ts:247-259 | reads the name of an architecture or configuration, then the rest of its header |
| Scanner.Parser.ParseOfTarget | src/extension.ts:251-258 | reads `of`, then the entity's identifier and `is` |
| Scanner.Parser.ParseTargetIs | src/extension.ts:253-258 | reads the entity's identifier and `is` |
| Scanner.Parser.ParsePackage | src/extension.ts:260-280 | reads `body` and a named header, or an identifier and `is` |
| DesignItems.EntityText | src/extension.ts:27-38 | definition: the entity's name, or `undefined` as the template prints a missing one; used by `Label` |
| DesignItems.Label | src/extension.ts:27-38 | definition of the label; stated by `LabelRoundTrip` and `LabelsDistinguish` |
| DesignItems.Description | src/extension.ts:40 | definition of the description; stated by `DescriptionRoundTrip` |
| DesignItems.DigitChar | src/extension.ts:40 | each digit value gives a digit character |
| DesignItems.Decimal | src/extension.ts:40 | a number is written as a non-empty string of digits with no leading zero |
| DesignItems.DecimalRoundTrip | src/extension.ts:40 | reading the digits back gives the number |
| DesignItems.LastIndexOf | src/extension.ts:40 | the index found holds the last colon of the description |
| DesignItems.DescriptionRoundTrip | src/extension.ts:40 | the description determines the record's file and 0-based line, even when the path holds colons |
| DesignItems.Words | src/extension.ts:27-38 | splitting a label at blanks gives at least one word |
| DesignItems.WordsJoin | src/extension.ts:27-38 | a label's leading word is split off at its blank |
| DesignItems.LabelRoundTrip | src/extension.ts:27-38 | a label can be read back into the kind, the name and, for an architecture, the entity |
| DesignItems.LabelsDistinguish | src/extension.ts:27-38 | two labels are equal exactly when the kinds and names agree and, for architectures, the entities agree; configurations of different entities look alike |
| DesignItems.WellFormedDisplayable | src/extension.ts:20-42 | every record `parse` builds has the names a label shows |
| DesignItems.CatalogueLabels | src/extension.ts:20-42 | in one file's catalogue, two items look alike exactly when kind, name and an architecture's entity agree |
| LineEnds.CrLfAppend | src/extension.ts:72-82 | converting LF to CRLF works piece by piece |
| LineEnds.WideStep | src/extension.ts:72-82 | a position of the LF text moves on by one character in the CRLF text, or by the two of a CRLF pair for an LF |
| LineEnds.WideLines | src/extension.ts:72-82 | corresponding positions of the LF and CRLF texts have the same line count |
| LineEnds.LinesCrLf | src/extension.ts:72-82 | a text with LF line ends and the same text with CRLF line ends have the same number of lines |
| LineEnds.WideCommentOpens | src/extension.ts:83-86 | comments open at corresponding positions |
| LineEnds.WideCommentEnd | src/extension.ts:87-92 | comments end at corresponding positions |
| LineEnds.WideWordEnd | src/extension.ts:168-201 | identifiers end at corresponding positions |
| LineEnds.WideNextStart | src/extension.ts:63-136 | `lex` finds the next identifier at corresponding positions |
| LineEnds.WideFlat | src/extension.ts:164-201 | text without an LF, such as an identifier, is the same in both forms |
| LineEnds.LexCrLf | src/extension.ts:60-145 | one `lex` call from corresponding states gives corresponding states: same token, text, line and line counter |
| LineEnds.StreamCrLf | src/extension.ts:232-236 | the LF and CRLF token streams have the same length and correspond token by token |
| LineEnds.RecognizeCrLf | src/extension.ts:228-304 | a file gives the same tokens, texts and lines, and the same records, whether its lines end in LF or in CRLF |
| LexExamples.ClassifyKeywordInside | src/extension.ts:218-219 | `this` is the keyword `is` |
| LexExamples.ClassifyIgnoresCase | src/extension.ts:206-207 | `Profile` is the keyword `of` |
| LexExamples.ClassifyListOrder | src/extension.ts:206-211 | `bodyof` is `of`, because `of` is tried before `body` |
| LexExamples.HeaderStream | src/extension.ts:60-226 | the tokens of `entity foo is` followed by an LF, with texts, positions and lines |
| LexExamples.UnterminatedStream | src/extension.ts:164-170 | without the final LF, the `is` that ends the text comes back as the previous `identifier` |
| LexExamples.InvalidReturned | src/extension.ts:139-144 | a text that is one identifier makes the first `lex` return `invalid` |
| ParseExamples.HeaderFound | src/extension.ts:238-246 | the header gives one entity record on line 0 |
| ParseExamples.UnterminatedLost | src/extension.ts:238-246 | the unterminated header gives no record |

## Left out

- `vhdl_indexer` (src/extension.ts:308-392: `index`, `get_files_from` and `skim_through`) is not part of this model. It lists the files of the workspace directories, reads each one and concatenates the records its parser returns: asynchronous file-system I/O, progress reports and cancellation.
- `activate`, `deactivate`, the status bar and the quick-pick UI are not part of this model; they are editor I/O. The label and description of an item are modelled.
- The loop inside `scan_string`, behind its guard, can never run, so it is not modelled.
- The `token.invalid` assignment at the end of `lex`, and the final `else ""` of the label, can never run. The model shows this with an `assert false` branch and a `match` with no default, respectively.
- The record's kind is called `kind`, because `type` is a reserved word.
- Lower-casing is ASCII only. The characters it is applied to are letters, digits and `_`, where it agrees with `toLowerCase`.
- Scanner.Parser.constructor: it requires `size` to be the length of the text, which is how its one caller creates it; a different size is not modelled.
- Scanner.Parser.PassOverOne, Scanner.Parser.SkipCommentText, Scanner.Parser.GatherWord, Scanner.ClassifyText, Scanner.Parser.ParseTurn, Scanner.Parser.ParseHeader, Scanner.Parser.ParseNamed, Scanner.Parser.ParseTarget, Scanner.Parser.ParseOfTarget, Scanner.Parser.ParseTargetIs and Scanner.Parser.ParsePackage: these are parts of `lex`, `scan_identifier_or_keyword` and `parse`, moved into methods of their own. `entity` and `package body` share the identifier-and-`is` tail, and `architecture` and `configuration` share one method that takes the kind.
- DesignItems.Decimal: line numbers beyond 2^53, where a JavaScript number no longer holds every integer exactly, are not modelled; such a file cannot be read anyway.
- Reading the first space-skip loop of `lex` past the end yields `undefined` in JavaScript; the model checks the bound first, which behaves the same.
- `library` and `use` clauses are lexed as their keywords and then passed over like any other token, as `parse` does; no record models them.
- Text is modelled as a Dafny `string`, a sequence of Unicode scalar values. The source indexes UTF-16 code units and gives the parser `txt.length` (src/extension.ts:389). A character outside the Basic Multilingual Plane is one element here and two code units there, so positions differ after it. The records do not: such code units match none of the cases of the `switch` in `lex`, so they fall to its `default` case one at a time in the source and as one character here, and they end an identifier in both.
