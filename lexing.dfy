/**
 * A reference definition of what one call of `parser.lex` (src/extension.ts:60-145)
 * does to the scanner's state, stated through the positions it skips to rather
 * than through the character-by-character loop, and the token stream that
 * repeated calls produce.
 */
module Lexing {
  import opened Text
  import opened Tokens

  /**
   * The scanner's mutable state: the cursor `_position`, the line counter
   * `_lineno`, and the last token with its text and the line it started on.
   */
  datatype LexState = LexState(pos: nat, lineno: nat, token: Token, text: string, line: nat)

  /** The state a freshly constructed parser starts in. */
  const Initial: LexState := LexState(0, 0, Invalid, "", 0)

  /** Two hyphens at `p` open a line comment. */
  predicate CommentOpens(s: string, p: int) {
    0 <= p && p + 1 < |s| && s[p] == '-' && s[p + 1] == '-'
  }

  /** The first line terminator at or after `p`, or the end of the text. */
  function CommentEnd(s: string, p: nat): (r: nat)
    requires p <= |s|
    ensures p <= r <= |s|
    ensures r == |s| || IsLineBreak(s[r])
    decreases |s| - p
  {
    if p == |s| || IsLineBreak(s[p]) then p else CommentEnd(s, p + 1)
  }

  /** The first character at or after `p` that cannot continue an identifier, or the end of the text. */
  function WordEnd(s: string, p: nat): (r: nat)
    requires p <= |s|
    ensures p <= r <= |s|
    ensures r == |s| || !IsWordChar(s[r])
    decreases |s| - p
  {
    if p == |s| || !IsWordChar(s[p]) then p else WordEnd(s, p + 1)
  }

  /** Everything from `p` up to `WordEnd(s, p)` continues an identifier. */
  lemma {:induction false} WordEndSpan(s: string, p: nat)
    requires p <= |s|
    ensures forall k :: p <= k < WordEnd(s, p) ==> IsWordChar(s[k])
    decreases |s| - p
  {
    if p < |s| && IsWordChar(s[p]) {
      WordEndSpan(s, p + 1);
    }
  }

  /**
   * Where the next identifier starts when scanning from `p`: the first letter
   * that is not inside a line comment, or the end of the text. Every other
   * character (blanks, line terminators, hyphens, quotes, digits, punctuation)
   * is passed over one at a time.
   */
  function NextStart(s: string, p: nat): (r: nat)
    requires p <= |s|
    ensures p <= r <= |s|
    ensures r == |s| || IsLetter(s[r])
    decreases |s| - p
  {
    if p == |s| then p
    else if IsLetter(s[p]) then p
    else if CommentOpens(s, p) then NextStart(s, CommentEnd(s, p + 2))
    else NextStart(s, p + 1)
  }

  /** Index `k` lies inside a line comment that opens at or after `p`. */
  predicate InComment(s: string, p: nat, k: nat)
    requires k <= |s|
  {
    exists c :: p <= c && c + 2 <= k && CommentOpens(s, c) && NoBreakBetween(s, c, k)
  }

  predicate NoBreakBetween(s: string, c: nat, k: nat)
    requires c <= k <= |s|
  {
    forall m :: c <= m < k ==> !IsLineBreak(s[m])
  }

  /**
   * One call of `lex`: its loop runs from the cursor (see `LexFrom`).
   * Throughout, `lineno` counts the line terminators before the cursor.
   */
  function Lex(s: string, st: LexState): (r: LexState)
    requires st.pos <= |s|
    ensures st.pos <= r.pos <= |s|
    ensures st.pos < |s| ==> st.pos < r.pos
    ensures st.pos == |s| ==> r.token == Eof
    ensures r.token == Eof ==> r.pos == |s|
    ensures NoSplit(s, r.pos)
  {
    LexFrom(s, st, st.pos)
  }

  /**
   * The loop of `lex` from index `p`, character by character: blanks, line
   * terminators and any other character that cannot start an identifier are
   * passed over one at a time and a line comment as a whole; at the end of the
   * text the token becomes `Eof`; a letter starts an identifier.
   */
  function LexFrom(s: string, st: LexState, p: nat): (r: LexState)
    requires p <= |s|
    ensures p <= r.pos <= |s|
    ensures p < |s| ==> p < r.pos
    ensures p == |s| ==> r.token == Eof
    ensures r.token == Eof ==> r.pos == |s|
    ensures NoSplit(s, r.pos)
    decreases |s| - p
  {
    if p == |s| then st.(pos := |s|, lineno := LinesBefore(s, |s|), token := Eof)
    else if IsLetter(s[p]) then ScanWord(s, st, p, p + 1)
    else if CommentOpens(s, p) then LexFrom(s, st, CommentEnd(s, p + 2))
    else LexFrom(s, st, p + 1)
  }

  /**
   * What `scan_identifier_or_keyword` makes of the identifier that starts at
   * `start` and has been accumulated up to `p`: it goes on while identifier
   * characters follow; at the end of the text only the cursor, `lineno` and the
   * token's line change; otherwise the text is classified and lower-cased.
   */
  function ScanWord(s: string, st: LexState, start: nat, p: nat): (r: LexState)
    requires start < p <= |s| && IsWordChar(s[p - 1])
    ensures p <= r.pos <= |s|
    ensures r.token == Eof ==> st.token == Eof && r.pos == |s|
    ensures NoSplit(s, r.pos)
    decreases |s| - p
  {
    if p == |s| then st.(pos := |s|, lineno := LinesBefore(s, |s|), line := LinesBefore(s, start))
    else if IsWordChar(s[p]) then ScanWord(s, st, start, p + 1)
    else
      var word := s[start..p];
      ClassifyRange(word);
      LexState(p, LinesBefore(s, p), Classify(word), Lower(word), LinesBefore(s, start))
  }

  /** The loop behaves as if it had started at the next identifier start. */
  lemma {:induction false} LexFromNextStart(s: string, st: LexState, p: nat)
    requires p <= |s|
    ensures LexFrom(s, st, p) == LexFrom(s, st, NextStart(s, p))
    decreases |s| - p
  {
    if p < |s| && !IsLetter(s[p]) {
      if CommentOpens(s, p) {
        LexFromNextStart(s, st, CommentEnd(s, p + 2));
      } else {
        LexFromNextStart(s, st, p + 1);
      }
    }
  }

  /**
   * The states after each call of `lex` that `parse` makes, up to and including
   * the first one whose token is `Eof`.
   */
  function Stream(s: string, st: LexState): (toks: seq<LexState>)
    requires st.pos <= |s|
    decreases |s| - st.pos, if st.token == Eof then 0 else 1
  {
    if st.token == Eof then []
    else
      var next := Lex(s, st);
      [next] + Stream(s, next)
  }

  /** A character that neither starts an identifier nor opens a comment is passed over. */
  lemma NextStartSkip(s: string, p: nat)
    requires p < |s| && !IsLetter(s[p]) && !CommentOpens(s, p)
    ensures NextStart(s, p) == NextStart(s, p + 1)
  {
  }

  /** A CRLF pair is passed over as a whole. */
  lemma NextStartCrLf(s: string, p: nat)
    requires p + 1 < |s| && s[p] == '\r' && s[p + 1] == '\n'
    ensures NextStart(s, p) == NextStart(s, p + 2)
  {
    NextStartSkip(s, p);
    NextStartSkip(s, p + 1);
  }

  lemma WordEndStep(s: string, p: nat)
    requires p < |s| && IsWordChar(s[p])
    ensures WordEnd(s, p) == WordEnd(s, p + 1)
  {
  }

  /** What `lex` does when nothing but skippable text is left. */
  lemma LexAtEnd(s: string, st: LexState)
    requires st.pos <= |s| && NextStart(s, st.pos) == |s|
    ensures Lex(s, st) == st.(pos := |s|, lineno := LinesBefore(s, |s|), token := Eof)
  {
    LexFromNextStart(s, st, st.pos);
  }

  /** What `lex` does when the next identifier starts at `p`. */
  lemma LexAtWord(s: string, st: LexState, p: nat)
    requires st.pos <= |s| && NextStart(s, st.pos) == p < |s|
    ensures WordEnd(s, p) == |s| ==>
      Lex(s, st) == st.(pos := |s|, lineno := LinesBefore(s, p), line := LinesBefore(s, p))
    ensures WordEnd(s, p) < |s| ==>
      Lex(s, st) == LexState(WordEnd(s, p), LinesBefore(s, p), Classify(s[p..WordEnd(s, p)]),
                             Lower(s[p..WordEnd(s, p)]), LinesBefore(s, p))
  {
    LexFromNextStart(s, st, st.pos);
    assert LexFrom(s, st, p) == ScanWord(s, st, p, p + 1);
    WordEndStep(s, p);
    ScanWordEnd(s, st, p, p + 1);
    WordEndSpan(s, p);
    LinesFlat(s, p, WordEnd(s, p));
  }

  /** The accumulation stops at the end of the identifier. */
  lemma {:induction false} ScanWordEnd(s: string, st: LexState, start: nat, p: nat)
    requires start < p <= |s| && IsWordChar(s[p - 1])
    ensures var e := WordEnd(s, p);
      ScanWord(s, st, start, p) ==
        if e == |s| then st.(pos := |s|, lineno := LinesBefore(s, |s|), line := LinesBefore(s, start))
        else LexState(e, LinesBefore(s, e), Classify(s[start..e]), Lower(s[start..e]), LinesBefore(s, start))
    decreases |s| - p
  {
    if p < |s| && IsWordChar(s[p]) {
      ScanWordEnd(s, st, start, p + 1);
    }
  }

  /**
   * One character that `lex` passes over by itself (anything but a letter, the
   * start of a comment or the CR of a CRLF pair): the next identifier start
   * stays where it was and the line count grows by one for a CR or an LF.
   */
  lemma PassOver(s: string, p: nat)
    requires p < |s| && NoSplit(s, p) && !IsLetter(s[p]) && !CommentOpens(s, p)
    requires !(s[p] == '\r' && p + 1 < |s| && s[p + 1] == '\n')
    ensures NextStart(s, p + 1) == NextStart(s, p)
    ensures NoSplit(s, p + 1)
    ensures LinesBefore(s, p + 1) == LinesBefore(s, p) + (if IsLineBreak(s[p]) then 1 else 0)
  {
  }

  /** A CRLF pair: one more line, same identifier start. */
  lemma PassOverCrLf(s: string, p: nat)
    requires p + 1 < |s| && s[p] == '\r' && s[p + 1] == '\n'
    ensures NextStart(s, p + 2) == NextStart(s, p)
    ensures NoSplit(s, p + 2)
    ensures LinesBefore(s, p + 2) == LinesBefore(s, p) + 1
  {
    NextStartCrLf(s, p);
  }

  /** One character of a comment's text. */
  lemma PassOverCommentText(s: string, p: nat)
    requires p < |s| && !IsLineBreak(s[p])
    ensures CommentEnd(s, p + 1) == CommentEnd(s, p)
    ensures NoSplit(s, p + 1)
    ensures LinesBefore(s, p + 1) == LinesBefore(s, p)
  {
  }

  /** The two hyphens opening a comment. */
  lemma PassOverCommentOpen(s: string, p: nat)
    requires CommentOpens(s, p)
    ensures NextStart(s, p) == NextStart(s, CommentEnd(s, p + 2))
    ensures NoSplit(s, p + 2)
    ensures LinesBefore(s, p + 2) == LinesBefore(s, p)
  {
  }

  /** A comment's text up to `CommentEnd` holds no line terminator. */
  lemma {:induction false} CommentEndSpan(s: string, p: nat)
    requires p <= |s|
    ensures NoBreakBetween(s, p, CommentEnd(s, p))
    decreases |s| - p
  {
    if p < |s| && !IsLineBreak(s[p]) {
      CommentEndSpan(s, p + 1);
    }
  }

  /**
   * Every letter that `lex` passes over on its way to the next identifier
   * lies inside a line comment.
   */
  lemma {:induction false} NextStartSkipsOnlyComments(s: string, p: nat)
    requires p <= |s|
    ensures forall k :: p <= k < NextStart(s, p) && IsLetter(s[k]) ==> InComment(s, p, k)
    decreases |s| - p
  {
    if p == |s| || IsLetter(s[p]) {
    } else if CommentOpens(s, p) {
      var e := CommentEnd(s, p + 2);
      NextStartSkipsOnlyComments(s, e);
      CommentEndSpan(s, p + 2);
      forall k | p <= k < NextStart(s, p) && IsLetter(s[k])
        ensures InComment(s, p, k)
      {
        if k < e {
          assert NoBreakBetween(s, p, k);
        } else {
          var c :| e <= c && c + 2 <= k && CommentOpens(s, c) && NoBreakBetween(s, c, k);
          assert p <= c;
        }
      }
    } else {
      NextStartSkipsOnlyComments(s, p + 1);
      forall k | p <= k < NextStart(s, p) && IsLetter(s[k])
        ensures InComment(s, p, k)
      {
        var c :| p + 1 <= c && c + 2 <= k && CommentOpens(s, c) && NoBreakBetween(s, c, k);
      }
    }
  }

  /** The letter at which `lex` stops is not inside a line comment. */
  lemma {:induction false} NextStartOutsideComments(s: string, p: nat)
    requires p <= |s|
    ensures NextStart(s, p) < |s| ==> !InComment(s, p, NextStart(s, p))
    decreases |s| - p
  {
    if p < |s| && !IsLetter(s[p]) {
      if CommentOpens(s, p) {
        NextStartOutsideComments(s, CommentEnd(s, p + 2));
      } else {
        NextStartOutsideComments(s, p + 1);
      }
    }
  }

  /**
   * The identifier that starts at a letter `p`: at least that letter, only
   * identifier characters, and no line terminator.
   */
  lemma WordSpan(s: string, p: nat)
    requires p < |s| && IsLetter(s[p])
    ensures p < WordEnd(s, p) && IsWord(s[p..WordEnd(s, p)])
    ensures LinesBefore(s, p) == LinesBefore(s, WordEnd(s, p))
  {
    var e := WordEnd(s, p);
    WordEndSpan(s, p);
    assert IsWord(s[p..e]) by {
      forall i | 0 <= i < e - p ensures IsWordChar(s[p..e][i]) {
        assert s[p..e][i] == s[p + i];
      }
    }
    LinesFlat(s, p, e);
  }

  /**
   * `lex` itself never sets `Invalid`: that token comes back only when it was
   * already the current token and the identifier at the cursor ran to the end
   * of the text.
   */
  lemma LexInvalid(s: string, st: LexState)
    requires st.pos <= |s|
    ensures Lex(s, st).token == Invalid ==>
      st.token == Invalid && Lex(s, st).pos == |s| && Lex(s, st).text == st.text
  {
    var p := NextStart(s, st.pos);
    if p == |s| {
      LexAtEnd(s, st);
    } else {
      LexAtWord(s, st, p);
      ClassifyRange(s[p..WordEnd(s, p)]);
    }
  }

  /**
   * A token together with its text as `scan_identifier_or_keyword` leaves
   * them: the text of an identifier or keyword token is a non-empty
   * lower-case identifier that the classifier maps to that very token.
   */
  predicate Fits(st: LexState) {
    (st.token == Identifier || IsKeyword(st.token)) ==>
      st.text != [] && IsLowerWord(st.text) && Classify(st.text) == st.token
  }

  /**
   * A scanner state as `lex` and `parse` keep it: the line counter counts the
   * line terminators before the cursor, the token's line is no later than the
   * cursor's, `Eof` only at the end, and the token agrees with its text.
   */
  predicate Coherent(s: string, st: LexState) {
    st.pos <= |s| && st.lineno == LinesBefore(s, st.pos) && st.line <= st.lineno &&
    (st.token == Eof ==> st.pos == |s|) && (st.token != Eof ==> AtBoundary(s, st.pos)) && Fits(st)
  }

  /**
   * Where `lex` leaves the cursor before the end: at the start of the text or
   * right after an identifier, and not inside any comment of the text.
   */
  predicate AtBoundary(s: string, q: nat)
    requires q <= |s|
  {
    !InComment(s, 0, q) && (q == 0 || IsWordChar(s[q - 1]))
  }

  /**
   * From such a position, the identifier that `lex` reads does not start in
   * any comment of the text, including one opened before the cursor.
   */
  lemma WordStartOutside(s: string, q: nat)
    requires q <= |s| && AtBoundary(s, q)
    ensures NextStart(s, q) < |s| ==> !InComment(s, 0, NextStart(s, q))
  {
    var p := NextStart(s, q);
    if p < |s| {
      NextStartOutsideComments(s, q);
      forall c | 0 <= c && c + 2 <= p && CommentOpens(s, c)
        ensures !NoBreakBetween(s, c, p)
      {
        if c >= q {
          assert !NoBreakBetween(s, c, p);
        } else if c + 2 <= q {
          assert !NoBreakBetween(s, c, q);
        } else {
          assert false;
        }
      }
    }
  }

  /** The cursor `lex` leaves before the end is again such a position. */
  lemma LexAtBoundary(s: string, st: LexState)
    requires st.pos <= |s| && (st.token == Eof ==> st.pos == |s|)
    requires st.token != Eof ==> AtBoundary(s, st.pos)
    ensures Lex(s, st).token != Eof ==> AtBoundary(s, Lex(s, st).pos)
  {
    var p := NextStart(s, st.pos);
    if p == |s| {
      LexAtEnd(s, st);
    } else {
      var e := WordEnd(s, p);
      LexAtWord(s, st, p);
      WordEndSpan(s, p);
      WordStartOutside(s, st.pos);
      assert Lex(s, st).pos == e;
      forall c | 0 <= c && c + 2 <= e && CommentOpens(s, c)
        ensures !NoBreakBetween(s, c, e)
      {
        if c >= p {
          assert false;
        } else if c + 2 <= p {
          assert !NoBreakBetween(s, c, p);
        } else {
          assert false;
        }
      }
    }
  }

  /** A classified identifier fits its token. */
  lemma ClassifiedFits(word: string, st: LexState)
    requires word != [] && IsWord(word)
    requires st.token == Classify(word) && st.text == Lower(word)
    ensures Fits(st)
  {
    ClassifyRange(word);
    ClassifyLower(word);
    LowerOfWord(word);
  }

  /** `lex` keeps a token in agreement with its text. */
  lemma LexFits(s: string, st: LexState)
    requires st.pos <= |s| && Fits(st)
    ensures Fits(Lex(s, st))
  {
    var p := NextStart(s, st.pos);
    if p == |s| {
      LexAtEnd(s, st);
    } else {
      var e := WordEnd(s, p);
      LexAtWord(s, st, p);
      WordSpan(s, p);
      if e < |s| {
        ClassifiedFits(s[p..e], Lex(s, st));
      }
    }
  }

  /**
   * `lex` keeps the line counter in step with the cursor, and the token's line
   * lies between the previous token's line and the cursor's line.
   */
  lemma LexLines(s: string, st: LexState)
    requires st.pos <= |s| && st.lineno == LinesBefore(s, st.pos) && st.line <= st.lineno
    ensures Lex(s, st).lineno == LinesBefore(s, Lex(s, st).pos)
    ensures st.line <= Lex(s, st).line <= Lex(s, st).lineno
  {
    var p := NextStart(s, st.pos);
    var r := Lex(s, st);
    LinesMonotone(s, st.pos, |s|);
    if p == |s| {
      LexAtEnd(s, st);
      assert r.pos == |s| && r.lineno == LinesBefore(s, |s|);
    } else {
      var e := WordEnd(s, p);
      LexAtWord(s, st, p);
      WordSpan(s, p);
      LinesMonotone(s, st.pos, p);
      LinesMonotone(s, p, e);
      if e == |s| {
        assert r.pos == |s| && r.lineno == LinesBefore(s, |s|);
      } else {
        assert r.pos == e && r.lineno == LinesBefore(s, e);
      }
    }
  }

  /** `lex` keeps a state coherent, and the token's line never goes back. */
  lemma LexCoherent(s: string, st: LexState)
    requires Coherent(s, st)
    ensures Coherent(s, Lex(s, st)) && st.line <= Lex(s, st).line
  {
    LexFits(s, st);
    LexLines(s, st);
    LexAtBoundary(s, st);
  }

  /** The lines of a sequence of tokens never decrease. */
  predicate LinesOrdered(toks: seq<LexState>) {
    forall i, j :: 0 <= i < j < |toks| ==> toks[i].line <= toks[j].line
  }

  /**
   * Every state of the stream is coherent, and the tokens' lines never
   * decrease, starting from the line of the state the stream starts from.
   */
  lemma {:induction false} StreamCoherent(s: string, st: LexState)
    requires Coherent(s, st)
    ensures var toks := Stream(s, st);
      (forall i :: 0 <= i < |toks| ==> Coherent(s, toks[i]) && st.line <= toks[i].line) &&
      LinesOrdered(toks)
    decreases |s| - st.pos, if st.token == Eof then 0 else 1
  {
    if st.token != Eof {
      var next := Lex(s, st);
      LexCoherent(s, st);
      StreamCoherent(s, next);
      var toks := Stream(s, st);
      assert toks == [next] + Stream(s, next);
      assert forall i :: 0 < i < |toks| ==> toks[i] == Stream(s, next)[i - 1];
    }
  }

  /**
   * The stream ends with its one `Eof` token, and it holds at most one token
   * per character left plus the final `Eof`.
   */
  lemma {:induction false} StreamEnds(s: string, st: LexState)
    requires st.pos <= |s|
    ensures var toks := Stream(s, st);
      (st.token != Eof ==> |toks| > 0 && toks[|toks| - 1].token == Eof) &&
      (forall i :: 0 <= i < |toks| - 1 ==> toks[i].token != Eof) &&
      |toks| <= |s| - st.pos + 1
    decreases |s| - st.pos, if st.token == Eof then 0 else 1
  {
    if st.token != Eof {
      var next := Lex(s, st);
      StreamEnds(s, next);
      var toks := Stream(s, st);
      assert toks == [next] + Stream(s, next);
      assert forall i :: 0 < i < |toks| ==> toks[i] == Stream(s, next)[i - 1];
    }
  }

  /** The identifier that the next call of `lex` from `st` reads starts outside every comment of the text. */
  predicate ReadsOutsideComments(s: string, st: LexState)
    requires st.pos <= |s|
  {
    NextStart(s, st.pos) < |s| ==> !InComment(s, 0, NextStart(s, st.pos))
  }

  /**
   * No token of a whole file comes from comment text: from the fresh state and
   * from every state the stream passes through, `lex` reads its identifier
   * outside all comments, whether they open before or after the cursor.
   */
  lemma StreamOutsideComments(s: string)
    ensures var toks := Stream(s, Initial);
      ReadsOutsideComments(s, Initial) &&
      forall i :: 0 <= i < |toks| ==> toks[i].pos <= |s| && ReadsOutsideComments(s, toks[i])
  {
    var toks := Stream(s, Initial);
    WordStartOutside(s, 0);
    StreamCoherent(s, Initial);
    forall i | 0 <= i < |toks| ensures toks[i].pos <= |s| && ReadsOutsideComments(s, toks[i]) {
      if toks[i].token != Eof {
        WordStartOutside(s, toks[i].pos);
      }
    }
  }
}
