/**
 * The scanner treats a CRLF pair as one line terminator (src/extension.ts:72-82)
 * and passes over line terminators like any other separator. This module shows
 * that the records found in a file do not depend on whether its lines end in LF
 * or in CRLF: the token streams of the two forms agree token by token.
 */
module LineEnds {
  import opened Text
  import opened Tokens
  import opened Lexing
  import opened DesignUnits
  import opened Recognizer

  /** A text with LF line ends only. */
  predicate NoCr(u: string) {
    forall i :: 0 <= i < |u| ==> u[i] != '\r'
  }

  /** The same text with every LF written as a CRLF pair. */
  function ToCrLf(u: string): string {
    if u == [] then []
    else ToCrLf(u[..|u| - 1]) + (if u[|u| - 1] == '\n' then "\r\n" else [u[|u| - 1]])
  }

  /** The conversion works piece by piece. */
  lemma {:induction false} CrLfAppend(a: string, b: string)
    ensures ToCrLf(a + b) == ToCrLf(a) + ToCrLf(b)
    decreases |b|
  {
    if b != [] {
      var init := b[..|b| - 1];
      assert (a + b)[..|a + b| - 1] == a + init;
      assert (a + b)[|a + b| - 1] == b[|b| - 1];
      CrLfAppend(a, init);
    } else {
      assert a + b == a;
    }
  }

  /** A single character: an LF becomes a CRLF pair, anything else stays. */
  lemma CrLfOne(c: char)
    ensures ToCrLf([c]) == if c == '\n' then "\r\n" else [c]
  {
    assert [c][..0] == [];
  }

  /** Where index `p` of the LF text lands in the CRLF text. */
  function Wide(u: string, p: nat): (w: nat)
    requires p <= |u|
    ensures w <= |ToCrLf(u)|
  {
    CrLfPrefix(u, p);
    |ToCrLf(u[..p])|
  }

  lemma CrLfPrefix(u: string, p: nat)
    requires p <= |u|
    ensures |ToCrLf(u[..p])| <= |ToCrLf(u)|
  {
    assert u == u[..p] + u[p..];
    CrLfAppend(u[..p], u[p..]);
  }

  /** A character moves on by one, an LF by two, the CR and the LF of its pair. */
  lemma WideStep(u: string, p: nat)
    requires p < |u|
    ensures Wide(u, p + 1) == Wide(u, p) + (if u[p] == '\n' then 2 else 1)
    ensures ToCrLf(u)[Wide(u, p)] == if u[p] == '\n' then '\r' else u[p]
    ensures u[p] == '\n' ==> ToCrLf(u)[Wide(u, p) + 1] == '\n'
  {
    CrLfOne(u[p]);
    CrLfAt(u, p);
  }

  /** The CRLF text around the character at `p`. */
  lemma CrLfAt(u: string, p: nat)
    requires p < |u|
    ensures ToCrLf(u[..p + 1]) == ToCrLf(u[..p]) + ToCrLf([u[p]])
    ensures ToCrLf(u) == ToCrLf(u[..p + 1]) + ToCrLf(u[p + 1..])
  {
    SplitAt(u, p);
    CrLfAppend(u[..p], [u[p]]);
    CrLfAppend(u[..p + 1], u[p + 1..]);
  }

  lemma SplitAt(u: string, p: nat)
    requires p < |u|
    ensures u[..p + 1] == u[..p] + [u[p]] && u == u[..p + 1] + u[p + 1..]
  {
  }

  lemma WideEnds(u: string)
    ensures Wide(u, 0) == 0 && Wide(u, |u|) == |ToCrLf(u)|
  {
    assert u[..0] == [] && u[..|u|] == u;
  }

  /** An index before the end lands before the end. */
  lemma WideInside(u: string, p: nat)
    requires p < |u|
    ensures Wide(u, p) < |ToCrLf(u)|
  {
    WideStep(u, p);
  }

  /** Lines are counted alike at corresponding positions. */
  lemma {:induction false} WideLines(u: string, q: nat)
    requires NoCr(u) && q <= |u|
    ensures LinesBefore(ToCrLf(u), Wide(u, q)) == LinesBefore(u, q)
    decreases q
  {
    if q > 0 {
      WideStep(u, q - 1);
      WideLines(u, q - 1);
    }
  }

  /** A text with LF line ends and its CRLF form have the same number of lines. */
  lemma LinesCrLf(u: string)
    requires NoCr(u)
    ensures LinesBefore(ToCrLf(u), |ToCrLf(u)|) == LinesBefore(u, |u|)
  {
    WideEnds(u);
    WideLines(u, |u|);
  }

  /** Two hyphens open a comment in the CRLF text exactly where they do in the LF text. */
  lemma WideCommentOpens(u: string, p: nat)
    requires p <= |u|
    ensures CommentOpens(ToCrLf(u), Wide(u, p)) <==> CommentOpens(u, p)
  {
    var t, w := ToCrLf(u), Wide(u, p);
    WideEnds(u);
    if p == |u| {
      assert !CommentOpens(t, w);
    } else {
      WideStep(u, p);
      if u[p] == '\n' {
        assert t[w] == '\r';
        assert !CommentOpens(t, w) && !CommentOpens(u, p);
      } else if p + 1 < |u| {
        WideNext(u, p);
        assert t[w] == u[p] && t[w + 1] == (if u[p + 1] == '\n' then '\r' else u[p + 1]);
      } else {
        assert w + 1 == |t|;
        assert !CommentOpens(t, w) && !CommentOpens(u, p);
      }
    }
  }

  /** The character after one that is not an LF. */
  lemma WideNext(u: string, p: nat)
    requires p + 1 < |u|
    ensures u[p] != '\n' ==>
      Wide(u, p) + 1 < |ToCrLf(u)| && ToCrLf(u)[Wide(u, p) + 1] == if u[p + 1] == '\n' then '\r' else u[p + 1]
  {
    WideStep(u, p);
    WideStep(u, p + 1);
    WideInside(u, p + 1);
  }

  lemma {:induction false} WideCommentEnd(u: string, q: nat)
    requires NoCr(u) && q <= |u|
    ensures CommentEnd(ToCrLf(u), Wide(u, q)) == Wide(u, CommentEnd(u, q))
    decreases |u| - q
  {
    WideEnds(u);
    if q < |u| {
      WideStep(u, q);
      WideInside(u, q);
      if !IsLineBreak(u[q]) {
        WideCommentEnd(u, q + 1);
      }
    }
  }

  lemma {:induction false} WideWordEnd(u: string, q: nat)
    requires q <= |u|
    ensures WordEnd(ToCrLf(u), Wide(u, q)) == Wide(u, WordEnd(u, q))
    decreases |u| - q
  {
    WideEnds(u);
    if q < |u| {
      WideStep(u, q);
      WideInside(u, q);
      if IsWordChar(u[q]) {
        WideWordEnd(u, q + 1);
      }
    }
  }

  /** The next identifier starts at corresponding positions. */
  lemma {:induction false} WideNextStart(u: string, p: nat)
    requires NoCr(u) && p <= |u|
    ensures NextStart(ToCrLf(u), Wide(u, p)) == Wide(u, NextStart(u, p))
    decreases |u| - p
  {
    var t := ToCrLf(u);
    WideEnds(u);
    if p < |u| {
      WideStep(u, p);
      WideInside(u, p);
      WideCommentOpens(u, p);
      if IsLetter(u[p]) {
      } else if CommentOpens(u, p) {
        WideStep(u, p + 1);
        WideCommentEnd(u, p + 2);
        WideNextStart(u, CommentEnd(u, p + 2));
      } else if u[p] == '\n' {
        assert NextStart(t, Wide(u, p)) == NextStart(t, Wide(u, p) + 1);
        WideNextStart(u, p + 1);
      } else {
        WideNextStart(u, p + 1);
      }
    }
  }

  /** A stretch without LF is copied as it is. */
  lemma {:induction false} WideFlat(u: string, p: nat, e: nat)
    requires p <= e <= |u|
    requires forall k :: p <= k < e ==> u[k] != '\n'
    ensures Wide(u, e) == Wide(u, p) + (e - p)
    ensures ToCrLf(u)[Wide(u, p)..Wide(u, e)] == u[p..e]
    decreases e - p
  {
    if p < e {
      var t := ToCrLf(u);
      WideFlat(u, p, e - 1);
      WideStep(u, e - 1);
      assert t[Wide(u, p)..Wide(u, e)] == t[Wide(u, p)..Wide(u, e - 1)] + [t[Wide(u, e - 1)]];
      assert u[p..e] == u[p..e - 1] + [u[e - 1]];
    }
  }

  /** A state of the scanner over the CRLF text that corresponds to one over the LF text. */
  predicate Corr(u: string, a: LexState, b: LexState)
    requires a.pos <= |u|
  {
    b.pos == Wide(u, a.pos) && b.lineno == a.lineno && Same(a, b)
  }

  /** `lex` takes corresponding states to corresponding states. */
  lemma LexCrLf(u: string, a: LexState, b: LexState)
    requires NoCr(u) && a.pos <= |u| && Corr(u, a, b)
    ensures Corr(u, Lex(u, a), Lex(ToCrLf(u), b))
  {
    WideNextStart(u, a.pos);
    if NextStart(u, a.pos) == |u| {
      LexCrLfAtEnd(u, a, b);
    } else {
      LexCrLfAtWord(u, a, b);
    }
  }

  /** Nothing but separators and comments left: both reach the end with the same line count. */
  lemma LexCrLfAtEnd(u: string, a: LexState, b: LexState)
    requires NoCr(u) && a.pos <= |u| && Corr(u, a, b) && NextStart(u, a.pos) == |u|
    ensures Corr(u, Lex(u, a), Lex(ToCrLf(u), b))
  {
    var t := ToCrLf(u);
    WideEnds(u);
    WideNextStart(u, a.pos);
    LexAtEnd(u, a);
    LexAtEnd(t, b);
    WideLines(u, |u|);
  }

  /** An identifier next: both read the same word, starting on the same line. */
  lemma LexCrLfAtWord(u: string, a: LexState, b: LexState)
    requires NoCr(u) && a.pos <= |u| && Corr(u, a, b) && NextStart(u, a.pos) < |u|
    ensures Corr(u, Lex(u, a), Lex(ToCrLf(u), b))
  {
    var t := ToCrLf(u);
    var p := NextStart(u, a.pos);
    var e := WordEnd(u, p);
    WideNextStart(u, a.pos);
    WideInside(u, p);
    WideWordEnd(u, p);
    WideLines(u, p);
    WordEndSpan(u, p);
    WideFlat(u, p, e);
    LexAtWord(u, a, p);
    LexAtWord(t, b, Wide(u, p));
    if e == |u| {
      WideEnds(u);
    } else {
      WideInside(u, e);
      WideLines(u, e);
    }
  }

  /** The two streams have the same length and correspond token by token. */
  lemma {:induction false} StreamCrLf(u: string, a: LexState, b: LexState)
    requires NoCr(u) && a.pos <= |u| && Corr(u, a, b)
    ensures var x := Stream(u, a);
      var y := Stream(ToCrLf(u), b);
      |y| == |x| && forall i :: 0 <= i < |x| ==> x[i].pos <= |u| && Corr(u, x[i], y[i])
    decreases |u| - a.pos, if a.token == Eof then 0 else 1
  {
    if a.token != Eof {
      var t := ToCrLf(u);
      var a', b' := Lex(u, a), Lex(t, b);
      LexCrLf(u, a, b);
      StreamCrLf(u, a', b');
      var x, y := Stream(u, a), Stream(t, b);
      assert x == [a'] + Stream(u, a') && y == [b'] + Stream(t, b');
      assert forall i :: 0 < i < |x| ==> x[i] == Stream(u, a')[i - 1] && y[i] == Stream(t, b')[i - 1];
    }
  }

  /**
   * A whole file: writing its lines with CRLF instead of LF ends gives the
   * same tokens with the same texts on the same lines, and so the same records.
   */
  lemma RecognizeCrLf(file: string, u: string)
    requires NoCr(u)
    ensures var x := Stream(u, Initial);
      var y := Stream(ToCrLf(u), Initial);
      |y| == |x| && forall i :: 0 <= i < |x| ==>
        y[i].token == x[i].token && y[i].text == x[i].text && y[i].line == x[i].line
    ensures Recognize(file, Stream(ToCrLf(u), Initial)) == Recognize(file, Stream(u, Initial))
  {
    WideEnds(u);
    StreamCrLf(u, Initial, Initial);
    RecognizeAlike(file, Stream(u, Initial), Stream(ToCrLf(u), Initial));
  }
}
