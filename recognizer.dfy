/**
 * The grammar that `parser.parse` (src/extension.ts:228-304) applies to the
 * tokens `lex` hands it, stated over the whole token sequence at once.
 */
module Recognizer {
  import opened Text
  import opened Tokens
  import opened Lexing
  import opened DesignUnits

  /** The token at index `i`, or `Eof` past the end. */
  function TokenAt(toks: seq<LexState>, i: nat): Token {
    if i < |toks| then toks[i].token else Eof
  }

  /** The tokens after the first `n`. */
  function Skip(toks: seq<LexState>, n: nat): (rest: seq<LexState>)
    ensures |rest| <= |toks|
  {
    if n <= |toks| then toks[n..] else []
  }

  /**
   * The `entity` case of the `switch` in `parse`, and the `package body` case
   * once `body` has been read: an identifier and `is` must follow. The result
   * is the record recognised, if any, and the tokens not yet consumed; the
   * first token out of order is consumed with the abandoned header.
   */
  function NamedHeader(kind: DesignType, file: string, ln: nat, rest: seq<LexState>): (r: (Option<DesignUnit>, seq<LexState>))
  {
    if TokenAt(rest, 0) != Identifier then (None, Skip(rest, 1))
    else if TokenAt(rest, 1) != Is then (None, Skip(rest, 2))
    else (Some(DesignUnit(kind, file, ln, rest[0].text, None)), Skip(rest, 2))
  }

  /**
   * The `architecture` and `configuration` cases: an identifier, `of`, the
   * entity's identifier and `is` must follow.
   */
  function TargetHeader(kind: DesignType, file: string, ln: nat, rest: seq<LexState>): (r: (Option<DesignUnit>, seq<LexState>))
  {
    if TokenAt(rest, 0) != Identifier then (None, Skip(rest, 1))
    else OfTarget(kind, file, ln, rest[0].text, Skip(rest, 1))
  }

  /** The same cases once the unit's name has been read: `of`, then the entity's identifier and `is`. */
  function OfTarget(kind: DesignType, file: string, ln: nat, name: string, rest: seq<LexState>): (r: (Option<DesignUnit>, seq<LexState>))
  {
    if TokenAt(rest, 0) != Of then (None, Skip(rest, 1))
    else TargetIs(kind, file, ln, name, Skip(rest, 1))
  }

  /** The end of those headers, once `of` has been read: the entity's identifier and `is`. */
  function TargetIs(kind: DesignType, file: string, ln: nat, name: string, rest: seq<LexState>): (r: (Option<DesignUnit>, seq<LexState>))
  {
    if TokenAt(rest, 0) != Identifier then (None, Skip(rest, 1))
    else if TokenAt(rest, 1) != Is then (None, Skip(rest, 2))
    else (Some(DesignUnit(kind, file, ln, name, Some(rest[0].text))), Skip(rest, 2))
  }

  /**
   * The `package` case: `body` followed by an identifier and `is` makes a
   * package body; otherwise an identifier and `is` make a package.
   */
  function PackageHeader(file: string, ln: nat, rest: seq<LexState>): (r: (Option<DesignUnit>, seq<LexState>))
  {
    if TokenAt(rest, 0) == Body then NamedHeader(DesignType.PackageBody, file, ln, Skip(rest, 1))
    else NamedHeader(DesignType.Package, file, ln, rest)
  }

  /**
   * One turn of the loop in `parse`, once `lead` has been lexed and `rest` are
   * the tokens after it; a token that opens no header is passed over.
   */
  function Attempt(file: string, lead: LexState, rest: seq<LexState>): (r: (Option<DesignUnit>, seq<LexState>))
  {
    match lead.token
    case Entity => NamedHeader(DesignType.Entity, file, lead.line, rest)
    case Architecture => TargetHeader(DesignType.Architecture, file, lead.line, rest)
    case Package => PackageHeader(file, lead.line, rest)
    case Configuration => TargetHeader(DesignType.Configuration, file, lead.line, rest)
    case _ => (None, rest)
  }

  /** The records `parse` pushes while consuming `toks`, in the order it pushes them. */
  function Recognize(file: string, toks: seq<LexState>): (units: seq<DesignUnit>)
    decreases |toks|
  {
    if toks == [] then []
    else
      var (found, rest) := Attempt(file, toks[0], toks[1..]);
      (if found.Some? then [found.value] else []) + Recognize(file, rest)
  }

  /**
   * One more call of `lex` while `parse` walks the stream `toks`: when the
   * tokens still to come are those after the first `n`, the call returns the
   * token at index `n` (`Eof` once the stream is exhausted) and leaves the
   * tokens after the first `n + 1`.
   */
  lemma StreamAdvance(s: string, st: LexState, toks: seq<LexState>, n: nat)
    requires st.pos <= |s| && (st.token == Eof ==> st.pos == |s|)
    requires Stream(s, st) == Skip(toks, n)
    ensures Lex(s, st).token == TokenAt(toks, n)
    ensures n < |toks| ==> Lex(s, st) == toks[n]
    ensures Stream(s, Lex(s, st)) == Skip(toks, n + 1)
  {
    if st.token != Eof {
      assert Skip(toks, n) == [Lex(s, st)] + Stream(s, Lex(s, st));
      assert toks[n + 1..] == toks[n..][1..];
    }
  }

  /** The records so far, with the one a turn found pushed, followed by the records still to come. */
  lemma PushFound(done: seq<DesignUnit>, found: Option<DesignUnit>, later: seq<DesignUnit>)
    ensures (if found.Some? then done + [found.value] else done) + later ==
      done + ((if found.Some? then [found.value] else []) + later)
  {
  }

  /** The first turn of `parse` over a stream that starts with `lead`. */
  lemma RecognizeCons(file: string, lead: LexState, rest: seq<LexState>)
    ensures Recognize(file, [lead] + rest) ==
      var (found, more) := Attempt(file, lead, rest);
      (if found.Some? then [found.value] else []) + Recognize(file, more)
  {
    assert ([lead] + rest)[1..] == rest;
  }

  /** The text of the token at index `i`, or the empty text past the end. */
  function TextAt(toks: seq<LexState>, i: nat): string {
    if i < |toks| then toks[i].text else ""
  }

  lemma SkipSkip(toks: seq<LexState>, a: nat, b: nat)
    ensures Skip(Skip(toks, a), b) == Skip(toks, a + b)
  {
  }

  lemma TokenAtSkip(toks: seq<LexState>, n: nat, j: nat)
    ensures TokenAt(Skip(toks, n), j) == TokenAt(toks, n + j)
    ensures TextAt(Skip(toks, n), j) == TextAt(toks, n + j)
  {
  }

  /**
   * The tokens that must follow the opening keyword of each kind of header,
   * as the cases of the `switch` in `parse` test them one `lex` call at a time.
   */
  function Form(kind: DesignType): seq<Token> {
    match kind
    case Entity => [Identifier, Is]
    case Architecture => [Identifier, Of, Identifier, Is]
    case Package => [Identifier, Is]
    case PackageBody => [Body, Identifier, Is]
    case Configuration => [Identifier, Of, Identifier, Is]
  }

  /** The kind of header a leading token opens, given the token after it: `package body` or `package`. */
  function Intended(lead: Token, next: Token): Option<DesignType> {
    match lead
    case Entity => Some(DesignType.Entity)
    case Architecture => Some(DesignType.Architecture)
    case Package => if next == Body then Some(DesignType.PackageBody) else Some(DesignType.Package)
    case Configuration => Some(DesignType.Configuration)
    case _ => None
  }

  /** The tokens start with the form. */
  predicate Follows(toks: seq<LexState>, form: seq<Token>) {
    forall j :: 0 <= j < |form| ==> TokenAt(toks, j) == form[j]
  }

  /** How many tokens agree with the form before the first one that does not. */
  function Mismatch(toks: seq<LexState>, form: seq<Token>): (m: nat)
    ensures m <= |form|
    decreases |form|
  {
    if form == [] then 0
    else if TokenAt(toks, 0) != form[0] then 0
    else 1 + Mismatch(Skip(toks, 1), form[1..])
  }

  /** `Mismatch` is the index of the first token out of place, or the form's length. */
  lemma {:induction false} MismatchFirst(toks: seq<LexState>, form: seq<Token>)
    ensures var m := Mismatch(toks, form);
      (forall j :: 0 <= j < m ==> TokenAt(toks, j) == form[j]) &&
      (m < |form| ==> TokenAt(toks, m) != form[m])
    decreases |form|
  {
    if form != [] && TokenAt(toks, 0) == form[0] {
      var m := Mismatch(toks, form);
      MismatchFirst(Skip(toks, 1), form[1..]);
      forall j | 0 < j < m ensures TokenAt(toks, j) == form[j] {
        TokenAtSkip(toks, 1, j - 1);
      }
      if m < |form| {
        TokenAtSkip(toks, 1, m - 1);
      }
    }
  }

  /** The tokens a header consumes: up to and including the first one out of place, or the whole form. */
  function Consumed(toks: seq<LexState>, form: seq<Token>): nat {
    var m := Mismatch(toks, form);
    if m < |form| then m + 1 else m
  }

  lemma FollowsCons(toks: seq<LexState>, form: seq<Token>)
    requires form != []
    ensures Follows(toks, form) <==> TokenAt(toks, 0) == form[0] && Follows(Skip(toks, 1), form[1..])
  {
    forall j | 0 <= j < |form| - 1 {
      TokenAtSkip(toks, 1, j);
    }
    if TokenAt(toks, 0) == form[0] && Follows(Skip(toks, 1), form[1..]) {
      forall j | 0 < j < |form| ensures TokenAt(toks, j) == form[j] {
        assert TokenAt(Skip(toks, 1), j - 1) == form[1..][j - 1];
      }
    }
  }

  /** Where a record's name stands among the tokens after the opening keyword. */
  function NameAt(kind: DesignType): nat {
    if kind == PackageBody then 1 else 0
  }

  /** The record a complete header yields: the name, and for an architecture or a configuration the entity, are the texts of its identifiers. */
  function Record(kind: DesignType, file: string, ln: nat, rest: seq<LexState>): DesignUnit {
    DesignUnit(kind, file, ln, TextAt(rest, NameAt(kind)), if HasTarget(kind) then Some(TextAt(rest, 2)) else None)
  }

  lemma IsSpec(toks: seq<LexState>)
    ensures Consumed(toks, [Identifier, Is]) == (if TokenAt(toks, 0) != Identifier then 1 else 2)
    ensures Follows(toks, [Identifier, Is]) <==> TokenAt(toks, 0) == Identifier && TokenAt(toks, 1) == Is
  {
    assert [Identifier, Is][1..] == [Is];
    assert [Is][1..] == [];
    TokenAtSkip(toks, 1, 0);
  }

  lemma NamedSpec(kind: DesignType, file: string, ln: nat, rest: seq<LexState>)
    ensures var r := NamedHeader(kind, file, ln, rest);
      r.1 == Skip(rest, Consumed(rest, [Identifier, Is])) &&
      (r.0.Some? <==> Follows(rest, [Identifier, Is])) &&
      (r.0.Some? ==> r.0.value == DesignUnit(kind, file, ln, TextAt(rest, 0), None))
  {
    IsSpec(rest);
  }

  lemma TargetIsSpec(kind: DesignType, file: string, ln: nat, name: string, rest: seq<LexState>)
    ensures var r := TargetIs(kind, file, ln, name, rest);
      r.1 == Skip(rest, Consumed(rest, [Identifier, Is])) &&
      (r.0.Some? <==> Follows(rest, [Identifier, Is])) &&
      (r.0.Some? ==> r.0.value == DesignUnit(kind, file, ln, name, Some(TextAt(rest, 0))))
  {
    IsSpec(rest);
  }

  /** A form that starts with the right token is consumed one token further on. */
  lemma ConsumedCons(toks: seq<LexState>, form: seq<Token>)
    requires form != [] && TokenAt(toks, 0) == form[0]
    ensures Consumed(toks, form) == 1 + Consumed(Skip(toks, 1), form[1..])
    ensures Skip(toks, Consumed(toks, form)) == Skip(Skip(toks, 1), Consumed(Skip(toks, 1), form[1..]))
  {
    SkipSkip(toks, 1, Consumed(Skip(toks, 1), form[1..]));
  }

  lemma OfTargetSpec(kind: DesignType, file: string, ln: nat, name: string, rest: seq<LexState>)
    ensures var r := OfTarget(kind, file, ln, name, rest);
      r.1 == Skip(rest, Consumed(rest, [Of, Identifier, Is])) &&
      (r.0.Some? <==> Follows(rest, [Of, Identifier, Is])) &&
      (r.0.Some? ==> r.0.value == DesignUnit(kind, file, ln, name, Some(TextAt(rest, 1))))
  {
    var form := [Of, Identifier, Is];
    assert form[1..] == [Identifier, Is];
    FollowsCons(rest, form);
    if TokenAt(rest, 0) == Of {
      TargetIsSpec(kind, file, ln, name, Skip(rest, 1));
      ConsumedCons(rest, form);
      TokenAtSkip(rest, 1, 0);
    }
  }

  lemma TargetSpec(kind: DesignType, file: string, ln: nat, rest: seq<LexState>)
    ensures var r := TargetHeader(kind, file, ln, rest);
      var form := [Identifier, Of, Identifier, Is];
      r.1 == Skip(rest, Consumed(rest, form)) &&
      (r.0.Some? <==> Follows(rest, form)) &&
      (r.0.Some? ==> r.0.value == DesignUnit(kind, file, ln, TextAt(rest, 0), Some(TextAt(rest, 2))))
  {
    var form := [Identifier, Of, Identifier, Is];
    assert form[1..] == [Of, Identifier, Is];
    FollowsCons(rest, form);
    if TokenAt(rest, 0) == Identifier {
      OfTargetSpec(kind, file, ln, TextAt(rest, 0), Skip(rest, 1));
      ConsumedCons(rest, form);
      TokenAtSkip(rest, 1, 1);
    }
  }

  lemma PackageSpec(file: string, ln: nat, rest: seq<LexState>)
    ensures var r := PackageHeader(file, ln, rest);
      var kind := if TokenAt(rest, 0) == Body then DesignType.PackageBody else DesignType.Package;
      r.1 == Skip(rest, Consumed(rest, Form(kind))) &&
      (r.0.Some? <==> Follows(rest, Form(kind))) &&
      (r.0.Some? ==> r.0.value == Record(kind, file, ln, rest))
  {
    if TokenAt(rest, 0) == Body {
      var form := [Body, Identifier, Is];
      assert form[1..] == [Identifier, Is];
      NamedSpec(DesignType.PackageBody, file, ln, Skip(rest, 1));
      FollowsCons(rest, form);
      ConsumedCons(rest, form);
      TokenAtSkip(rest, 1, 0);
    } else {
      NamedSpec(DesignType.Package, file, ln, rest);
    }
  }

  /**
   * One turn of `parse` against the forms: a token that opens no header is
   * passed over; otherwise a record is pushed exactly when the tokens after the
   * keyword follow its form, its names are the texts of those identifiers, and
   * the turn consumes the tokens up to and including the first one out of
   * place, which is not looked at again.
   */
  lemma AttemptSpec(file: string, lead: LexState, rest: seq<LexState>)
    ensures var r := Attempt(file, lead, rest);
      match Intended(lead.token, TokenAt(rest, 0))
      case None => r == (None, rest)
      case Some(kind) =>
        r.1 == Skip(rest, Consumed(rest, Form(kind))) &&
        (r.0.Some? <==> Follows(rest, Form(kind))) &&
        (r.0.Some? ==> r.0.value == Record(kind, file, lead.line, rest))
  {
    match lead.token
    case Entity =>
      assert Form(DesignType.Entity) == [Identifier, Is];
      NamedSpec(DesignType.Entity, file, lead.line, rest);
    case Architecture =>
      assert Form(DesignType.Architecture) == [Identifier, Of, Identifier, Is];
      TargetSpec(DesignType.Architecture, file, lead.line, rest);
    case Package => PackageSpec(file, lead.line, rest);
    case Configuration =>
      assert Form(DesignType.Configuration) == [Identifier, Of, Identifier, Is];
      TargetSpec(DesignType.Configuration, file, lead.line, rest);
    case _ =>
  }

  /** Two states carry the same token, text and line, wherever their cursors stand. */
  predicate Same(a: LexState, b: LexState) {
    a.token == b.token && a.text == b.text && a.line == b.line
  }

  /** Two token sequences that agree token by token in everything but the cursors. */
  predicate Alike(x: seq<LexState>, y: seq<LexState>) {
    |x| == |y| && forall i :: 0 <= i < |x| ==> Same(x[i], y[i])
  }

  lemma SkipAlike(x: seq<LexState>, y: seq<LexState>, n: nat)
    requires Alike(x, y)
    ensures Alike(Skip(x, n), Skip(y, n))
  {
    if n <= |x| {
      assert forall i :: 0 <= i < |x| - n ==> x[n..][i] == x[n + i] && y[n..][i] == y[n + i];
    }
  }

  lemma {:induction false} MismatchAlike(x: seq<LexState>, y: seq<LexState>, form: seq<Token>)
    requires Alike(x, y)
    ensures Mismatch(x, form) == Mismatch(y, form)
    decreases |form|
  {
    if form != [] && TokenAt(x, 0) == form[0] {
      SkipAlike(x, y, 1);
      MismatchAlike(Skip(x, 1), Skip(y, 1), form[1..]);
    }
  }

  /** A turn of `parse` looks only at tokens, texts and lines: alike inputs give the same record and alike leftovers. */
  lemma AttemptAlike(file: string, a: LexState, x: seq<LexState>, b: LexState, y: seq<LexState>)
    requires Same(a, b) && Alike(x, y)
    ensures Attempt(file, a, x).0 == Attempt(file, b, y).0
    ensures Alike(Attempt(file, a, x).1, Attempt(file, b, y).1)
  {
    AttemptSpec(file, a, x);
    AttemptSpec(file, b, y);
    assert TokenAt(x, 0) == TokenAt(y, 0);
    match Intended(a.token, TokenAt(x, 0))
    case None =>
    case Some(kind) =>
      var form := Form(kind);
      MismatchAlike(x, y, form);
      SkipAlike(x, y, Consumed(x, form));
      assert forall j :: 0 <= j < |form| ==> TokenAt(x, j) == TokenAt(y, j);
      assert Follows(x, form) <==> Follows(y, form);
      assert TextAt(x, NameAt(kind)) == TextAt(y, NameAt(kind)) && TextAt(x, 2) == TextAt(y, 2);
  }

  /** The records `parse` finds depend only on the tokens, their texts and their lines. */
  lemma {:induction false} RecognizeAlike(file: string, x: seq<LexState>, y: seq<LexState>)
    requires Alike(x, y)
    ensures Recognize(file, x) == Recognize(file, y)
    decreases |x|
  {
    if x != [] {
      assert Alike(x[1..], y[1..]) by {
        assert forall i :: 0 <= i < |x| - 1 ==> x[1..][i] == x[i + 1] && y[1..][i] == y[i + 1];
      }
      AttemptAlike(file, x[0], x[1..], y[0], y[1..]);
      AttemptRest(file, x[0], x[1..]);
      RecognizeAlike(file, Attempt(file, x[0], x[1..]).1, Attempt(file, y[0], y[1..]).1);
    }
  }

  /** A name `lex` can deliver as an `Identifier`: a non-empty lower-case identifier containing no keyword. */
  predicate GoodName(n: string) {
    n != [] && IsLowerWord(n) && Classify(n) == Identifier
  }

  /** The keyword that opens a header of each kind. */
  function Opener(kind: DesignType): Token {
    match kind
    case Entity => Token.Entity
    case Architecture => Token.Architecture
    case Package => Token.Package
    case PackageBody => Token.Package
    case Configuration => Token.Configuration
  }

  /**
   * A record as `parse` builds it: in the file being parsed, naming a target
   * entity exactly for architectures and configurations, with names that
   * `lex` delivered as identifiers.
   */
  predicate WellFormed(file: string, u: DesignUnit) {
    u.file == file && (u.entity.Some? <==> HasTarget(u.kind)) &&
    GoodName(u.identifier) && (u.entity.Some? ==> GoodName(u.entity.value))
  }

  predicate AllFit(toks: seq<LexState>) {
    forall i :: 0 <= i < |toks| ==> Fits(toks[i])
  }

  lemma SkipSuffix(toks: seq<LexState>, n: nat)
    ensures Skip(toks, n) == toks[|toks| - |Skip(toks, n)|..]
  {
  }

  /** The tokens after the first `n` agree with their texts when all do. */
  lemma AllFitSuffix(toks: seq<LexState>, n: nat)
    requires n <= |toks| && AllFit(toks)
    ensures AllFit(toks[n..])
  {
    forall i | 0 <= i < |toks| - n ensures Fits(toks[n..][i]) {
      assert toks[n..][i] == toks[n + i];
    }
  }

  lemma NamedSuffix(kind: DesignType, file: string, ln: nat, rest: seq<LexState>)
    ensures var more := NamedHeader(kind, file, ln, rest).1;
      more == rest[|rest| - |more|..]
  {
    SkipSuffix(rest, if TokenAt(rest, 0) != Identifier then 1 else 2);
  }

  /** A suffix of the tokens after the first is a suffix of them all. */
  lemma TailSuffix(rest: seq<LexState>, more: seq<LexState>)
    requires 0 < |rest| && |more| < |rest|
    requires more == rest[1..][|rest| - 1 - |more|..]
    ensures more == rest[|rest| - |more|..]
  {
    assert rest[1..][|rest| - 1 - |more|..] == rest[|rest| - |more|..];
  }

  lemma TargetIsSuffix(kind: DesignType, file: string, ln: nat, name: string, rest: seq<LexState>)
    ensures var more := TargetIs(kind, file, ln, name, rest).1;
      more == rest[|rest| - |more|..]
  {
    SkipSuffix(rest, if TokenAt(rest, 0) != Identifier then 1 else 2);
  }

  lemma OfTargetSuffix(kind: DesignType, file: string, ln: nat, name: string, rest: seq<LexState>)
    ensures var more := OfTarget(kind, file, ln, name, rest).1;
      more == rest[|rest| - |more|..]
  {
    if TokenAt(rest, 0) != Of {
      SkipSuffix(rest, 1);
    } else {
      var after := Skip(rest, 1);
      assert after == rest[1..];
      TargetIsSuffix(kind, file, ln, name, after);
      TailSuffix(rest, TargetIs(kind, file, ln, name, after).1);
    }
  }

  lemma TargetSuffix(kind: DesignType, file: string, ln: nat, rest: seq<LexState>)
    ensures var more := TargetHeader(kind, file, ln, rest).1;
      more == rest[|rest| - |more|..]
  {
    if TokenAt(rest, 0) != Identifier {
      SkipSuffix(rest, 1);
    } else {
      var after := Skip(rest, 1);
      assert after == rest[1..];
      OfTargetSuffix(kind, file, ln, rest[0].text, after);
      TailSuffix(rest, OfTarget(kind, file, ln, rest[0].text, after).1);
    }
  }

  lemma PackageSuffix(file: string, ln: nat, rest: seq<LexState>)
    ensures var more := PackageHeader(file, ln, rest).1;
      more == rest[|rest| - |more|..]
  {
    if TokenAt(rest, 0) == Body {
      var after := Skip(rest, 1);
      assert after == rest[1..];
      NamedSuffix(DesignType.PackageBody, file, ln, after);
      TailSuffix(rest, NamedHeader(DesignType.PackageBody, file, ln, after).1);
    } else {
      NamedSuffix(DesignType.Package, file, ln, rest);
    }
  }

  /**
   * One turn of `parse` consumes `lead` and some of the tokens after it, and
   * leaves the rest: a suffix of `rest`.
   */
  lemma AttemptRest(file: string, lead: LexState, rest: seq<LexState>)
    ensures var more := Attempt(file, lead, rest).1;
      more == rest[|rest| - |more|..]
  {
    match lead.token
    case Entity => NamedSuffix(DesignType.Entity, file, lead.line, rest);
    case Architecture => TargetSuffix(DesignType.Architecture, file, lead.line, rest);
    case Package => PackageSuffix(file, lead.line, rest);
    case Configuration => TargetSuffix(DesignType.Configuration, file, lead.line, rest);
    case _ =>
  }

  lemma NamedFound(kind: DesignType, file: string, ln: nat, rest: seq<LexState>)
    ensures var found := NamedHeader(kind, file, ln, rest).0;
      found.Some? ==>
        found.value.kind == kind && found.value.file == file && found.value.line == ln &&
        found.value.entity.None? && (AllFit(rest) ==> GoodName(found.value.identifier))
  {
    if TokenAt(rest, 0) == Identifier && AllFit(rest) {
      assert Fits(rest[0]);
    }
  }

  lemma TargetIsFound(kind: DesignType, file: string, ln: nat, name: string, rest: seq<LexState>)
    ensures var found := TargetIs(kind, file, ln, name, rest).0;
      found.Some? ==>
        found.value.kind == kind && found.value.file == file && found.value.line == ln &&
        found.value.identifier == name && found.value.entity.Some? &&
        (AllFit(rest) ==> GoodName(found.value.entity.value))
  {
    if TokenAt(rest, 0) == Identifier && AllFit(rest) {
      assert Fits(rest[0]);
    }
  }

  lemma OfTargetFound(kind: DesignType, file: string, ln: nat, name: string, rest: seq<LexState>)
    ensures var found := OfTarget(kind, file, ln, name, rest).0;
      found.Some? ==>
        found.value.kind == kind && found.value.file == file && found.value.line == ln &&
        found.value.identifier == name && found.value.entity.Some? &&
        (AllFit(rest) ==> GoodName(found.value.entity.value))
  {
    if TokenAt(rest, 0) == Of {
      TargetIsFound(kind, file, ln, name, Skip(rest, 1));
      if AllFit(rest) {
        AllFitSuffix(rest, 1);
      }
    }
  }

  lemma TargetFound(kind: DesignType, file: string, ln: nat, rest: seq<LexState>)
    ensures var found := TargetHeader(kind, file, ln, rest).0;
      found.Some? ==>
        found.value.kind == kind && found.value.file == file && found.value.line == ln &&
        found.value.entity.Some? &&
        (AllFit(rest) ==> GoodName(found.value.identifier) && GoodName(found.value.entity.value))
  {
    if TokenAt(rest, 0) == Identifier {
      OfTargetFound(kind, file, ln, rest[0].text, Skip(rest, 1));
      if AllFit(rest) {
        assert Fits(rest[0]);
        AllFitSuffix(rest, 1);
      }
    }
  }

  lemma PackageFound(file: string, ln: nat, rest: seq<LexState>)
    ensures var found := PackageHeader(file, ln, rest).0;
      found.Some? ==>
        (found.value.kind == DesignType.Package || found.value.kind == DesignType.PackageBody) &&
        found.value.file == file && found.value.line == ln &&
        found.value.entity.None? && (AllFit(rest) ==> GoodName(found.value.identifier))
  {
    if TokenAt(rest, 0) == Body {
      NamedFound(DesignType.PackageBody, file, ln, Skip(rest, 1));
      if AllFit(rest) {
        AllFitSuffix(rest, 1);
      }
    } else {
      NamedFound(DesignType.Package, file, ln, rest);
    }
  }

  /**
   * A record found by one turn of `parse` lies on the line of its leading
   * keyword, is of a kind that keyword opens, and is well formed when the
   * tokens agree with their texts.
   */
  lemma AttemptFound(file: string, lead: LexState, rest: seq<LexState>)
    ensures var found := Attempt(file, lead, rest).0;
      found.Some? ==>
        found.value.line == lead.line && Opener(found.value.kind) == lead.token &&
        (AllFit(rest) ==> WellFormed(file, found.value))
  {
    match lead.token
    case Entity => NamedFound(DesignType.Entity, file, lead.line, rest);
    case Architecture => TargetFound(DesignType.Architecture, file, lead.line, rest);
    case Package => PackageFound(file, lead.line, rest);
    case Configuration => TargetFound(DesignType.Configuration, file, lead.line, rest);
    case _ =>
  }

  /** Every record `parse` pushes is well formed when the tokens agree with their texts. */
  lemma {:induction false} RecognizeWellFormed(file: string, toks: seq<LexState>)
    requires AllFit(toks)
    ensures forall u :: u in Recognize(file, toks) ==> WellFormed(file, u)
    decreases |toks|
  {
    if toks != [] {
      var rest := toks[1..];
      var r := Attempt(file, toks[0], rest);
      AttemptRest(file, toks[0], rest);
      AttemptFound(file, toks[0], rest);
      AllFitSuffix(toks, 1);
      AllFitSuffix(rest, |rest| - |r.1|);
      RecognizeWellFormed(file, r.1);
      assert Recognize(file, toks) == (if r.0.Some? then [r.0.value] else []) + Recognize(file, r.1);
    }
  }

  /** The lines of the records never decrease. */
  predicate UnitsOrdered(units: seq<DesignUnit>) {
    forall i, j :: 0 <= i < j < |units| ==> units[i].line <= units[j].line
  }

  /** The tokens after the first `n` keep the order of lines, from the first token's line on. */
  lemma OrderedSuffix(toks: seq<LexState>, n: nat, hi: nat)
    requires 0 < n <= |toks| && LinesOrdered(toks)
    requires forall i :: 0 <= i < |toks| ==> toks[i].line <= hi
    ensures LinesOrdered(toks[n..])
    ensures forall i :: 0 <= i < |toks[n..]| ==> toks[0].line <= toks[n..][i].line <= hi
  {
    forall i | 0 <= i < |toks| - n ensures toks[0].line <= toks[n..][i].line <= hi {
      assert toks[n..][i] == toks[n + i];
    }
    forall i, j | 0 <= i < j < |toks| - n ensures toks[n..][i].line <= toks[n..][j].line {
      assert toks[n..][i] == toks[n + i] && toks[n..][j] == toks[n + j];
    }
  }

  /** A record in front of later ones on no earlier line keeps the records in order. */
  lemma OrderedCons(pushed: seq<DesignUnit>, later: seq<DesignUnit>, ln: nat, hi: nat)
    requires forall k :: 0 <= k < |pushed| ==> pushed[k].line == ln
    requires |pushed| <= 1 && ln <= hi && UnitsOrdered(later)
    requires forall k :: 0 <= k < |later| ==> ln <= later[k].line <= hi
    ensures UnitsOrdered(pushed + later)
    ensures forall k :: 0 <= k < |pushed + later| ==> ln <= (pushed + later)[k].line <= hi
  {
    var all := pushed + later;
    forall k | |pushed| <= k < |all| ensures all[k] == later[k - |pushed|] {
    }
  }

  /**
   * Records come out in the order of their lines, each on the line of one of
   * the tokens, when the tokens' lines never decrease.
   */
  lemma {:induction false} RecognizeOrdered(file: string, toks: seq<LexState>, lo: nat, hi: nat)
    requires LinesOrdered(toks)
    requires forall i :: 0 <= i < |toks| ==> lo <= toks[i].line <= hi
    ensures var units := Recognize(file, toks);
      UnitsOrdered(units) && forall k :: 0 <= k < |units| ==> lo <= units[k].line <= hi
    decreases |toks|
  {
    if toks != [] {
      var rest := toks[1..];
      var r := Attempt(file, toks[0], rest);
      AttemptRest(file, toks[0], rest);
      AttemptFound(file, toks[0], rest);
      var n := 1 + |rest| - |r.1|;
      assert r.1 == toks[n..];
      OrderedSuffix(toks, n, hi);
      RecognizeOrdered(file, r.1, toks[0].line, hi);
      var pushed := if r.0.Some? then [r.0.value] else [];
      assert Recognize(file, toks) == pushed + Recognize(file, r.1);
      OrderedCons(pushed, Recognize(file, r.1), toks[0].line, hi);
    }
  }

  /**
   * What `parse` makes of a whole file when it starts from a fresh parser:
   * well-formed records of that file, in the order of their lines, each on a
   * line of the text.
   */
  lemma ParseCatalogue(file: string, s: string)
    ensures var units := Recognize(file, Stream(s, Initial));
      UnitsOrdered(units) &&
      forall k :: 0 <= k < |units| ==> WellFormed(file, units[k]) && units[k].line <= LinesBefore(s, |s|)
  {
    var toks := Stream(s, Initial);
    StreamCoherent(s, Initial);
    forall i | 0 <= i < |toks| ensures toks[i].line <= LinesBefore(s, |s|) && Fits(toks[i]) {
      LinesMonotone(s, toks[i].pos, |s|);
    }
    RecognizeOrdered(file, toks, 0, LinesBefore(s, |s|));
    RecognizeWellFormed(file, toks);
    var units := Recognize(file, toks);
    assert forall k :: 0 <= k < |units| ==> units[k] in units;
  }
}
