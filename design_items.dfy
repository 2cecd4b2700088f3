/**
 * The `design_item` of src/extension.ts:20-42: what the quick-pick list shows
 * for one catalogue record, a label naming its kind and name and a
 * description giving its file and its 1-based line.
 */
module DesignItems {
  import opened Text
  import opened Lexing
  import opened DesignUnits
  import opened Recognizer

  /** How a template literal renders the optional `entity` field: a missing value reads `undefined`. */
  function EntityText(e: Option<string>): string {
    if e.Some? then e.value else "undefined"
  }

  /**
   * The label (src/extension.ts:27-38). A configuration's label leaves out the
   * entity it configures; the final `else ""` of the source cannot be reached,
   * since every kind has its own case.
   */
  function Label(u: DesignUnit): string {
    match u.kind
    case Entity => "entity " + u.identifier
    case Architecture => "architecture " + u.identifier + " of " + EntityText(u.entity)
    case Package => "package " + u.identifier
    case PackageBody => "package body " + u.identifier
    case Configuration => "configuration " + u.identifier
  }

  function DigitChar(d: nat): (c: char)
    requires d < 10
    ensures IsDigit(c)
  {
    ('0' as int + d) as char
  }

  predicate IsDigits(t: string) {
    forall i :: 0 <= i < |t| ==> IsDigit(t[i])
  }

  /** How JavaScript writes a non-negative integer: decimal digits, no leading zero. */
  function Decimal(n: nat): (r: string)
    ensures r != [] && IsDigits(r)
    ensures r[0] == '0' ==> n == 0 && r == "0"
    decreases n
  {
    if n < 10 then [DigitChar(n)] else Decimal(n / 10) + [DigitChar(n % 10)]
  }

  /** The number a string of decimal digits denotes. */
  function DigitsValue(t: string): nat
    requires IsDigits(t)
  {
    if t == [] then 0 else DigitsValue(t[..|t| - 1]) * 10 + (t[|t| - 1] as int - '0' as int)
  }

  /** Reading the digits back gives the number. */
  lemma {:induction false} DecimalRoundTrip(n: nat)
    ensures DigitsValue(Decimal(n)) == n
    decreases n
  {
    if n >= 10 {
      var t := Decimal(n);
      DecimalRoundTrip(n / 10);
      assert t[..|t| - 1] == Decimal(n / 10);
    }
  }

  /** The description (src/extension.ts:40): `@`, the file path, `:` and the 1-based line. */
  function Description(u: DesignUnit): string {
    "@" + u.file + ":" + Decimal(u.line + 1)
  }

  /** The index of the last occurrence of `c` in `t`. */
  function LastIndexOf(t: string, c: char): (r: Option<nat>)
    ensures r.Some? ==> r.value < |t| && t[r.value] == c && forall j :: r.value < j < |t| ==> t[j] != c
    ensures r.None? ==> forall j :: 0 <= j < |t| ==> t[j] != c
  {
    if t == [] then None
    else if t[|t| - 1] == c then Some(|t| - 1)
    else LastIndexOf(t[..|t| - 1], c)
  }

  /**
   * Recovers the file and the 0-based line from a description. The path may
   * itself hold colons, so the line number follows the last one.
   */
  function ParseDescription(d: string): Option<(string, nat)> {
    if d == [] || d[0] != '@' then None
    else
      match LastIndexOf(d, ':')
      case None => None
      case Some(c) =>
        if c < 1 then None
        else
          var digits := d[c + 1..];
          if digits == [] || !IsDigits(digits) || DigitsValue(digits) == 0 then None
          else Some((d[1..c], DigitsValue(digits) - 1))
  }

  /** The description determines the record's file and line. */
  lemma DescriptionRoundTrip(u: DesignUnit)
    ensures ParseDescription(Description(u)) == Some((u.file, u.line))
  {
    var d := Description(u);
    var digits := Decimal(u.line + 1);
    var c := 1 + |u.file|;
    assert d[c] == ':';
    assert d[c + 1..] == digits;
    var r := LastIndexOf(d, ':');
    assert r.Some? && r.value >= c;
    assert d[1..c] == u.file;
    DecimalRoundTrip(u.line + 1);
  }

  /** The space-separated words of a label. */
  function Words(t: string): (r: seq<string>)
    ensures |r| > 0
  {
    if t == [] then [""]
    else
      var rest := Words(t[1..]);
      if t[0] == ' ' then [""] + rest else [[t[0]] + rest[0]] + rest[1..]
  }

  lemma {:induction false} WordsOfWord(a: string)
    requires IsWord(a)
    ensures Words(a) == [a]
  {
    if a != [] {
      WordsOfWord(a[1..]);
      assert [a[0]] + a[1..] == a;
    }
  }

  lemma {:induction false} WordsJoin(a: string, b: string)
    requires IsWord(a)
    ensures Words(a + " " + b) == [a] + Words(b)
  {
    if a == [] {
      assert ("" + " " + b)[1..] == b;
    } else {
      WordsJoin(a[1..], b);
      assert (a + " " + b)[1..] == a[1..] + " " + b;
      assert [a[0]] + a[1..] == a;
    }
  }

  /**
   * Reads a label back into the kind, the name and, for an architecture, the
   * entity.
   */
  function ParseLabel(l: string): Option<(DesignType, string, Option<string>)> {
    var w := Words(l);
    if |w| == 2 then
      if w[0] == "entity" then Some((Entity, w[1], None))
      else if w[0] == "package" then Some((Package, w[1], None))
      else if w[0] == "configuration" then Some((Configuration, w[1], None))
      else None
    else if |w| == 3 then
      if w[0] == "package" && w[1] == "body" then Some((PackageBody, w[2], None)) else None
    else if |w| == 4 then
      if w[0] == "architecture" && w[2] == "of" then Some((Architecture, w[1], Some(w[3]))) else None
    else None
  }

  /** A record whose names are single identifiers and whose architecture names its entity. */
  predicate Displayable(u: DesignUnit) {
    IsWord(u.identifier) &&
    (u.kind == Architecture ==> u.entity.Some? && IsWord(u.entity.value))
  }

  /** The part of a record that its label shows. */
  function Shown(u: DesignUnit): (DesignType, string, Option<string>) {
    (u.kind, u.identifier, if u.kind == Architecture then u.entity else None)
  }

  lemma WordsOfTwo(a: string, b: string)
    requires IsWord(a) && IsWord(b)
    ensures Words(a + " " + b) == [a, b]
  {
    WordsJoin(a, b);
    WordsOfWord(b);
  }

  lemma WordsOfThree(a: string, b: string, c: string)
    requires IsWord(a) && IsWord(b) && IsWord(c)
    ensures Words(a + " " + b + " " + c) == [a, b, c]
  {
    WordsOfTwo(b, c);
    WordsJoin(a, b + " " + c);
    assert a + " " + b + " " + c == a + " " + (b + " " + c);
  }

  lemma WordsOfFour(a: string, b: string, c: string, d: string)
    requires IsWord(a) && IsWord(b) && IsWord(c) && IsWord(d)
    ensures Words(a + " " + b + " " + c + " " + d) == [a, b, c, d]
  {
    WordsOfThree(b, c, d);
    WordsJoin(a, b + " " + c + " " + d);
    assert a + " " + b + " " + c + " " + d == a + " " + (b + " " + c + " " + d);
  }

  lemma TwoWordLabel(u: DesignUnit)
    requires Displayable(u) && (u.kind == Entity || u.kind == Package || u.kind == Configuration)
    ensures ParseLabel(Label(u)) == Some(Shown(u))
  {
    var k := if u.kind == Entity then "entity" else if u.kind == Package then "package" else "configuration";
    WordsOfTwo(k, u.identifier);
    assert Label(u) == k + " " + u.identifier;
  }

  lemma PackageBodyLabel(u: DesignUnit)
    requires Displayable(u) && u.kind == PackageBody
    ensures ParseLabel(Label(u)) == Some(Shown(u))
  {
    WordsOfThree("package", "body", u.identifier);
    assert Label(u) == "package" + " " + "body" + " " + u.identifier;
  }

  lemma ArchitectureLabel(u: DesignUnit)
    requires Displayable(u) && u.kind == Architecture
    ensures ParseLabel(Label(u)) == Some(Shown(u))
  {
    WordsOfFour("architecture", u.identifier, "of", u.entity.value);
    assert Label(u) == "architecture" + " " + u.identifier + " " + "of" + " " + u.entity.value;
  }

  /** The label can be read back into the kind, the name and an architecture's entity. */
  lemma LabelRoundTrip(u: DesignUnit)
    requires Displayable(u)
    ensures ParseLabel(Label(u)) == Some(Shown(u))
  {
    if u.kind == Architecture {
      ArchitectureLabel(u);
    } else if u.kind == PackageBody {
      PackageBodyLabel(u);
    } else {
      TwoWordLabel(u);
    }
  }

  /**
   * Two displayable records get the same label exactly when they agree on
   * kind and name and, for architectures, on the entity: configurations of
   * different entities look alike.
   */
  lemma LabelsDistinguish(u: DesignUnit, v: DesignUnit)
    requires Displayable(u) && Displayable(v)
    ensures Label(u) == Label(v) <==>
      u.kind == v.kind && u.identifier == v.identifier && (u.kind == Architecture ==> u.entity == v.entity)
  {
    LabelRoundTrip(u);
    LabelRoundTrip(v);
  }

  /** The records `parse` builds can be shown. */
  lemma WellFormedDisplayable(file: string, u: DesignUnit)
    requires WellFormed(file, u)
    ensures Displayable(u)
  {
  }

  /**
   * In the quick-pick list of one file's records, two items look alike exactly
   * when they have the same kind and name and, for architectures, the same
   * entity.
   */
  lemma CatalogueLabels(file: string, s: string, i: nat, j: nat)
    requires i < |Recognize(file, Stream(s, Initial))| && j < |Recognize(file, Stream(s, Initial))|
    ensures var units := Recognize(file, Stream(s, Initial));
      Label(units[i]) == Label(units[j]) <==>
        units[i].kind == units[j].kind && units[i].identifier == units[j].identifier &&
        (units[i].kind == Architecture ==> units[i].entity == units[j].entity)
  {
    var units := Recognize(file, Stream(s, Initial));
    ParseCatalogue(file, s);
    WellFormedDisplayable(file, units[i]);
    WellFormedDisplayable(file, units[j]);
    LabelsDistinguish(units[i], units[j]);
  }
}
