/**
 * Character classes, ASCII case folding, substring search and line counting
 * for the VHDL design-unit scanner (src/extension.ts).
 */
module Text {

  /** The letters that open an identifier: the `case 'A': case 'a': ...` labels of `lex`. */
  predicate IsLetter(c: char) {
    ('A' <= c <= 'Z') || ('a' <= c <= 'z')
  }

  predicate IsDigit(c: char) {
    '0' <= c <= '9'
  }

  /** The characters an identifier continues with: letters, digits and `_`. */
  predicate IsWordChar(c: char) {
    IsLetter(c) || IsDigit(c) || c == '_'
  }

  predicate IsLineBreak(c: char) {
    c == '\r' || c == '\n'
  }

  /** ASCII lower-casing; on the letters, digits and `_` of an identifier it agrees with `toLowerCase`. */
  function LowerChar(c: char): (d: char)
    ensures IsLetter(c) ==> 'a' <= d <= 'z'
    ensures !('A' <= c <= 'Z') ==> d == c
  {
    if 'A' <= c <= 'Z' then (c as int - 'A' as int + 'a' as int) as char else c
  }

  function Lower(s: string): (r: string)
    ensures |r| == |s|
    ensures forall i :: 0 <= i < |s| ==> r[i] == LowerChar(s[i])
  {
    if s == [] then [] else [LowerChar(s[0])] + Lower(s[1..])
  }

  /** A string of identifier characters with no upper-case letter. */
  predicate IsLowerWord(s: string) {
    forall i :: 0 <= i < |s| ==> IsWordChar(s[i]) && !('A' <= s[i] <= 'Z')
  }

  predicate IsWord(s: string) {
    forall i :: 0 <= i < |s| ==> IsWordChar(s[i])
  }

  lemma LowerOfWord(s: string)
    requires IsWord(s)
    ensures IsLowerWord(Lower(s))
  {
  }

  lemma LowerIdempotent(s: string)
    ensures Lower(Lower(s)) == Lower(s)
  {
  }

  lemma {:induction false} LowerAppend(x: string, y: string)
    ensures Lower(x + y) == Lower(x) + Lower(y)
    decreases |x|
  {
    if x == [] {
      assert x + y == y;
    } else {
      assert (x + y)[0] == x[0] && (x + y)[1..] == x[1..] + y;
      LowerAppend(x[1..], y);
    }
  }

  /** Lower-case letters are left as they are. */
  lemma LowerFixed(s: string)
    requires forall i :: 0 <= i < |s| ==> 'a' <= s[i] <= 'z'
    ensures Lower(s) == s
  {
  }

  /** `k` occurs in `s` at index `i`. */
  predicate OccursAt(s: string, k: string, i: int) {
    0 <= i && i + |k| <= |s| && s[i..i + |k|] == k
  }

  /** `k` occurs somewhere in `s`: what a regular-expression `match` without anchors finds. */
  predicate Contains(s: string, k: string) {
    exists i :: 0 <= i <= |s| - |k| && OccursAt(s, k, i)
  }

  /** `k` is a prefix of `s`, compared character by character. */
  predicate PrefixOf(k: string, s: string) {
    k == [] || (s != [] && k[0] == s[0] && PrefixOf(k[1..], s[1..]))
  }

  /** A left-to-right scan for `k`: at the current start, or somewhere further on. */
  predicate Occurs(s: string, k: string) {
    PrefixOf(k, s) || (s != [] && Occurs(s[1..], k))
  }

  lemma {:induction false} PrefixOfIff(k: string, s: string)
    ensures PrefixOf(k, s) <==> |k| <= |s| && s[..|k|] == k
  {
    if k != [] && s != [] {
      PrefixOfIff(k[1..], s[1..]);
      if |k| <= |s| && s[..|k|] == k {
        assert s[1..][..|k| - 1] == k[1..];
      }
      if PrefixOf(k, s) {
        assert s[..|k|] == [s[0]] + s[1..][..|k| - 1];
      }
    }
  }

  /** The scan finds `k` exactly when `k` occurs somewhere in `s`. */
  lemma {:induction false} OccursIff(s: string, k: string)
    ensures Occurs(s, k) <==> Contains(s, k)
    decreases |s|
  {
    PrefixOfIff(k, s);
    if PrefixOf(k, s) {
      assert OccursAt(s, k, 0);
    }
    if s != [] {
      OccursIff(s[1..], k);
      if Contains(s[1..], k) {
        var i :| 0 <= i <= |s| - 1 - |k| && OccursAt(s[1..], k, i);
        assert s[i + 1..i + 1 + |k|] == s[1..][i..i + |k|];
        assert OccursAt(s, k, i + 1);
      }
      if Contains(s, k) {
        var i :| 0 <= i <= |s| - |k| && OccursAt(s, k, i);
        if i > 0 {
          assert s[1..][i - 1..i - 1 + |k|] == s[i..i + |k|];
          assert OccursAt(s[1..], k, i - 1);
          assert Contains(s[1..], k);
        } else {
          assert s[..|k|] == k;
          assert PrefixOf(k, s);
        }
      }
    } else {
      if Contains(s, k) {
        var i :| 0 <= i <= |s| - |k| && OccursAt(s, k, i);
        assert k == [];
      }
    }
  }

  /** Extending a string on either side keeps every substring it contains. */
  lemma ContainsExtend(a: string, s: string, b: string, k: string)
    requires Contains(s, k)
    ensures Contains(a + s + b, k)
  {
    var i :| 0 <= i <= |s| - |k| && OccursAt(s, k, i);
    assert (a + s + b)[|a| + i..|a| + i + |k|] == s[i..i + |k|];
    assert OccursAt(a + s + b, k, |a| + i);
  }

  /**
   * The number of line terminators in `s[..p]`: a CR followed by an LF counts
   * once, and so does a lone CR or a lone LF.
   */
  function LinesBefore(s: string, p: nat): nat
    requires p <= |s|
  {
    if p == 0 then 0
    else if s[p - 1] == '\n' && p >= 2 && s[p - 2] == '\r' then 1 + LinesBefore(s, p - 2)
    else if IsLineBreak(s[p - 1]) then 1 + LinesBefore(s, p - 1)
    else LinesBefore(s, p - 1)
  }

  /** `p` does not fall between the CR and the LF of a CRLF pair. */
  predicate NoSplit(s: string, p: int) {
    !(0 < p < |s| && s[p - 1] == '\r' && s[p] == '\n')
  }

  /** A stretch without line terminators adds no line. */
  lemma {:induction false} LinesFlat(s: string, p: nat, q: nat)
    requires p <= q <= |s|
    requires forall k :: p <= k < q ==> !IsLineBreak(s[k])
    ensures LinesBefore(s, q) == LinesBefore(s, p)
    decreases q - p
  {
    if p < q {
      LinesFlat(s, p, q - 1);
    }
  }

  /** More text never has fewer lines. */
  lemma {:induction false} LinesMonotone(s: string, p: nat, q: nat)
    requires p <= q <= |s|
    ensures LinesBefore(s, p) <= LinesBefore(s, q)
    decreases q - p
  {
    if p + 1 < q {
      LinesMonotone(s, p, q - 1);
      LinesMonotone(s, p, q - 2);
    } else if p < q {
      LinesMonotone(s, p, q - 1);
    }
  }
}
