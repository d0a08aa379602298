/*
 * Strings as the request handler of api/main.py sees them: Python's
 * `str.lower()`, restricted to the letters this system's questions and
 * queries are written in, and Python's `in` operator on strings.
 */
module Text {

  /** The upper-case letters that `LowerChar` folds: ASCII A-Z, Cyrillic А-Я,
      and the Cyrillic letters Ѐ-Џ (Ё among them). */
  predicate IsUpper(c: char) {
    'A' <= c <= 'Z' || 'А' <= c <= 'Я' || 'Ѐ' <= c <= 'Џ'
  }

  /** `str.lower()` on one character: A-Z and А-Я move to a-z and а-я,
      Ѐ-Џ to ѐ-џ, and every other character is left alone. */
  function LowerChar(c: char): (r: char)
    ensures !IsUpper(r)
    ensures r == c <==> !IsUpper(c)
  {
    if 'A' <= c <= 'Z' || 'А' <= c <= 'Я' then (c as int + 32) as char
    else if 'Ѐ' <= c <= 'Џ' then (c as int + 80) as char
    else c
  }

  /** `s.lower()`: the character-wise fold of s. */
  function Lower(s: string): (r: string)
    ensures |r| == |s|
    ensures forall i :: 0 <= i < |s| ==> r[i] == LowerChar(s[i])
  {
    if s == [] then [] else [LowerChar(s[0])] + Lower(s[1..])
  }

  /** Lower-casing twice is lower-casing once, and leaves no upper-case letter. */
  lemma LowerIdempotent(s: string)
    ensures Lower(Lower(s)) == Lower(s)
    ensures forall i :: 0 <= i < |s| ==> !IsUpper(Lower(s)[i])
  {
  }

  /** A string without upper-case letters, such as every keyword the handler
      searches for, is its own lower-case form. */
  lemma LowerKeepsLowercase(s: string)
    requires forall i :: 0 <= i < |s| ==> !IsUpper(s[i])
    ensures Lower(s) == s
  {
  }

  /** Lower-casing works piece by piece. */
  lemma LowerAppend(a: string, b: string)
    ensures Lower(a + b) == Lower(a) + Lower(b)
  {
  }

  /** p occurs in s as the block that starts at position i. */
  predicate OccursAt(s: string, p: string, i: nat) {
    i + |p| <= |s| && s[i..i + |p|] == p
  }

  /** Python's `p in s` on strings: p occurs in s as a contiguous block. */
  predicate Contains(s: string, p: string)
    ensures p == [] ==> Contains(s, p)
    ensures Contains(s, p) ==> |p| <= |s|
  {
    assert p == [] ==> OccursAt(s, p, 0);
    exists i :: 0 <= i <= |s| - |p| && OccursAt(s, p, i)
  }

  /** A block of a block of s is a block of s. */
  lemma ContainsTransitive(s: string, p: string, q: string)
    requires Contains(s, p) && Contains(p, q)
    ensures Contains(s, q)
  {
    var i :| 0 <= i <= |s| - |p| && OccursAt(s, p, i);
    var j :| 0 <= j <= |p| - |q| && OccursAt(p, q, j);
    forall k | 0 <= k < |q| ensures s[i + j + k] == q[k] {
      assert q[k] == p[j + k] == s[i + j + k];
    }
    assert s[i + j..i + j + |q|] == q;
    assert OccursAt(s, q, i + j);
  }

  /** Whatever occurs in m occurs in every string built around m. */
  lemma ContainsSurrounded(a: string, m: string, b: string, p: string)
    requires Contains(m, p)
    ensures Contains(a + m + b, p)
  {
    var i :| 0 <= i <= |m| - |p| && OccursAt(m, p, i);
    assert (a + m + b)[|a| + i..|a| + i + |p|] == m[i..i + |p|];
    assert OccursAt(a + m + b, p, |a| + i);
  }

  /** Every character of a block that occurs in s is a character of p. */
  lemma OccursAtCovers(s: string, p: string, i: nat, k: nat)
    requires OccursAt(s, p, i) && i <= k < i + |p|
    ensures s[k] in p
  {
    assert s[k] == s[i..i + |p|][k - i] == p[k - i];
  }

  /** A block that occurs at position i starts there. */
  lemma OccursAtStart(s: string, p: string, i: nat)
    requires OccursAt(s, p, i) && |p| > 0
    ensures s[i] == p[0]
  {
    assert s[i] == s[i..i + |p|][0];
  }

  /** A word occurs in a + b only inside a, inside b, or across the seam; it
      cannot cross the seam when the last character of a is not in the word. */
  lemma ContainsAcrossSeam(a: string, b: string, p: string)
    requires |a| > 0 && a[|a| - 1] !in p
    requires Contains(a + b, p)
    ensures Contains(a, p) || Contains(b, p)
  {
    var s := a + b;
    var i :| 0 <= i <= |s| - |p| && OccursAt(s, p, i);
    if i + |p| <= |a| {
      assert a[i..i + |p|] == s[i..i + |p|];
      assert OccursAt(a, p, i);
    } else if i >= |a| {
      assert b[i - |a|..i - |a| + |p|] == s[i..i + |p|];
      assert OccursAt(b, p, i - |a|);
    } else {
      OccursAtCovers(s, p, i, |a| - 1);
      assert false;
    }
  }

  /** The strings of ps joined end to end. */
  function Concat(ps: seq<string>): string {
    if ps == [] then [] else ps[0] + Concat(ps[1..])
  }
}
