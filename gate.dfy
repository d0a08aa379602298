/*
 * The safety check of api/main.py: a query is refused when its lower-cased
 * text contains one of the denylisted words.
 */
module Gate {
  import opened Text

  /** FORBIDDEN (api/main.py:14): the schema- and data-changing words. */
  const ForbiddenWords: seq<string> := ["drop", "delete", "update", "insert", "alter", "attach"]

  /** `any(b in low for b in words)`: some word of the list occurs in low. */
  function AnyContained(low: string, words: seq<string>): (r: bool)
    ensures r <==> exists k :: 0 <= k < |words| && Contains(low, words[k])
  {
    if words == [] then false
    else
      var rest := AnyContained(low, words[1..]);
      assert rest <==> exists k :: 1 <= k < |words| && Contains(low, words[k]) by {
        forall k | 1 <= k < |words| ensures words[k] == words[1..][k - 1] { }
        if rest {
          var k :| 0 <= k < |words[1..]| && Contains(low, words[1..][k]);
          assert Contains(low, words[k + 1]);
        }
      }
      Contains(low, words[0]) || rest
  }

  /** The gate of api/main.py:29-31: whether the query is refused. */
  function Rejects(sql: string): (r: bool)
    ensures r <==> exists w :: w in ForbiddenWords && Contains(Lower(sql), w)
  {
    var r := AnyContained(Lower(sql), ForbiddenWords);
    assert r ==> exists w :: w in ForbiddenWords && Contains(Lower(sql), w) by {
      if r {
        var k :| 0 <= k < |ForbiddenWords| && Contains(Lower(sql), ForbiddenWords[k]);
        assert ForbiddenWords[k] in ForbiddenWords;
      }
    }
    r
  }

  /** The gate does not see case: a query and its lower-case form get the same verdict. */
  lemma RejectsIgnoresCase(sql: string)
    ensures Rejects(Lower(sql)) == Rejects(sql)
  {
    LowerIdempotent(sql);
  }

  /** A denylisted word written in any mixture of cases, anywhere in a query,
      gets the query refused: `DROP` is refused like `drop`. */
  lemma RejectsInAnyCase(before: string, word: string, after: string)
    requires Lower(word) in ForbiddenWords
    ensures Rejects(before + word + after)
  {
    LowerAppend(before + word, after);
    LowerAppend(before, word);
    assert OccursAt(Lower(word), Lower(word), 0);
    ContainsSurrounded(Lower(before), Lower(word), Lower(after), Lower(word));
  }

  /** `DROP` in capitals is refused wherever it stands. */
  lemma CapitalDropRejected(before: string, after: string)
    ensures Rejects(before + "DROP" + after)
  {
    assert Lower("DROP") == "drop";
    RejectsInAnyCase(before, "DROP", after);
  }

  /** The test is on substrings, not on words: a read-only query that names
      a column `updated_at` is refused too. */
  lemma EmbeddedWordRejected()
    ensures Rejects("SELECT updated_at FROM hr_data")
  {
    assert "SELECT updated_at FROM hr_data" == "SELECT " + "update" + "d_at FROM hr_data";
    assert Lower("update") == "update" == ForbiddenWords[2];
    RejectsInAnyCase("SELECT ", "update", "d_at FROM hr_data");
  }

  /*
   * Accepting a long query one fragment at a time.
   */

  /** A character that is in no denylisted word, even after lower-casing. */
  predicate IsSeparator(c: char) {
    forall w | w in ForbiddenWords :: LowerChar(c) !in w
  }

  /** A fragment the gate accepts and that ends in a separator, so that no
      denylisted word can begin inside it and end in what follows. */
  predicate CleanFragment(p: string) {
    |p| > 0 && IsSeparator(p[|p| - 1]) && !Rejects(p)
  }

  /** Accepted text after a clean fragment stays accepted. */
  lemma AcceptsJoin(a: string, b: string)
    requires CleanFragment(a) && !Rejects(b)
    ensures !Rejects(a + b)
  {
    LowerAppend(a, b);
    forall w | w in ForbiddenWords ensures !Contains(Lower(a + b), w) {
      if Contains(Lower(a) + Lower(b), w) {
        ContainsAcrossSeam(Lower(a), Lower(b), w);
      }
    }
  }

  /** A query made of clean fragments is accepted. */
  lemma {:induction false} AcceptsConcat(ps: seq<string>)
    requires forall p | p in ps :: CleanFragment(p)
    ensures !Rejects(Concat(ps))
  {
    if ps != [] {
      assert ps[0] in ps;
      assert forall p | p in ps[1..] :: p in ps;
      AcceptsConcat(ps[1..]);
      AcceptsJoin(ps[0], Concat(ps[1..]));
    }
  }

  /*
   * A test that Dafny can run on short fragments: every denylisted word is
   * made of a few letters and holds one of a few two-letter blocks, so a
   * fragment that has none of those blocks and ends in another character is
   * clean.
   */

  /** The letters the denylisted words are made of. */
  predicate WordLetter(c: char) {
    c == 'a' || c == 'c' || c == 'd' || c == 'e' || c == 'h' || c == 'i' || c == 'l' ||
    c == 'n' || c == 'o' || c == 'p' || c == 'r' || c == 's' || c == 't' || c == 'u'
  }

  /** The two-letter blocks dr, et, pd, rt, al and tt (of drop, delete,
      update, insert, alter and attach). */
  predicate TellTale(x: char, y: char) {
    (x == 'd' && y == 'r') || (x == 'e' && y == 't') || (x == 'p' && y == 'd') ||
    (x == 'r' && y == 't') || (x == 'a' && y == 'l') || (x == 't' && y == 't')
  }

  /** Each denylisted word is made of word letters and holds a tell-tale block. */
  lemma DenylistShape(w: string)
    requires w in ForbiddenWords
    ensures forall c | c in w :: WordLetter(c)
    ensures exists o :: 0 <= o < |w| - 1 && TellTale(w[o], w[o + 1])
  {
    if w == "drop" { assert TellTale(w[0], w[1]); }
    else if w == "delete" { assert TellTale(w[3], w[4]); }
    else if w == "update" { assert TellTale(w[1], w[2]); }
    else if w == "insert" { assert TellTale(w[4], w[5]); }
    else if w == "alter" { assert TellTale(w[0], w[1]); }
    else { assert TellTale(w[1], w[2]); }
  }

  /** Lower-casing of ASCII letters alone. */
  function AsciiLower(c: char): char {
    if 'A' <= c <= 'Z' then (c as int + 32) as char else c
  }

  /** `LowerChar` gives an ASCII letter only where `AsciiLower` gives the same one. */
  lemma AsciiLowerAgrees(c: char)
    ensures 'a' <= LowerChar(c) <= 'z' ==> AsciiLower(c) == LowerChar(c)
  {
  }

  /** A tell-tale block, ASCII case ignored, starts at position i of p. */
  predicate TellTaleAt(p: string, i: int) {
    0 <= i && i + 1 < |p| && TellTale(AsciiLower(p[i]), AsciiLower(p[i + 1]))
  }

  /** Fragment p ends in a character that lower-cases to no word letter and
      has no tell-tale block. */
  predicate ScanPasses(p: string) {
    |p| > 0 && !WordLetter(AsciiLower(p[|p| - 1])) && forall i | 0 <= i < |p| - 1 :: !TellTaleAt(p, i)
  }

  /** Where a word with a tell-tale block at offset o occurs in Lower(p),
      p has that block, in one case or another. */
  lemma TellTaleSurvives(p: string, w: string, k: nat, o: nat)
    requires OccursAt(Lower(p), w, k)
    requires o + 1 < |w| && TellTale(w[o], w[o + 1])
    ensures TellTaleAt(p, k + o)
  {
    var low := Lower(p);
    assert low[k + o] == w[o] by {
      assert low[k..k + |w|][o] == low[k + o];
    }
    assert low[k + o + 1] == w[o + 1] by {
      assert low[k..k + |w|][o + 1] == low[k + o + 1];
    }
    AsciiLowerAgrees(p[k + o]);
    AsciiLowerAgrees(p[k + o + 1]);
  }

  /** No denylisted word occurs at position k of Lower(p) when p has no
      tell-tale block. */
  lemma NoWordAt(p: string, w: string, k: nat)
    requires w in ForbiddenWords
    requires forall i | 0 <= i < |p| - 1 :: !TellTaleAt(p, i)
    ensures !OccursAt(Lower(p), w, k)
  {
    if OccursAt(Lower(p), w, k) {
      DenylistShape(w);
      var o :| 0 <= o < |w| - 1 && TellTale(w[o], w[o + 1]);
      TellTaleSurvives(p, w, k, o);
      assert false;
    }
  }

  /** A fragment that passes the scan is clean. */
  lemma ScanPassesClean(p: string)
    requires ScanPasses(p)
    ensures CleanFragment(p)
  {
    AsciiLowerAgrees(p[|p| - 1]);
    forall w | w in ForbiddenWords ensures LowerChar(p[|p| - 1]) !in w {
      DenylistShape(w);
    }
    forall w | w in ForbiddenWords ensures !Contains(Lower(p), w) {
      forall k | 0 <= k <= |Lower(p)| - |w| ensures !OccursAt(Lower(p), w, k) {
        NoWordAt(p, w, k);
      }
    }
  }

  /** A query made of fragments that pass the scan is accepted. */
  lemma AcceptsScanned(ps: seq<string>)
    requires forall p | p in ps :: ScanPasses(p)
    ensures !Rejects(Concat(ps))
  {
    forall p | p in ps ensures CleanFragment(p) {
      ScanPassesClean(p);
    }
    AcceptsConcat(ps);
  }
}
