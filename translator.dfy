/*
 * The translator of api/main.py, `nl_to_sql_stub`: a placeholder for a
 * natural-language-to-SQL model that recognises one topic, staff turnover
 * (текучесть), and falls back to listing rows of the loaded table.
 */
module Translator {
  import opened Text

  /** The stem the stub looks for: every form of текучесть starts with it. */
  const TurnoverStem := "текуч"

  /** The full noun, the second test of api/main.py:45. */
  const TurnoverNoun := "текучесть"

  /*
   * The two queries, written as the join of short pieces, one list per line
   * of the query; each piece ends in a character that is in no denylisted
   * word, which lets the gate be decided piece by piece.
   */

  /** The monthly hires-cohort query of api/main.py:46. */
  const TurnoverLine1: seq<string> := ["SELECT ", "strftime(", "'%Y-%m', ", "hire_", "date) ", "AS ym,\n"]
  const TurnoverLine2: seq<string> :=
    ["       ", "COUNT(*) ", "FILTER ", "(WHERE ", "termination_", "date ", "IS NOT ", "NULL) ", "AS ", "terminations,", "\n"]
  const TurnoverLine3: seq<string> :=
    ["       ", "COUNT(*) ", "FILTER ", "(WHERE ", "termination_", "date ", "IS NULL) ", "AS ", "active\n"]
  const TurnoverLine4: seq<string> := ["FROM ", "hr_", "data\n"]
  const TurnoverLine5: seq<string> := ["GROUP ", "BY ym\n"]
  const TurnoverLine6: seq<string> := ["ORDER ", "BY ym;"]

  const TurnoverPieces: seq<string> :=
    TurnoverLine1 + TurnoverLine2 + TurnoverLine3 + TurnoverLine4 + TurnoverLine5 + TurnoverLine6

  const TurnoverSql := Concat(TurnoverPieces)

  /** The fallback query of api/main.py:47. */
  const ListRowsPieces: seq<string> := ["SELECT ", "* ", "FROM ", "hr_", "data ", "LIMIT ", "100;"]

  const ListRowsSql := Concat(ListRowsPieces)

  /** The pieces of the row listing join to the literal of api/main.py:47. */
  lemma ListRowsSqlLiteral()
    ensures ListRowsSql == "SELECT * FROM hr_data LIMIT 100;"
  {
  }

  /** The two queries differ (at their eighth character). */
  lemma QueriesDiffer()
    ensures TurnoverSql != ListRowsSql
  {
    var tail := TurnoverPieces[1..];
    assert TurnoverPieces[0] == "SELECT " && tail[0] == "strftime(";
    assert Concat(tail) == "strftime(" + Concat(tail[1..]);
    assert TurnoverSql == "SELECT " + Concat(tail);
    var rest := ListRowsPieces[1..];
    assert rest[0] == "* ";
    assert Concat(rest) == "* " + Concat(rest[1..]);
    assert ListRowsSql == "SELECT " + Concat(rest);
    assert TurnoverSql[7] == 's' && ListRowsSql[7] == '*';
  }

  /** The `'текучесть'` test adds nothing: a text that contains the noun
      contains the stem. */
  lemma NounContainsStem(low: string)
    ensures Contains(low, TurnoverNoun) ==> Contains(low, TurnoverStem)
  {
    if Contains(low, TurnoverNoun) {
      assert OccursAt(TurnoverNoun, TurnoverStem, 0);
      ContainsTransitive(low, TurnoverNoun, TurnoverStem);
    }
  }

  /** `nl_to_sql_stub` (api/main.py:43-47): the turnover query exactly when
      the lower-cased text contains the stem, the row listing otherwise. */
  function NlToSqlStub(text: string): (sql: string)
    ensures sql == TurnoverSql || sql == ListRowsSql
    ensures sql == TurnoverSql <==> Contains(Lower(text), TurnoverStem)
    ensures sql == ListRowsSql <==> !Contains(Lower(text), TurnoverStem)
  {
    QueriesDiffer();
    NounContainsStem(Lower(text));
    if Contains(Lower(text), TurnoverStem) || Contains(Lower(text), TurnoverNoun) then TurnoverSql
    else ListRowsSql
  }

  /** The stub reads only the lower-case form of the text. */
  lemma StubReadsLowerCase(text: string)
    ensures NlToSqlStub(Lower(text)) == NlToSqlStub(text)
  {
    LowerIdempotent(text);
  }

  /** Texts that agree after lower-casing get the same query. */
  lemma StubCaseInsensitive(text1: string, text2: string)
    requires Lower(text1) == Lower(text2)
    ensures NlToSqlStub(text1) == NlToSqlStub(text2)
  {
  }

  /** The stem in any mixture of cases, anywhere in the question, selects
      the turnover query. */
  lemma StemInAnyCase(before: string, stem: string, after: string)
    requires Lower(stem) == TurnoverStem
    ensures NlToSqlStub(before + stem + after) == TurnoverSql
  {
    LowerAppend(before + stem, after);
    LowerAppend(before, stem);
    assert OccursAt(TurnoverStem, TurnoverStem, 0);
    ContainsSurrounded(Lower(before), TurnoverStem, Lower(after), TurnoverStem);
  }

  /** `ТЕКУЧ`, upper case, lower-cases to the stem. */
  lemma UpperStemLowers()
    ensures Lower("ТЕКУЧ") == TurnoverStem
  {
  }

  /** A question without the letter т in either case, such as any question
      in English, gets the row listing. */
  lemma StubWithoutTeLetter(text: string)
    requires forall i | 0 <= i < |text| :: text[i] != 'т' && text[i] != 'Т'
    ensures NlToSqlStub(text) == ListRowsSql
  {
    if Contains(Lower(text), TurnoverStem) {
      var k :| 0 <= k <= |Lower(text)| - |TurnoverStem| && OccursAt(Lower(text), TurnoverStem, k);
      OccursAtStart(Lower(text), TurnoverStem, k);
      assert false;
    }
  }
}
