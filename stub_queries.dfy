/*
 * Both queries the translator can produce pass the safety gate.
 *
 * Dafny cannot evaluate the gate on a query of 200 characters directly, so
 * each query is cut into short pieces that end in a character of no
 * denylisted word; the scan of `Gate.ScanPasses` runs on each piece, and
 * `Gate.AcceptsScanned` carries the verdict over to the whole query.
 */
module StubQueries {
  import opened Text
  import opened Gate
  import opened Translator

  lemma Line1Scan() ensures forall p | p in TurnoverLine1 :: ScanPasses(p) { }
  lemma Line2Scan() ensures forall p | p in TurnoverLine2 :: ScanPasses(p) { }
  lemma Line3Scan() ensures forall p | p in TurnoverLine3 :: ScanPasses(p) { }
  lemma Line4Scan() ensures forall p | p in TurnoverLine4 :: ScanPasses(p) { }
  lemma Line5Scan() ensures forall p | p in TurnoverLine5 :: ScanPasses(p) { }
  lemma Line6Scan() ensures forall p | p in TurnoverLine6 :: ScanPasses(p) { }
  lemma ListRowsScan() ensures forall p | p in ListRowsPieces :: ScanPasses(p) { }

  /** The turnover query of api/main.py:46 passes the gate. */
  lemma TurnoverSqlAccepted()
    ensures !Rejects(TurnoverSql)
  {
    Line1Scan(); Line2Scan(); Line3Scan(); Line4Scan(); Line5Scan(); Line6Scan();
    AcceptsScanned(TurnoverPieces);
  }

  /** The row listing of api/main.py:47 passes the gate. */
  lemma ListRowsSqlAccepted()
    ensures !Rejects(ListRowsSql)
  {
    ListRowsScan();
    AcceptsScanned(ListRowsPieces);
  }

  /** Whatever the question, the query the stub produces passes the gate. */
  lemma StubPassesGate(text: string)
    ensures !Rejects(NlToSqlStub(text))
  {
    TurnoverSqlAccepted();
    ListRowsSqlAccepted();
  }
}
