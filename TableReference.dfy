/**
 * A rectangular cell range such as "A1:C10", given by its start and end cell.
 * Nothing checks that the start comes before the end.
 */
module TableReferences {
  import opened Results
  import opened Text
  import CellReferences

  type CellReference = CellReferences.CellReference

  datatype TableReference = TableReference(startCell: CellReference, endCell: CellReference) {

    predicate Valid() {
      startCell.Valid() && endCell.Valid()
    }

    /** The start cell's text, a colon, and the end cell's text. */
    function ToString(): (s: string)
      ensures Valid() ==> Count(s, ':') == 1
      ensures Valid() ==> Split(s, ':') == [startCell.ToString(), endCell.ToString()]
    {
      var a, b := startCell.ToString(), endCell.ToString();
      // Both branches give the same text; the first only brings in the proof
      // that valid cell texts, being colon-free, split back apart.
      if Valid() then
        SplitPair(a, b, ':');
        a + [':'] + b
      else
        a + [':'] + b
    }
  }

  /** The constructor: it rejects a null start or end cell (`None`). */
  function New(startCell: Option<CellReference>, endCell: Option<CellReference>): (r: Result<TableReference>)
    ensures startCell.None? ==> r == Failure(ArgumentNullException("startCell"))
    ensures startCell.Some? && endCell.None? ==> r == Failure(ArgumentNullException("endCell"))
    ensures r.Success? <==> startCell.Some? && endCell.Some?
    ensures r.Success? ==> r.value.startCell == startCell.value && r.value.endCell == endCell.value
  {
    if startCell.None? then Failure(ArgumentNullException("startCell"))
    else if endCell.None? then Failure(ArgumentNullException("endCell"))
    else Success(TableReference(startCell.value, endCell.value))
  }

  /**
   * Parses "A1:B2"-style text: exactly one ':' and a cell reference on each
   * side; the first failing cell parse, left to right, decides the exception.
   */
  function Parse(reference: string): (r: Result<TableReference>)
    ensures Count(reference, ':') != 1 ==> r == Failure(ArgumentException)
    ensures r.Success? ==> r.value.Valid()
  {
    var strs := Split(reference, ':');
    if |strs| != 2 then Failure(ArgumentException)
    else
      var startCell :- CellReferences.Parse(strs[0]);
      var endCell :- CellReferences.Parse(strs[1]);
      New(Some(startCell), Some(endCell))
  }

  /**
   * With exactly one ':' the text is `a + ":" + b`, and `Parse` is the two cell
   * parses of `a` and `b`, with the first failure propagated.
   */
  lemma ParseSides(a: string, b: string)
    requires ':' !in a && ':' !in b
    ensures var r := Parse(a + [':'] + b);
      var sa, sb := CellReferences.Parse(a), CellReferences.Parse(b);
      (r.Success? <==> sa.Success? && sb.Success?) &&
      (sa.Failure? ==> r == Failure(sa.error)) &&
      (sa.Success? && sb.Failure? ==> r == Failure(sb.error)) &&
      (r.Success? ==> r.value.startCell == sa.value && r.value.endCell == sb.value)
  {
    SplitPair(a, b, ':');
  }

  /** Every text with exactly one ':' is two colon-free sides around it. */
  lemma OneColonSplits(reference: string)
    requires Count(reference, ':') == 1
    ensures var strs := Split(reference, ':');
      |strs| == 2 && ':' !in strs[0] && ':' !in strs[1] && reference == strs[0] + [':'] + strs[1]
  {
    var strs := Split(reference, ':');
    assert Join(strs[1..], ':') == strs[1];
  }

  /** The text of a valid range parses back to that range. */
  lemma ParseToString(t: TableReference)
    requires t.Valid()
    ensures Parse(t.ToString()) == Success(t)
  {
    CellReferences.ParseToString(t.startCell);
    CellReferences.ParseToString(t.endCell);
    ParseSides(t.startCell.ToString(), t.endCell.ToString());
  }

  /** "A1:C10" is the range from column 1, row 1 to column 3, row 10. */
  lemma ParseExample()
    ensures var r := Parse("A1:C10");
      r.Success? && r.value.startCell.ColumnIndex() == 1 && r.value.startCell.rowIndex == 1 &&
      r.value.endCell.ColumnIndex() == 3 && r.value.endCell.rowIndex == 10
  {
    var t := TableReference(CellReferences.CellReference("A", 1), CellReferences.CellReference("C", 10));
    assert t.ToString() == "A1:C10";
    ParseToString(t);
  }

  /** Text without a ':' or with more than one is rejected. */
  lemma ParseRejectsSeparatorCount()
    ensures Parse("A1") == Failure(ArgumentException)
    ensures Parse("A1:B2:C3") == Failure(ArgumentException)
  {
    assert Count("A1", ':') == 0;
    assert Count("A1:B2:C3", ':') == 2;
  }

  /** No order is enforced: "C10:A1" is accepted though its start comes after its end. */
  lemma ParseAcceptsReversedRange()
    ensures var r := Parse("C10:A1");
      r.Success? && CellReferences.Greater(r.value.startCell, Some(r.value.endCell))
  {
    var t := TableReference(CellReferences.CellReference("C", 10), CellReferences.CellReference("A", 1));
    assert t.ToString() == "C10:A1";
    ParseToString(t);
    CellReferences.RowDominates(t.endCell, t.startCell);
  }
}
