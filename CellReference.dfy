/**
 * A spreadsheet cell address such as "B7": a column name of upper-case letters
 * and a 1-based row index. The column name and its 1-based column index are
 * related by bijective base 26 (A = 1, ..., Z = 26, AA = 27, ...), which has
 * no zero digit. Addresses are ordered row first, then column.
 */
module CellReferences {
  import opened Results
  import opened Text

  const AlphabetCount := 26

  /** A non-empty string of the letters 'A' to 'Z'. */
  predicate IsColumnName(s: string) {
    s != [] && AllIn(s, UpperLetter)
  }

  /** The digit a letter stands for: 'A' is 1 and 'Z' is 26. */
  function LetterValue(c: char): int {
    c as int - ('A' as int - 1)
  }

  /** The letter for digit value `m + 1`, for `0 <= m < 26`. */
  function Letter(m: int): (c: char)
    requires 0 <= m < AlphabetCount
    ensures InClass(c, UpperLetter) && LetterValue(c) == m + 1
  {
    ('A' as int + m) as char
  }

  /** The column index a column name denotes, read as a bijective base-26 numeral. */
  function ColumnIndexOf(name: string): (r: int)
    ensures AllIn(name, UpperLetter) ==> r >= 0 && (name != [] ==> r >= 1)
  {
    if name == [] then 0
    else ColumnIndexOf(name[..|name| - 1]) * AlphabetCount + LetterValue(name[|name| - 1])
  }

  /** The column name of a column index; empty when the index is not positive. */
  function ColumnNameOf(n: int): (r: string)
    ensures AllIn(r, UpperLetter)
    ensures n >= 1 ==> r != []
    decreases n
  {
    if n <= 0 then ""
    else
      var m := (n - 1) % AlphabetCount;
      ColumnNameOf((n - m) / AlphabetCount) + [Letter(m)]
  }

  /** The loop of `GetColumnIndex`: `index = index * 26 + (c - 'A' + 1)` for each letter. */
  method GetColumnIndex(columnName: string) returns (index: int)
    ensures index == ColumnIndexOf(columnName)
  {
    index := 0;
    for i := 0 to |columnName|
      invariant index == ColumnIndexOf(columnName[..i])
    {
      assert columnName[..i + 1][..i] == columnName[..i];
      index := (index * AlphabetCount) + (columnName[i] as int - ('A' as int - 1));
    }
    assert columnName[..|columnName|] == columnName;
  }

  /** The loop of `GetColumnName`: take `(div - 1) % 26` as the next letter, prepend it, divide. */
  method GetColumnName(columnIndex: int) returns (name: string)
    ensures name == ColumnNameOf(columnIndex)
  {
    name := "";
    var div := columnIndex;
    var mod := 0;
    while div > 0
      invariant ColumnNameOf(div) + name == ColumnNameOf(columnIndex)
      decreases div
    {
      mod := (div - 1) % AlphabetCount;
      name := [('A' as int + mod) as char] + name;
      div := (div - mod) / AlphabetCount;
    }
  }

  lemma ColumnIndexOfSnoc(s: string, c: char)
    ensures ColumnIndexOf(s + [c]) == ColumnIndexOf(s) * AlphabetCount + LetterValue(c)
  {
    assert (s + [c])[..|s|] == s;
  }

  /** The quotient and remainder one step of `GetColumnName` works with. */
  lemma NameStep(n: int)
    requires n >= 1
    ensures var m := (n - 1) % AlphabetCount;
      0 <= m < AlphabetCount && (n - m) / AlphabetCount == (n - 1) / AlphabetCount &&
      ((n - 1) / AlphabetCount) * AlphabetCount + m + 1 == n &&
      ColumnNameOf(n) == ColumnNameOf((n - 1) / AlphabetCount) + [Letter(m)]
  {
  }

  /** Naming a column and reading the name back gives the index again. */
  lemma {:induction false} ColumnIndexOfName(n: int)
    requires n >= 1
    ensures ColumnIndexOf(ColumnNameOf(n)) == n
  {
    var m, q := (n - 1) % AlphabetCount, (n - 1) / AlphabetCount;
    NameStep(n);
    var name := ColumnNameOf(q);
    if q >= 1 {
      ColumnIndexOfName(q);
    }
    assert ColumnIndexOf(name) == q;
    ColumnIndexOfSnoc(name, Letter(m));
  }

  /** One more letter: the index `v * 26 + d` names as the name of `v` and then letter `d`. */
  lemma LetterStep(v: int, d: int)
    requires v >= 0 && 1 <= d <= 26
    ensures var n := v * 26 + d;
      n >= 1 && (n - 1) % 26 == d - 1 && (n - (d - 1)) / 26 == v
  {
  }

  /** Reading a column name and naming the index gives the name again. */
  lemma {:induction false} ColumnNameOfIndex(s: string)
    requires IsColumnName(s)
    ensures ColumnNameOf(ColumnIndexOf(s)) == s
  {
    var p, c := s[..|s| - 1], s[|s| - 1];
    assert s == p + [c];
    var v, d := ColumnIndexOf(p), LetterValue(c);
    assert ColumnIndexOf(s) == v * AlphabetCount + d;
    LetterStep(v, d);
    assert ColumnNameOf(v * AlphabetCount + d) == ColumnNameOf(v) + [Letter(d - 1)];
    if p != [] {
      ColumnNameOfIndex(p);
    }
    assert Letter(d - 1) == c;
  }

  /** Different column names denote different column indices. */
  lemma ColumnIndexOfInjective(s: string, t: string)
    requires IsColumnName(s) && IsColumnName(t)
    ensures ColumnIndexOf(s) == ColumnIndexOf(t) <==> s == t
  {
    ColumnNameOfIndex(s);
    ColumnNameOfIndex(t);
  }

  /** The column indices of the first few names. */
  lemma KnownColumnIndices()
    ensures ColumnIndexOf("A") == 1 && ColumnIndexOf("Z") == 26
    ensures ColumnIndexOf("AA") == 27 && ColumnIndexOf("AZ") == 52
    ensures ColumnIndexOf("BA") == 53 && ColumnIndexOf("ZZZ") == 18278
  {
  }

  /**
   * An immutable cell address. `Valid` is what every value built by `Parse` or
   * `Create` satisfies.
   */
  datatype CellReference = CellReference(columnName: string, rowIndex: int) {

    predicate Valid() {
      IsColumnName(columnName) && rowIndex >= 1
    }

    /** The 1-based column index, computed from the column name. */
    function ColumnIndex(): (r: int)
      ensures Valid() ==> r >= 1
    {
      ColumnIndexOf(columnName)
    }

    /** The column name followed by the row index in decimal. */
    function ToString(): (s: string)
      ensures |s| > |columnName| && s[..|columnName|] == columnName
      ensures rowIndex >= 0 ==> s[|columnName|..] == DecimalString(rowIndex)
      ensures rowIndex < 0 ==> s[|columnName|..] == "-" + DecimalString(-rowIndex)
      ensures AllIn(columnName, UpperLetter) ==> ':' !in s
    {
      var digits := DecimalString(if rowIndex < 0 then -rowIndex else rowIndex);
      assert ':' !in digits by {
        assert forall i :: 0 <= i < |digits| ==> digits[i] != ':';
      }
      var r := IntToString(rowIndex);
      assert r == if rowIndex < 0 then "-" + digits else digits;
      columnName + r
    }

    /** -1, 0 or 1 as this address comes before, equals or comes after `other`; `None` is a null `other`. */
    function CompareTo(other: Option<CellReference>): (r: int)
      ensures -1 <= r <= 1
      ensures other.None? ==> r == 1
      ensures other.Some? ==>
        (r == 0 <==> rowIndex == other.value.rowIndex && ColumnIndex() == other.value.ColumnIndex())
      ensures other.Some? ==> (r == -1 <==> RowMajorBefore(this, other.value))
      ensures other.Some? ==> (r == 1 <==> RowMajorBefore(other.value, this))
    {
      if other.None? then 1
      else if rowIndex < other.value.rowIndex then -1
      else if rowIndex > other.value.rowIndex then 1
      else if ColumnIndex() < other.value.ColumnIndex() then -1
      else if ColumnIndex() > other.value.ColumnIndex() then 1
      else 0
    }
  }

  /** The lexicographic order on (row, column): the reference definition of the order. */
  predicate RowMajorBefore(a: CellReference, b: CellReference) {
    a.rowIndex < b.rowIndex || (a.rowIndex == b.rowIndex && a.ColumnIndex() < b.ColumnIndex())
  }

  /** The private constructor: it rejects a non-positive row index. */
  function New(columnName: string, rowIndex: int): (r: Result<CellReference>)
    ensures r.Failure? <==> rowIndex <= 0
    ensures r.Failure? ==> r.error == ArgumentOutOfRangeException("rowIndex")
    ensures r.Success? ==> r.value.columnName == columnName && r.value.rowIndex == rowIndex
  {
    if rowIndex <= 0 then Failure(ArgumentOutOfRangeException("rowIndex"))
    else Success(CellReference(columnName, rowIndex))
  }

  /** The address with the given column and row index; both must be positive. */
  function Create(columnIndex: int, rowIndex: int): (r: Result<CellReference>)
    ensures columnIndex <= 0 ==> r == Failure(ArgumentOutOfRangeException("columnIndex"))
    ensures columnIndex >= 1 && rowIndex <= 0 ==> r == Failure(ArgumentOutOfRangeException("rowIndex"))
    ensures r.Success? <==> columnIndex >= 1 && rowIndex >= 1
    ensures r.Success? ==> r.value.Valid()
    ensures r.Success? ==> r.value.ColumnIndex() == columnIndex && r.value.rowIndex == rowIndex
  {
    if columnIndex <= 0 then Failure(ArgumentOutOfRangeException("columnIndex"))
    else
      ColumnIndexOfName(columnIndex);
      New(ColumnNameOf(columnIndex), rowIndex)
  }

  /**
   * Parses "A1"-style text: the column name is the first maximal run of 'A' to
   * 'Z' anywhere in the text and the row is the value of the first maximal
   * run of digits anywhere in it. Their order is not checked.
   */
  function Parse(str: string): (r: Result<CellReference>)
    ensures NoneIn(str, UpperLetter) || NoneIn(str, DecimalDigit) ==> r == Failure(ArgumentException)
    ensures r.Success? ==> r.value.Valid()
    ensures r.Success? ==> exists i :: IsFirstRun(str, UpperLetter, i, r.value.columnName)
    ensures r.Success? ==> exists j, digits ::
      IsFirstRun(str, DecimalDigit, j, digits) && DecimalValue(digits) == r.value.rowIndex
  {
    var columnNameMatch := FirstMatch(str, UpperLetter);
    var rowIndexMatch := FirstMatch(str, DecimalDigit);
    if columnNameMatch.None? || rowIndexMatch.None? then Failure(ArgumentException)
    else New(columnNameMatch.value, DecimalValue(rowIndexMatch.value))
  }

  /**
   * Given the first maximal letter run and the first maximal digit run, `Parse`
   * succeeds exactly when the digits denote a positive row.
   */
  lemma ParseFirstRuns(str: string, i: int, name: string, j: int, digits: string)
    requires IsFirstRun(str, UpperLetter, i, name)
    requires IsFirstRun(str, DecimalDigit, j, digits)
    ensures DecimalValue(digits) == 0 ==> Parse(str) == Failure(ArgumentOutOfRangeException("rowIndex"))
    ensures DecimalValue(digits) > 0 ==> Parse(str) == Success(CellReference(name, DecimalValue(digits)))
  {
    FirstMatchIsFirstRun(str, UpperLetter, i, name);
    FirstMatchIsFirstRun(str, DecimalDigit, j, digits);
  }

  /** The text of a valid address parses back to that address. */
  lemma ParseToString(c: CellReference)
    requires c.Valid()
    ensures Parse(c.ToString()) == Success(c)
  {
    var s, name, digits := c.ToString(), c.columnName, IntToString(c.rowIndex);
    assert s == name + digits;
    assert s[|name|..] == digits;
    assert s[..|name|] == name;
    assert IsFirstRun(s, UpperLetter, 0, name);
    assert IsFirstRun(s, DecimalDigit, |name|, digits);
    ParseFirstRuns(s, 0, name, |name|, digits);
  }

  /** Creating an address, writing it and parsing the text gives the same column and row. */
  lemma ParseCreateToString(columnIndex: int, rowIndex: int)
    requires columnIndex >= 1 && rowIndex >= 1
    ensures Create(columnIndex, rowIndex).Success?
    ensures var c := Parse(Create(columnIndex, rowIndex).value.ToString());
      c.Success? && c.value.ColumnIndex() == columnIndex && c.value.rowIndex == rowIndex
  {
    ParseToString(Create(columnIndex, rowIndex).value);
  }

  /** Letters after digits are accepted: "1A" is column A, row 1. */
  lemma ParseDigitsBeforeLetters()
    ensures Parse("1A") == Success(CellReference("A", 1))
  {
    var s := "1A";
    assert s[..1] == "1" && s[..0] == "" && s[1..2] == "A" && s[0..1] == "1";
    ParseFirstRuns(s, 1, "A", 0, "1");
  }

  /** A zero row is rejected by the constructor, not by the pattern match. */
  lemma ParseZeroRow()
    ensures Parse("A0") == Failure(ArgumentOutOfRangeException("rowIndex"))
  {
    var s := "A0";
    assert s[..1] == "A" && s[..0] == "" && s[0..1] == "A" && s[1..2] == "0";
    ParseFirstRuns(s, 0, "A", 1, "0");
  }

  /** `c1 > c2`; a null right operand (`None`) is smaller than every cell. */
  predicate Greater(c1: CellReference, c2: Option<CellReference>)
    ensures Greater(c1, c2) <==> c2.None? || RowMajorBefore(c2.value, c1)
  {
    c1.CompareTo(c2) == 1
  }

  /** `c1 < c2`; false for a null right operand. */
  predicate Less(c1: CellReference, c2: Option<CellReference>)
    ensures Less(c1, c2) <==> c2.Some? && RowMajorBefore(c1, c2.value)
  {
    c1.CompareTo(c2) == -1
  }

  /** `c1 >= c2`; true for a null right operand. */
  predicate GreaterOrEqual(c1: CellReference, c2: Option<CellReference>)
    ensures GreaterOrEqual(c1, c2) <==> c2.None? || !RowMajorBefore(c1, c2.value)
  {
    c1.CompareTo(c2) >= 0
  }

  /** `c1 <= c2`; false for a null right operand. */
  predicate LessOrEqual(c1: CellReference, c2: Option<CellReference>)
    ensures LessOrEqual(c1, c2) <==> c2.Some? && !RowMajorBefore(c2.value, c1)
  {
    c1.CompareTo(c2) <= 0
  }

  /** Against a null right operand, `>` and `>=` hold and `<` and `<=` do not. */
  lemma OperatorsAgainstNull(c: CellReference)
    ensures Greater(c, None) && GreaterOrEqual(c, None)
    ensures !Less(c, None) && !LessOrEqual(c, None)
  {
  }

  /** Swapping the operands negates the comparison. */
  lemma CompareToAntisymmetric(a: CellReference, b: CellReference)
    ensures a.CompareTo(Some(b)) == -b.CompareTo(Some(a))
  {
  }

  /** The order is transitive. */
  lemma LessTransitive(a: CellReference, b: CellReference, c: CellReference)
    requires Less(a, Some(b)) && Less(b, Some(c))
    ensures Less(a, Some(c))
  {
  }

  /** On valid addresses the comparison is 0 exactly for equal addresses. */
  lemma CompareToZeroIffEqual(a: CellReference, b: CellReference)
    requires a.Valid() && b.Valid()
    ensures a.CompareTo(Some(b)) == 0 <==> a == b
  {
    ColumnIndexOfInjective(a.columnName, b.columnName);
  }

  /** A smaller row comes first whatever the columns are. */
  lemma RowDominates(a: CellReference, b: CellReference)
    requires a.rowIndex < b.rowIndex
    ensures Less(a, Some(b)) && Greater(b, Some(a))
  {
  }

  /** B1 < A2 (row dominates) and A1 < B1 (same row, column order). */
  lemma OrderExamples()
    ensures Less(CellReference("B", 1), Some(CellReference("A", 2)))
    ensures Less(CellReference("A", 1), Some(CellReference("B", 1)))
  {
    KnownColumnIndices();
    assert ColumnIndexOf("B") == 2;
  }

  /** The four operators agree with each other as the comparison's three values require. */
  lemma OperatorsConsistent(a: CellReference, b: CellReference)
    ensures Less(a, Some(b)) <==> Greater(b, Some(a))
    ensures LessOrEqual(a, Some(b)) <==> !Greater(a, Some(b))
    ensures GreaterOrEqual(a, Some(b)) <==> !Less(a, Some(b))
    ensures Less(a, Some(b)) || Greater(a, Some(b)) || a.CompareTo(Some(b)) == 0
  {
  }

  /** On valid addresses `<` is a strict total order. */
  lemma LessIsStrictTotalOrder(a: CellReference, b: CellReference)
    requires a.Valid() && b.Valid()
    ensures !Less(a, Some(a))
    ensures a != b ==> Less(a, Some(b)) || Less(b, Some(a))
  {
    CompareToZeroIffEqual(a, b);
  }
}
