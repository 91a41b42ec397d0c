# ExcelTools cell and range references in Dafny

This project models the addressing core of ExcelTools, a C# spreadsheet tool:

- `CellReference`: a cell address such as `B7`. It is parsed from text, built from a column index and a row index, and written back as text. Its column name and its 1-based column index are related by bijective base 26 (A = 1, ..., Z = 26, AA = 27, ...), which has no zero digit. Addresses are ordered row first, then column.
- `TableReference`: a range such as `A1:C10`, made of a start cell and an end cell.

Files:

- `Results.dfy` (module `Results`) has `Option` and `Result`, plus the .NET exceptions the types throw. `None` stands for a C# `null`. A `Failure` stands for a thrown exception: an `ArgumentException` (the source gives it a message and no parameter name), or an `ArgumentOutOfRangeException` or `ArgumentNullException`, each with the name of the parameter it is about.
- `Text.dfy` (module `Text`) models the .NET string operations the core depends on:
  - the first match of `[A-Z]+` and `\d+`, as a scan for the first maximal run of a character class;
  - `int.Parse` on a digit run;
  - `int.ToString`;
  - `string.Split(':')`.
- `CellReference.dfy` (module `CellReferences`) models `CellReference.cs`:
  - `GetColumnIndex` and `GetColumnName` are the source's loops, written as methods. Each is proved equal to a specification function, `ColumnIndexOf` or `ColumnNameOf`.
  - The other members are pure, and the functions and lemmas use those two specification functions.
  - The cell is an immutable datatype. `ColumnIndex` is computed from the column name.
- `TableReference.dfy` (module `TableReferences`) models `TableReference.cs`.

Behaviour of the code a reader might not expect:

- `Parse` does not check that the letters come before the digits. The column is the first run of `A`-`Z` anywhere in the text and the row is the first run of digits anywhere in it. So `"1A"` is column A, row 1, and `"A1B2"` is A1.
- As a result, `"1A:B2"` is accepted as the range A1 to B2. This follows from `CellReferences.ParseDigitsBeforeLetters` and `TableReferences.ParseSides`.
- A row of `0` (as in `"A0"`) is not a pattern failure. It is rejected by the constructor with `ArgumentOutOfRangeException("rowIndex")`.

## Model

| member | source | states |
|---|---|---|
| `CellReferences.GetColumnIndex` | CellReference.cs:56-64 | the loop `index = index * 26 + (c - 'A' + 1)` returns the bijective base-26 value `ColumnIndexOf` of the name |
| `CellReferences.GetColumnName` | CellReference.cs:66-80 | the loop that prepends `'A' + (div - 1) % 26` and sets `div = (div - mod) / 26` returns `ColumnNameOf` of the index (empty for an index <= 0) |
| `CellReferences.ColumnIndexOf` | CellReference.cs:56-64 | an A-Z name has a non-negative index, and a non-empty one has an index >= 1 |
| `CellReferences.ColumnNameOf` | CellReference.cs:66-80 | the name of any index uses only 'A'..'Z', and the name of an index >= 1 is non-empty |
| `CellReferences.Letter` | CellReference.cs:75 | `'A' + m` (for 0 <= m < 26) is an upper-case letter with digit value m + 1 |
| `CellReferences.ColumnIndexOfName` | CellReference.cs:56-80 | for every n >= 1, the index of the name of n is n |
| `CellReferences.ColumnNameOfIndex` | CellReference.cs:56-80 | for every non-empty A-Z name s, the name of the index of s is s |
| `CellReferences.ColumnIndexOfInjective` | CellReference.cs:56-80 | two A-Z names have the same index exactly when they are equal |
| `CellReferences.KnownColumnIndices` | CellReference.cs:56-64 | A is 1, Z is 26, AA is 27, AZ is 52, BA is 53 and ZZZ is 18278 |
| `CellReferences.CellReference.ColumnIndex` | CellReference.cs:15-19 | the column index of a valid cell is at least 1 |
| `CellReferences.New` | CellReference.cs:44-54 | the private constructor fails with `ArgumentOutOfRangeException("rowIndex")` exactly when the row is <= 0; otherwise it keeps the name and the row |
| `CellReferences.Create` | CellReference.cs:34-42 | fails on column <= 0 (checked first) and on row <= 0; it succeeds exactly when both are >= 1, and the result is valid, with the given column index and row |
| `CellReferences.Parse` | CellReference.cs:21-32 | fails with `ArgumentException` when the text has no upper-case letter or no digit; a success is valid, its name is the first maximal letter run and its row is the value of the first maximal digit run |
| `CellReferences.ParseFirstRuns` | CellReference.cs:21-49 | given the first maximal letter run and the first maximal digit run, `Parse` fails on row 0 with `ArgumentOutOfRangeException("rowIndex")` and otherwise gives exactly that name and row |
| `CellReferences.ParseDigitsBeforeLetters` | CellReference.cs:23-31 | `"1A"` parses as column A, row 1 |
| `CellReferences.ParseZeroRow` | CellReference.cs:31-48 | `"A0"` is rejected by the row check, not by the pattern |
| `CellReferences.CellReference.ToString` | CellReference.cs:82-85 | the text is the column name followed by the decimal row index, with a '-' before the digits of a negative row; it contains no ':' when the name is made of letters |
| `CellReferences.ParseToString` | CellReference.cs:21-85 | the text of every valid cell parses back to that same cell |
| `CellReferences.ParseCreateToString` | CellReference.cs:21-85 | for c >= 1 and r >= 1, parsing the text of `Create(c, r)` gives column index c and row r |
| `CellReferences.CellReference.CompareTo` | CellReference.cs:87-114 | returns only -1, 0 or 1, and 1 for null; 0 exactly when row and column index are equal; -1 and 1 exactly as the lexicographic (row, column) order puts this cell before or after the other |
| `CellReferences.CompareToAntisymmetric` | CellReference.cs:87-114 | swapping the operands negates the comparison |
| `CellReferences.LessTransitive` | CellReference.cs:87-124 | `<` is transitive |
| `CellReferences.CompareToZeroIffEqual` | CellReference.cs:87-114 | on valid cells, the comparison is 0 exactly when the cells are equal |
| `CellReferences.RowDominates` | CellReference.cs:87-124 | a smaller row is `<` whatever the columns are |
| `CellReferences.OrderExamples` | CellReference.cs:87-124 | B1 < A2 and A1 < B1 |
| `CellReferences.Greater` | CellReference.cs:116-119 | `c1 > c2` holds exactly when c2 is null or comes before c1 in row-major order |
| `CellReferences.Less` | CellReference.cs:121-124 | `c1 < c2` holds exactly when c2 is not null and c1 comes before it in row-major order |
| `CellReferences.GreaterOrEqual` | CellReference.cs:126-129 | `c1 >= c2` holds exactly when c2 is null or c1 does not come before it in row-major order |
| `CellReferences.LessOrEqual` | CellReference.cs:131-134 | `c1 <= c2` holds exactly when c2 is not null and does not come before c1 in row-major order |
| `CellReferences.OperatorsAgainstNull` | CellReference.cs:89-134 | against a null right operand, `>` and `>=` hold and `<` and `<=` do not |
| `CellReferences.OperatorsConsistent` | CellReference.cs:116-134 | `a < b` iff `b > a`; `<=` is the negation of `>`; `>=` is the negation of `<`; any two cells satisfy `<`, `>` or compare equal |
| `CellReferences.LessIsStrictTotalOrder` | CellReference.cs:87-134 | on valid cells `<` is irreflexive and any two distinct cells are related by it |
| `Text.FirstMatch` | CellReference.cs:10-26 | the match fails exactly when the text has no character of the class; a success is the first maximal run of the class |
| `Text.FirstMatchIsFirstRun` | CellReference.cs:23-24 | whatever run is the first maximal run of the class, that run is what the match returns |
| `Text.FirstRunUnique` | CellReference.cs:23-24 | a text has only one first maximal run of a class |
| `Text.DecimalValue` | CellReference.cs:31 | `int.Parse` of a digit run is 0 exactly when every digit is '0' (so `Parse` rejects exactly those rows) |
| `Text.DecimalValueLeadingZero` | CellReference.cs:31 | a leading zero does not change the value of a digit run |
| `Text.DecimalString` | CellReference.cs:84 | the decimal text of n is non-empty, all digits, has no leading zero, and is read back as n |
| `Text.IntToString` | CellReference.cs:84 | a non-negative number is written as its canonical decimal digits (no leading zero), and a negative one gets a '-' before the canonical digits of its absolute value |
| `Text.Split` | TableReference.cs:13 | `Split(':')` gives one more piece than there are ':' characters; no piece contains ':'; joining the pieces with ':' gives the text back |
| `Text.SplitPair` | TableReference.cs:13 | `a + ":" + b` with colon-free a and b splits into exactly `[a, b]` |
| `TableReferences.New` | TableReference.cs:22-35 | the constructor throws `ArgumentNullException` for a null start (checked first) or a null end; otherwise both cells are the arguments |
| `TableReferences.Parse` | TableReference.cs:11-20 | throws `ArgumentException` unless the text has exactly one ':'; a success consists of two valid cells |
| `TableReferences.OneColonSplits` | TableReference.cs:13-14 | text with exactly one ':' is two colon-free sides around it |
| `TableReferences.ParseSides` | TableReference.cs:11-20 | for `a + ":" + b`, the range is the cell parse of a and the cell parse of b; a failure of a, and otherwise of b, is what is thrown |
| `TableReferences.TableReference.ToString` | TableReference.cs:37-40 | the text of a valid range has exactly one ':', and splitting it at that ':' gives the start cell's text and the end cell's text |
| `TableReferences.ParseToString` | TableReference.cs:11-40 | the text of every valid range parses back to that same range |
| `TableReferences.ParseExample` | TableReference.cs:11-20 | `"A1:C10"` gives start (column 1, row 1) and end (column 3, row 10) |
| `TableReferences.ParseRejectsSeparatorCount` | TableReference.cs:13-17 | `"A1"` and `"A1:B2:C3"` are rejected |
| `TableReferences.ParseAcceptsReversedRange` | TableReference.cs:11-35 | `"C10:A1"` is accepted although its start comes after its end |

## Left out

- `CellReferences.GetColumnIndex`: does not model 32-bit wrap-around. Integers are unbounded, so every name after `FXSHRXW` (index 2147483647, the largest `int`) gets its true value. In the source, `FXSHRXX` and every later name wrap around.
- `CellReferences.Parse`: does not model the `OverflowException` that `int.Parse` throws on a digit run too large for an `int`. The row is the unbounded value of the run.
- `CellReferences.Parse`: models `\d` as the ASCII digits '0' to '9'. The .NET engine also matches other Unicode decimal digits, which `int.Parse` then rejects.
- The `Lazy<int>` that caches `ColumnIndex` is thread-safe lazy initialisation. `ColumnIndex` is a pure function of the column name.
- The regular-expression engine is not modelled. Each pattern is a single character class repeated, and is modelled as a linear scan for the first maximal run of that class.
- The operators with a null left operand throw `NullReferenceException`. This is not modelled: the left operand is always a cell. A null right operand is modelled (as `None`), both for the operators and for `CompareTo`.
- The exception messages, such as `Expected reference of form "A1"` and `Column index should be greater than zero`, are not modelled. A `Failure` records only the exception type and, where the source gives one, the parameter name.
- Cells are values in the model, but in the source they are objects, and the class does not override `Equals` or `==`. Two cells parsed separately from `"A1"` are different objects in the source. In `CompareToZeroIffEqual`, "equal" means the same column name and row. No modelled operation compares cells for identity.
- A null string passed to `Parse` or `Split` is not modelled: strings are never null here.
- `Program.cs` only opens a spreadsheet file through the OpenXml library. File I/O and that library are not part of this model.
- Table extraction and number-format rendering are not part of this model. No code for them is present in the files modelled.
