/**
 * The pieces of .NET string handling the reference types rely on: the first
 * match of the character-class patterns `[A-Z]+` and `\d+`, `int.Parse` and
 * `int.ToString` on decimal digits, and `string.Split` on one separator.
 */
module Text {
  import opened Results

  /** The two character classes the cell reference patterns use. */
  datatype CharClass = UpperLetter | DecimalDigit

  predicate InClass(c: char, k: CharClass) {
    match k
    case UpperLetter => 'A' <= c <= 'Z'
    case DecimalDigit => '0' <= c <= '9'
  }

  predicate AllIn(s: string, k: CharClass) {
    forall i :: 0 <= i < |s| ==> InClass(s[i], k)
  }

  predicate NoneIn(s: string, k: CharClass) {
    forall i :: 0 <= i < |s| ==> !InClass(s[i], k)
  }

  /**
   * `run` is the first maximal run of class `k` in `s` and it starts at `i`:
   * nothing of class `k` comes before it, and it cannot be extended to the right.
   */
  ghost predicate IsFirstRun(s: string, k: CharClass, i: int, run: string) {
    0 <= i && i + |run| <= |s| && run != [] && s[i..i + |run|] == run &&
    AllIn(run, k) && NoneIn(s[..i], k) &&
    (i + |run| == |s| || !InClass(s[i + |run|], k))
  }

  /** The longest prefix of `s` made of class `k`. */
  function LeadingRun(s: string, k: CharClass): (r: string)
    ensures |r| <= |s| && r == s[..|r|]
    ensures AllIn(r, k)
    ensures |r| < |s| ==> !InClass(s[|r|], k)
  {
    if s != [] && InClass(s[0], k) then [s[0]] + LeadingRun(s[1..], k) else []
  }

  /** The position of the first character of class `k`, or `|s|` if there is none. */
  function RunStart(s: string, k: CharClass): (i: nat)
    ensures i <= |s|
    ensures NoneIn(s[..i], k)
    ensures i < |s| ==> InClass(s[i], k)
  {
    if s == [] || InClass(s[0], k) then 0 else 1 + RunStart(s[1..], k)
  }

  /**
   * The leftmost match of `[A-Z]+` (for `UpperLetter`) or `\d+` (for
   * `DecimalDigit`): `None` when the match does not succeed.
   */
  function FirstMatch(s: string, k: CharClass): (r: Option<string>)
    ensures r.None? <==> NoneIn(s, k)
    ensures r.Some? ==> IsFirstRun(s, k, RunStart(s, k), r.value)
  {
    var i := RunStart(s, k);
    if i == |s| then
      assert s[..i] == s;
      None
    else
      Some(LeadingRun(s[i..], k))
  }

  /** A string has at most one first maximal run of a class. */
  lemma FirstRunUnique(s: string, k: CharClass, i: int, run: string, j: int, run': string)
    requires IsFirstRun(s, k, i, run) && IsFirstRun(s, k, j, run')
    ensures i == j && run == run'
  {
    assert forall m :: 0 <= m < i ==> s[..i][m] == s[m];
    assert forall m :: 0 <= m < j ==> s[..j][m] == s[m];
    assert s[i] == run[0] && s[j] == run'[0];
    assert forall m :: 0 <= m < |run| ==> s[i + m] == run[m];
    assert forall m :: 0 <= m < |run'| ==> s[j + m] == run'[m];
  }

  /** `FirstMatch` finds exactly the first maximal run, wherever it is. */
  lemma FirstMatchIsFirstRun(s: string, k: CharClass, i: int, run: string)
    requires IsFirstRun(s, k, i, run)
    ensures FirstMatch(s, k) == Some(run)
  {
    assert s[i] == run[0];
    FirstRunUnique(s, k, i, run, RunStart(s, k), FirstMatch(s, k).value);
  }

  function DigitValue(c: char): int {
    c as int - '0' as int
  }

  /** The value `int.Parse` gives a run of decimal digits (leading zeros allowed). */
  function DecimalValue(s: string): (r: nat)
    requires AllIn(s, DecimalDigit)
    ensures r == 0 <==> forall i :: 0 <= i < |s| ==> s[i] == '0'
  {
    if s == [] then 0
    else
      var p, d := s[..|s| - 1], DigitValue(s[|s| - 1]);
      assert forall i :: 0 <= i < |p| ==> p[i] == s[i];
      DecimalValue(p) * 10 + d
  }

  /** Leading zeros do not change the value `int.Parse` gives. */
  lemma {:induction false} DecimalValueLeadingZero(s: string)
    requires AllIn(s, DecimalDigit) && s != [] && s[0] == '0'
    ensures DecimalValue(s) == DecimalValue(s[1..])
  {
    if |s| > 1 {
      var p := s[..|s| - 1];
      assert s[1..][..|s| - 2] == p[1..];
      DecimalValueLeadingZero(p);
    }
  }

  lemma DecimalValueSnoc(s: string, c: char)
    requires AllIn(s, DecimalDigit) && InClass(c, DecimalDigit)
    ensures AllIn(s + [c], DecimalDigit)
    ensures DecimalValue(s + [c]) == DecimalValue(s) * 10 + DigitValue(c)
  {
    assert (s + [c])[..|s|] == s;
  }

  /** The decimal text of a non-negative integer, as `int.ToString` writes it. */
  function DecimalString(n: nat): (r: string)
    ensures r != [] && AllIn(r, DecimalDigit)
    ensures DecimalValue(r) == n
    ensures r[0] == '0' ==> r == "0"
  {
    var d := [('0' as int + n % 10) as char];
    if n < 10 then d
    else
      var r := DecimalString(n / 10) + d;
      DecimalValueSnoc(DecimalString(n / 10), d[0]);
      r
  }

  /** `int.ToString` for any integer: a minus sign before a negative value. */
  function IntToString(n: int): (r: string)
    ensures r != []
    ensures n >= 0 ==> AllIn(r, DecimalDigit) && DecimalValue(r) == n
    ensures n < 0 ==> r[0] == '-' && AllIn(r[1..], DecimalDigit) && DecimalValue(r[1..]) == -n
    ensures n >= 0 ==> r == DecimalString(n)
    ensures n < 0 ==> r == "-" + DecimalString(-n)
  {
    if n < 0 then
      var r := "-" + DecimalString(-n);
      assert r[1..] == DecimalString(-n);
      r
    else DecimalString(n)
  }

  /** The number of occurrences of `c` in `s`. */
  function Count(s: string, c: char): (n: nat)
    ensures n == 0 <==> c !in s
    ensures n <= |s|
  {
    if s == [] then 0 else (if s[0] == c then 1 else 0) + Count(s[1..], c)
  }

  /** The pieces joined back with one separator between each pair. */
  function Join(parts: seq<string>, sep: char): string
    requires parts != []
  {
    if |parts| == 1 then parts[0] else parts[0] + [sep] + Join(parts[1..], sep)
  }

  /**
   * `s.Split(sep)`: the maximal separator-free pieces, empty ones included,
   * so there is always one more piece than there are separators.
   */
  function Split(s: string, sep: char): (r: seq<string>)
    ensures |r| == Count(s, sep) + 1
    ensures forall i :: 0 <= i < |r| ==> sep !in r[i]
    ensures Join(r, sep) == s
  {
    if s == [] then [""]
    else
      var rest := Split(s[1..], sep);
      if s[0] == sep then
        assert Join([""] + rest, sep) == [sep] + Join(rest, sep) by {
          assert ([""] + rest)[1..] == rest;
        }
        [""] + rest
      else
        var r := [[s[0]] + rest[0]] + rest[1..];
        assert Join(r, sep) == [s[0]] + Join(rest, sep) by {
          if |rest| > 1 {
            assert r[1..] == rest[1..];
          }
        }
        r
  }

  /** A separator-free string splits into itself alone. */
  lemma {:induction false} SplitNoSeparator(s: string, sep: char)
    requires sep !in s
    ensures Split(s, sep) == [s]
  {
    if s != [] {
      SplitNoSeparator(s[1..], sep);
      assert [s[0]] + s[1..] == s;
    }
  }

  /** Two separator-free strings joined by one separator split back into the two. */
  lemma {:induction false} SplitPair(a: string, b: string, sep: char)
    requires sep !in a && sep !in b
    ensures Split(a + [sep] + b, sep) == [a, b]
  {
    var s := a + [sep] + b;
    if a == [] {
      assert s[1..] == b;
      SplitNoSeparator(b, sep);
    } else {
      assert s[1..] == a[1..] + [sep] + b;
      SplitPair(a[1..], b, sep);
      assert [a[0]] + a[1..] == a;
    }
  }
}
