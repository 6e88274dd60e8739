/**
 * Spreadsheet column names: bijective base 26 over the letters A to Z
 * (A = 1, Z = 26, AA = 27, ...), the conversion `column_index_from_string` performs.
 */
module Columns {
  import opened Wrappers

  predicate IsColumnLetter(c: char) {
    'A' <= c <= 'Z'
  }

  predicate IsColumnName(s: string) {
    |s| > 0 && forall i :: 0 <= i < |s| ==> IsColumnLetter(s[i])
  }

  /** The number a string of column letters denotes (0 for the empty string). */
  function Number(s: string): nat
    requires forall i :: 0 <= i < |s| ==> IsColumnLetter(s[i])
  {
    assert s != [] ==> IsColumnLetter(s[|s| - 1]);
    if s == [] then 0 else 26 * Number(s[..|s| - 1]) + (s[|s| - 1] as int - 'A' as int + 1)
  }

  /** `column_index_from_string`: the 1-based column of a name, None where the call raises. */
  function ColumnIndex(s: string): (r: Option<nat>)
    ensures r.Some? <==> IsColumnName(s)
    ensures r.Some? ==> r.value >= 1
  {
    if IsColumnName(s) then Some(Number(s)) else None
  }

  /** The column letters of column n (the empty string for 0). */
  function ColumnName(n: nat): (s: string)
    ensures forall i :: 0 <= i < |s| ==> IsColumnLetter(s[i])
    ensures s == [] <==> n == 0
    decreases n
  {
    if n == 0 then [] else ColumnName((n - 1) / 26) + [('A' as int + (n - 1) % 26) as char]
  }

  /** Reading the name of column n back gives n. */
  lemma {:induction false} NumberOfName(n: nat)
    ensures Number(ColumnName(n)) == n
    decreases n
  {
    if n > 0 {
      NumberOfName((n - 1) / 26);
      var s := ColumnName(n);
      assert s[..|s| - 1] == ColumnName((n - 1) / 26);
    }
  }

  /** Naming the column a string of letters denotes gives the string back. */
  lemma {:induction false} NameOfNumber(s: string)
    requires forall i :: 0 <= i < |s| ==> IsColumnLetter(s[i])
    ensures ColumnName(Number(s)) == s
    decreases |s|
  {
    if s != [] {
      var init, last := s[..|s| - 1], s[|s| - 1];
      NameOfNumber(init);
      var d := last as int - 'A' as int;
      var n := Number(s);
      assert n - 1 == 26 * Number(init) + d;
      assert (n - 1) / 26 == Number(init) && (n - 1) % 26 == d;
      assert s == init + [last];
    }
  }

  /** `column_index_from_string` is a bijection between column names and positive integers. */
  lemma ColumnRoundTrip(n: nat, s: string)
    ensures n >= 1 ==> ColumnIndex(ColumnName(n)) == Some(n)
    ensures IsColumnName(s) ==> ColumnIndex(s).Some? && ColumnName(ColumnIndex(s).value) == s
  {
    NumberOfName(n);
    if IsColumnName(s) {
      NameOfNumber(s);
    }
  }
}
