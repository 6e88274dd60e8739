/**
 * The character classes and `str` operations the extractor relies on:
 * `isdigit`, `isalpha`, `isspace`, `int()`, `strip()`, `split(sep)`, `sep.join(...)`
 * and `rfind`.
 */
module Strings {
  import opened Wrappers

  /** Characters `int()` reads as decimal digits: ASCII and full-width digits. */
  predicate IsDecimal(c: char) {
    '0' <= c <= '9' || '\U{FF10}' <= c <= '\U{FF19}'
  }

  /** `str.isdigit` on one character: the decimal digits and the superscripts one, two, three. */
  predicate IsDigit(c: char) {
    IsDecimal(c) || c == '\U{00B9}' || c == '\U{00B2}' || c == '\U{00B3}'
  }

  /** `str.isalpha` on one character: ASCII and full-width Latin letters, CJK unified ideographs. */
  predicate IsAlpha(c: char) {
    || 'A' <= c <= 'Z' || 'a' <= c <= 'z'
    || '\U{FF21}' <= c <= '\U{FF3A}' || '\U{FF41}' <= c <= '\U{FF5A}'
    || '\U{4E00}' <= c <= '\U{9FFF}'
  }

  /** `str.isspace` on one character. */
  predicate IsSpace(c: char) {
    || '\t' <= c <= '\r' || '\U{1C}' <= c <= ' ' || c == '\U{85}' || c == '\U{A0}'
    || c == '\U{1680}' || '\U{2000}' <= c <= '\U{200A}' || c == '\U{2028}' || c == '\U{2029}'
    || c == '\U{202F}' || c == '\U{205F}' || c == '\U{3000}'
  }

  /** `s.isdigit()`: false on the empty string. */
  predicate AllDigits(s: string) {
    |s| > 0 && forall i :: 0 <= i < |s| ==> IsDigit(s[i])
  }

  predicate HasDigit(s: string) {
    exists i :: 0 <= i < |s| && IsDigit(s[i])
  }

  predicate HasAlpha(s: string) {
    exists i :: 0 <= i < |s| && IsAlpha(s[i])
  }

  function DigitValue(c: char): (d: nat)
    requires IsDecimal(c)
    ensures d < 10
  {
    if c <= '9' then c as int - '0' as int else c as int - 0xFF10
  }

  /** Positional base-10 value of a string of decimal digits. */
  function DecimalValue(s: string): nat
    requires forall i :: 0 <= i < |s| ==> IsDecimal(s[i])
  {
    if s == [] then 0 else 10 * DecimalValue(s[..|s| - 1]) + DigitValue(s[|s| - 1])
  }

  /** `int(s)` for a string that `isdigit()` accepted: a superscript digit makes it raise. */
  function ParseDecimal(s: string): (r: Option<nat>)
    ensures r.Some? <==> |s| > 0 && forall i :: 0 <= i < |s| ==> IsDecimal(s[i])
  {
    if |s| > 0 && forall i :: 0 <= i < |s| ==> IsDecimal(s[i]) then Some(DecimalValue(s)) else None
  }

  /** `str(n)`: the ASCII digits of n without leading zeros. */
  function DecimalString(n: nat): (s: string)
    ensures |s| > 0
    ensures forall i :: 0 <= i < |s| ==> '0' <= s[i] <= '9'
    decreases n
  {
    (if n < 10 then [] else DecimalString(n / 10)) + [('0' as int + n % 10) as char]
  }

  lemma {:induction false} DecimalRoundTrip(n: nat)
    ensures ParseDecimal(DecimalString(n)) == Some(n)
    decreases n
  {
    var s := DecimalString(n);
    assert forall i :: 0 <= i < |s| ==> IsDecimal(s[i]);
    if n < 10 {
      assert s == [('0' as int + n) as char];
      assert DecimalValue(s) == 10 * DecimalValue([]) + n;
    } else {
      DecimalRoundTrip(n / 10);
      assert s[..|s| - 1] == DecimalString(n / 10);
      assert DecimalValue(s) == 10 * (n / 10) + n % 10;
    }
  }

  // ----- strip -----

  /** `lstrip()` */
  function TrimStart(s: string): (r: string)
    ensures |r| <= |s| && r == s[|s| - |r|..]
    ensures forall i :: 0 <= i < |s| - |r| ==> IsSpace(s[i])
    ensures r == [] || !IsSpace(r[0])
    decreases |s|
  {
    if |s| > 0 && IsSpace(s[0]) then TrimStart(s[1..]) else s
  }

  /** `rstrip()` */
  function TrimEnd(s: string): (r: string)
    ensures |r| <= |s| && r == s[..|r|]
    ensures forall i :: |r| <= i < |s| ==> IsSpace(s[i])
    ensures r == [] || !IsSpace(r[|r| - 1])
    decreases |s|
  {
    if |s| > 0 && IsSpace(s[|s| - 1]) then TrimEnd(s[..|s| - 1]) else s
  }

  /**
   * `strip()`: the text between the leading and the trailing whitespace. The result
   * neither starts nor ends with whitespace, is empty exactly when s is all whitespace,
   * and holds only characters of s.
   */
  function Strip(s: string): (r: string)
    ensures r == [] || (!IsSpace(r[0]) && !IsSpace(r[|r| - 1]))
    ensures r == [] <==> forall i :: 0 <= i < |s| ==> IsSpace(s[i])
    ensures forall c :: c in r ==> c in s
  {
    TrimBoth(s);
    TrimEnd(TrimStart(s))
  }

  /** The facts `strip()` promises, for `rstrip()` after `lstrip()`. */
  lemma TrimBoth(s: string)
    ensures var r := TrimEnd(TrimStart(s));
      && (r == [] || (!IsSpace(r[0]) && !IsSpace(r[|r| - 1])))
      && (r == [] <==> forall i :: 0 <= i < |s| ==> IsSpace(s[i]))
      && (forall c :: c in r ==> c in s)
  {
    var t := TrimStart(s);
    var r := TrimEnd(t);
    var i := |s| - |t|;
    assert t == s[i..];
    assert r == t[..|r|];
    if r == [] {
      assert t == [];
    } else {
      assert s[i] == r[0];
      assert !IsSpace(s[i]);
    }
    forall c | c in r
      ensures c in s
    {
      var j :| 0 <= j < |r| && r[j] == c;
      assert s[i + j] == c;
    }
  }

  /** Text with no whitespace at either end is left as it is by `strip()`. */
  lemma StripFixed(s: string)
    requires s == [] || (!IsSpace(s[0]) && !IsSpace(s[|s| - 1]))
    ensures Strip(s) == s
  {
  }

  /** `strip()` is idempotent. */
  lemma StripIdempotent(s: string)
    ensures Strip(Strip(s)) == Strip(s)
  {
    StripFixed(Strip(s));
  }

  /**
   * What `strip()` keeps: the result is the slice of s that starts after the leading
   * run of whitespace.
   */
  lemma StripSlice(s: string)
    ensures var i, r := |s| - |TrimStart(s)|, Strip(s);
      && i + |r| <= |s|
      && forall k :: 0 <= k < |r| ==> r[k] == s[i + k]
  {
    assert Strip(s) == TrimEnd(TrimStart(s));
  }

  /**
   * What `strip()` removes: everything of s before and after that slice is whitespace,
   * so `strip()` drops exactly the leading and the trailing whitespace.
   */
  lemma StripRemoved(s: string)
    ensures var i, r := |s| - |TrimStart(s)|, Strip(s);
      && (forall k :: 0 <= k < i ==> IsSpace(s[k]))
      && (forall k :: i + |r| <= k < |s| ==> IsSpace(s[k]))
  {
    assert Strip(s) == TrimEnd(TrimStart(s));
    TrimEndOfSuffix(s, |s| - |TrimStart(s)|);
  }

  /** Past the end of `rstrip()` of a suffix of s, s holds only whitespace. */
  lemma TrimEndOfSuffix(s: string, i: nat)
    requires i <= |s|
    ensures forall k :: i + |TrimEnd(s[i..])| <= k < |s| ==> IsSpace(s[k])
  {
    var t := s[i..];
    forall k | i + |TrimEnd(t)| <= k < |s|
      ensures IsSpace(s[k])
    {
      assert s[k] == t[k - i];
    }
  }


  // ----- find, split, join -----

  /** `s.find(c)` for a character that occurs in s. */
  function IndexOf(s: string, c: char): (i: nat)
    requires c in s
    ensures i < |s| && s[i] == c && c !in s[..i]
  {
    if s[0] == c then 0 else
      var i := 1 + IndexOf(s[1..], c);
      assert s[..i] == [s[0]] + s[1..][..i - 1];
      i
  }

  /** `s.rfind(c)`, with None for -1. */
  function LastIndexOf(s: string, c: char): (r: Option<nat>)
    ensures r.None? <==> c !in s
    ensures r.Some? ==> r.value < |s| && s[r.value] == c && c !in s[r.value + 1..]
  {
    if |s| == 0 then None
    else if s[|s| - 1] == c then Some(|s| - 1)
    else
      var r := LastIndexOf(s[..|s| - 1], c);
      assert s == s[..|s| - 1] + [s[|s| - 1]];
      assert r.Some? ==> s[r.value + 1..] == s[..|s| - 1][r.value + 1..] + [s[|s| - 1]];
      r
  }

  /** The occurrence at i is the last one in s. */
  lemma LastIndexOfAt(s: string, c: char, i: nat)
    requires i < |s| && s[i] == c && c !in s[i + 1..]
    ensures LastIndexOf(s, c) == Some(i)
  {
  }

  /** `sep.join(parts)` */
  function Join(parts: seq<string>, sep: char): string {
    if |parts| == 0 then []
    else if |parts| == 1 then parts[0]
    else parts[0] + [sep] + Join(parts[1..], sep)
  }

  /** `s.split(sep)`: the pieces between the separators. */
  function Split(s: string, sep: char): (parts: seq<string>)
    ensures |parts| >= 1
    decreases |s|
  {
    if sep !in s then [s]
    else
      var i := IndexOf(s, sep);
      [s[..i]] + Split(s[i + 1..], sep)
  }

  /** Splitting at the first separator: the piece before it, then the split of the rest. */
  lemma SplitFirst(s: string, sep: char)
    requires sep in s
    ensures var i := IndexOf(s, sep);
      && |Split(s, sep)| >= 2
      && Split(s, sep)[0] == s[..i]
      && Split(s, sep)[1..] == Split(s[i + 1..], sep)
      && s == s[..i] + [sep] + s[i + 1..]
  {
    var i := IndexOf(s, sep);
    var rest := Split(s[i + 1..], sep);
    assert Split(s, sep) == [s[..i]] + rest;
    assert ([s[..i]] + rest)[1..] == rest;
    assert s[i] == sep;
    assert s == s[..i] + [sep] + s[i + 1..];
  }

  /** The pieces `split` yields hold no separator. */
  lemma {:induction false} SplitParts(s: string, sep: char)
    ensures forall k :: 0 <= k < |Split(s, sep)| ==> sep !in Split(s, sep)[k]
    decreases |s|
  {
    if sep in s {
      var i := IndexOf(s, sep);
      SplitFirst(s, sep);
      SplitParts(s[i + 1..], sep);
      var parts, rest := Split(s, sep), Split(s[i + 1..], sep);
      forall k | 0 <= k < |parts|
        ensures sep !in parts[k]
      {
        if k > 0 {
          assert parts[k] == rest[k - 1];
        }
      }
    }
  }

  /** Joining the pieces `split` yields gives the string back. */
  lemma {:induction false} SplitRejoins(s: string, sep: char)
    ensures Join(Split(s, sep), sep) == s
    decreases |s|
  {
    if sep in s {
      var i := IndexOf(s, sep);
      SplitFirst(s, sep);
      SplitRejoins(s[i + 1..], sep);
      var parts := Split(s, sep);
      assert Join(parts, sep) == parts[0] + [sep] + Join(parts[1..], sep);
    }
  }

  /** `split` yields one more piece than there are separators. */
  lemma {:induction false} SplitCount(s: string, sep: char)
    ensures |Split(s, sep)| == multiset(s)[sep] + 1
    decreases |s|
  {
    if sep in s {
      var i := IndexOf(s, sep);
      SplitFirst(s, sep);
      SplitCount(s[i + 1..], sep);
      assert sep !in s[..i];
      assert multiset(s) == multiset(s[..i]) + multiset([sep]) + multiset(s[i + 1..]);
    }
  }

  /** Joining one more part appends a separator and the part. */
  lemma {:induction false} JoinSnoc(parts: seq<string>, p: string, sep: char)
    requires |parts| >= 1
    ensures Join(parts + [p], sep) == Join(parts, sep) + [sep] + p
    decreases |parts|
  {
    if |parts| > 1 {
      JoinSnoc(parts[1..], p, sep);
      assert (parts + [p])[1..] == parts[1..] + [p];
    }
  }

  /** Splitting undoes joining, when no part holds the separator. */
  lemma {:induction false} SplitJoin(parts: seq<string>, sep: char)
    requires |parts| >= 1
    requires forall k :: 0 <= k < |parts| ==> sep !in parts[k]
    ensures Split(Join(parts, sep), sep) == parts
    decreases |parts|
  {
    if |parts| > 1 {
      var s := Join(parts, sep);
      var head, tail := parts[0], Join(parts[1..], sep);
      assert s == head + [sep] + tail;
      assert s[|head|] == sep;
      var i := IndexOf(s, sep);
      assert i == |head| by {
        assert sep !in head;
        assert s[..|head|] == head;
      }
      assert s[..i] == head;
      assert s[i + 1..] == tail;
      SplitFirst(s, sep);
      SplitJoin(parts[1..], sep);
      assert parts == [head] + parts[1..];
    }
  }

  /** The parts before piece i are joined into a prefix of the parts before piece j. */
  lemma {:induction false} JoinPrefix(parts: seq<string>, i: nat, j: nat, sep: char)
    requires 1 <= i <= j <= |parts|
    ensures |Join(parts[..i], sep)| <= |Join(parts[..j], sep)|
    ensures Join(parts[..j], sep)[..|Join(parts[..i], sep)|] == Join(parts[..i], sep)
    decreases j - i
  {
    if i < j {
      JoinPrefix(parts, i, j - 1, sep);
      assert parts[..j] == parts[..j - 1] + [parts[j - 1]];
      JoinSnoc(parts[..j - 1], parts[j - 1], sep);
    }
  }

  /** A digit or a letter in a prefix is one in the whole string. */
  lemma PrefixClasses(s: string, n: nat)
    requires n <= |s|
    ensures HasDigit(s[..n]) ==> HasDigit(s)
    ensures HasAlpha(s[..n]) ==> HasAlpha(s)
  {
    if HasDigit(s[..n]) {
      var i :| 0 <= i < n && IsDigit(s[..n][i]);
      assert IsDigit(s[i]);
    }
    if HasAlpha(s[..n]) {
      var i :| 0 <= i < n && IsAlpha(s[..n][i]);
      assert IsAlpha(s[i]);
    }
  }
}
