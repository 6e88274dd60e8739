/**
 * The parameter box: `get_parameters` reads its text as position arguments, one per
 * non-blank line, stripped; `load_default_params` fills it with one argument per line.
 */
module Parameters {
  import opened Strings

  /** Each line stripped of surrounding whitespace, dropping the lines that become empty. */
  function StrippedLines(lines: seq<string>): (ps: seq<string>)
    ensures |ps| <= |lines|
    ensures forall k :: 0 <= k < |ps| ==> ps[k] != [] && Strip(ps[k]) == ps[k]
  {
    if lines == [] then []
    else
      var init := StrippedLines(lines[..|lines| - 1]);
      var last := lines[|lines| - 1];
      var line := Strip(last);
      if line == [] then init
      else
        StripIdempotent(last);
        init + [line]
  }

  /** The positions of the lines holding a non-whitespace character, in order. */
  function NonBlank(lines: seq<string>): (idx: seq<int>)
    ensures forall m :: 0 <= m < |idx| ==> 0 <= idx[m] < |lines|
  {
    if lines == [] then []
    else
      var n := |lines| - 1;
      var idx := NonBlank(lines[..n]);
      if Strip(lines[n]) == [] then idx else idx + [n]
  }

  /** The non-blank positions increase strictly. */
  lemma {:induction false} NonBlankIncreasing(lines: seq<string>)
    ensures forall m, n :: 0 <= m < n < |NonBlank(lines)| ==> NonBlank(lines)[m] < NonBlank(lines)[n]
    decreases |lines|
  {
    if lines != [] {
      NonBlankIncreasing(lines[..|lines| - 1]);
    }
  }

  /** A position is listed exactly when its line holds a non-whitespace character. */
  lemma {:induction false} NonBlankMembers(lines: seq<string>)
    ensures forall k :: 0 <= k < |lines| ==> (k in NonBlank(lines) <==> Strip(lines[k]) != [])
    decreases |lines|
  {
    if lines != [] {
      var init := lines[..|lines| - 1];
      NonBlankMembers(init);
      forall k | 0 <= k < |lines|
        ensures k in NonBlank(lines) <==> Strip(lines[k]) != []
      {
        if k < |init| {
          assert init[k] == lines[k];
          assert k != |lines| - 1;
        }
      }
    }
  }

  /**
   * The kept lines are exactly the non-blank lines, stripped, in their order: the m-th
   * kept line is the stripped line at the m-th non-blank position.
   */
  lemma {:induction false} StrippedLinesAt(lines: seq<string>)
    ensures |StrippedLines(lines)| == |NonBlank(lines)|
    ensures forall m :: 0 <= m < |NonBlank(lines)| ==>
      StrippedLines(lines)[m] == Strip(lines[NonBlank(lines)[m]])
    decreases |lines|
  {
    if lines != [] {
      var n := |lines| - 1;
      var init := lines[..n];
      StrippedLinesAt(init);
      var ps, idx := StrippedLines(init), NonBlank(init);
      var tail := if Strip(lines[n]) == [] then [] else [Strip(lines[n])];
      assert StrippedLines(lines) == ps + tail;
      assert NonBlank(lines) == idx + (if tail == [] then [] else [n]);
      forall m | 0 <= m < |idx|
        ensures StrippedLines(lines)[m] == Strip(lines[NonBlank(lines)[m]])
      {
        assert NonBlank(lines)[m] == idx[m];
        PrefixAt(lines, n, idx[m]);
        assert StrippedLines(lines)[m] == ps[m];
      }
    }
  }

  lemma PrefixAt<T>(s: seq<T>, n: nat, j: int)
    requires 0 <= j < n <= |s|
    ensures s[..n][j] == s[j]
  {
  }

  /** Lines without line breaks stay without them once stripped. */
  lemma {:induction false} StrippedLinesNoBreak(lines: seq<string>)
    requires forall k :: 0 <= k < |lines| ==> '\n' !in lines[k]
    ensures forall k :: 0 <= k < |StrippedLines(lines)| ==> '\n' !in StrippedLines(lines)[k]
    decreases |lines|
  {
    if lines != [] {
      var init := lines[..|lines| - 1];
      assert forall k :: 0 <= k < |init| ==> init[k] == lines[k];
      StrippedLinesNoBreak(init);
    }
  }

  /**
   * `get_parameters`: the stripped, non-blank lines of the text, in order. Each is
   * non-empty, holds no line break and has no whitespace at either end.
   */
  function GetParameters(text: string): (ps: seq<string>)
    ensures forall k :: 0 <= k < |ps| ==> ps[k] != [] && Strip(ps[k]) == ps[k] && '\n' !in ps[k]
  {
    var t := Strip(text);
    if t == [] then []
    else
      SplitParts(t, '\n');
      StrippedLinesNoBreak(Split(t, '\n'));
      StrippedLines(Split(t, '\n'))
  }

  /**
   * The parameters are the non-blank lines of the stripped box text, each stripped, in
   * their order: every line with a non-whitespace character gives one parameter.
   */
  lemma GetParametersLines(text: string)
    ensures var lines := Split(Strip(text), '\n');
      && |GetParameters(text)| == |NonBlank(lines)|
      && forall m :: 0 <= m < |NonBlank(lines)| ==> GetParameters(text)[m] == Strip(lines[NonBlank(lines)[m]])
  {
    var lines := Split(Strip(text), '\n');
    if Strip(text) == [] {
      assert lines == [[]];
      assert NonBlank(lines) == [] by {
        assert Strip(lines[0]) == [];
      }
    } else {
      assert GetParameters(text) == StrippedLines(lines);
      StrippedLinesAt(lines);
    }
  }

  /** The text `load_default_params` leaves in the box: each argument followed by a line break. */
  function ParamText(ps: seq<string>): string {
    if ps == [] then [] else ParamText(ps[..|ps| - 1]) + ps[|ps| - 1] + "\n"
  }

  /** `load_default_params`: the box is cleared, then each argument is inserted with a line break. */
  method LoadDefaultParams(defaults: seq<string>) returns (text: string)
    ensures text == ParamText(defaults)
  {
    text := [];
    for k := 0 to |defaults|
      invariant text == ParamText(defaults[..k])
    {
      assert defaults[..k + 1][..k] == defaults[..k];
      text := text + defaults[k] + "\n";
    }
    assert defaults[..|defaults|] == defaults;
  }

  /** Stripping keeps a line that has no whitespace at either end. */
  lemma {:induction false} StrippedLinesKeep(lines: seq<string>)
    requires forall k :: 0 <= k < |lines| ==> lines[k] != [] && Strip(lines[k]) == lines[k]
    ensures StrippedLines(lines) == lines
    decreases |lines|
  {
    if lines != [] {
      StrippedLinesKeep(lines[..|lines| - 1]);
      assert lines == lines[..|lines| - 1] + [lines[|lines| - 1]];
    }
  }

  /** Some line with a non-blank character keeps the result non-empty. */
  lemma {:induction false} StrippedLinesNonEmpty(lines: seq<string>, k: nat)
    requires k < |lines| && Strip(lines[k]) != []
    ensures StrippedLines(lines) != []
    decreases |lines|
  {
    if k < |lines| - 1 {
      StrippedLinesNonEmpty(lines[..|lines| - 1], k);
    }
  }

  /** The box text of non-empty arguments is their join by line breaks, plus a final line break. */
  lemma {:induction false} ParamTextJoin(ps: seq<string>)
    requires ps != []
    ensures ParamText(ps) == Join(ps, '\n') + "\n"
    decreases |ps|
  {
    if |ps| > 1 {
      var init := ps[..|ps| - 1];
      ParamTextJoin(init);
      JoinSnoc(init, ps[|ps| - 1], '\n');
      assert init + [ps[|ps| - 1]] == ps;
    }
  }

  /** The join starts with the first part. */
  lemma JoinStart(ps: seq<string>, sep: char)
    requires ps != []
    ensures |Join(ps, sep)| >= |ps[0]| && Join(ps, sep)[..|ps[0]|] == ps[0]
  {
    if |ps| > 1 {
      assert Join(ps, sep) == ps[0] + ([sep] + Join(ps[1..], sep));
    }
  }

  /** The join ends with the last part. */
  lemma JoinEnd(ps: seq<string>, sep: char)
    requires ps != []
    ensures |Join(ps, sep)| >= |ps[|ps| - 1]| && Join(ps, sep)[|Join(ps, sep)| - |ps[|ps| - 1]|..] == ps[|ps| - 1]
  {
    if |ps| > 1 {
      var init := ps[..|ps| - 1];
      JoinSnoc(init, ps[|ps| - 1], sep);
      assert init + [ps[|ps| - 1]] == ps;
    }
  }

  /** Stripping text with no whitespace at its ends, followed by a line break, gives the text. */
  lemma StripTrailingBreak(s: string)
    requires s != [] && !IsSpace(s[0]) && !IsSpace(s[|s| - 1])
    ensures Strip(s + "\n") == s
  {
    var t := s + "\n";
    assert TrimStart(t) == t;
    assert t[..|t| - 1] == s;
    assert TrimEnd(t) == TrimEnd(s);
  }

  /** The joined arguments followed by a line break strip back to the join. */
  lemma StripJoined(ps: seq<string>)
    requires ps != [] && forall k :: 0 <= k < |ps| ==> ps[k] != [] && Strip(ps[k]) == ps[k]
    ensures Strip(Join(ps, '\n') + "\n") == Join(ps, '\n')
  {
    var j := Join(ps, '\n');
    JoinStart(ps, '\n');
    JoinEnd(ps, '\n');
    var first, last := ps[0], ps[|ps| - 1];
    assert j[0] == first[0] && j[|j| - 1] == last[|last| - 1];
    StripTrailingBreak(j);
  }

  /**
   * Reading back the box that `load_default_params` fills gives the arguments it was
   * given, when each is non-empty, stripped and free of line breaks.
   */
  lemma ParamTextRoundTrip(ps: seq<string>)
    requires forall k :: 0 <= k < |ps| ==> ps[k] != [] && Strip(ps[k]) == ps[k] && '\n' !in ps[k]
    ensures GetParameters(ParamText(ps)) == ps
  {
    if ps != [] {
      var j := Join(ps, '\n');
      ParamTextJoin(ps);
      StripJoined(ps);
      assert Strip(ParamText(ps)) == j;
      SplitJoin(ps, '\n');
      StrippedLinesKeep(ps);
      assert GetParameters(ParamText(ps)) == StrippedLines(ps);
    }
  }

  /** No argument is read exactly when the box holds only whitespace. */
  lemma BlankText(text: string)
    ensures GetParameters(text) == [] <==> forall i :: 0 <= i < |text| ==> IsSpace(text[i])
  {
    var t := Strip(text);
    if t != [] {
      var lines := Split(t, '\n');
      SplitParts(t, '\n');
      SplitRejoins(t, '\n');
      JoinStart(lines, '\n');
      assert lines[0] != [];
      assert lines[0][0] == t[0];
      StrippedLinesNonEmpty(lines, 0);
    }
  }
}
