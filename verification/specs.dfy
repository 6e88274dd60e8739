/**
 * `parse_position_args`: each position argument "CELL-HEADER" names a cell or range
 * and the output column its value goes to. The cell part ends at the last dash that
 * leaves a part holding both a digit and a letter; without one, the whole argument is
 * used as both.
 */
module Specs {
  import opened Wrappers
  import opened Strings

  /** One parsed position argument: the cell or range token and the column header. */
  datatype Spec = Spec(range: string, header: string)

  /** The test a candidate cell part must pass: it holds a digit and a letter. */
  predicate LooksLikeCell(s: string) {
    HasDigit(s) && HasAlpha(s)
  }

  /** k is the position of the last dash of arg. */
  predicate LastDashAt(arg: string, k: int) {
    0 <= k < |arg| && arg[k] == '-' && '-' !in arg[k + 1..]
  }

  /**
   * Reference definition: split at the last dash when the text before it looks like a
   * cell; otherwise the argument is both the range and the header.
   */
  function SpecOf(arg: string): Spec {
    match LastIndexOf(arg, '-')
    case None => Spec(arg, arg)
    case Some(k) => if LooksLikeCell(arg[..k]) then Spec(arg[..k], arg[k + 1..]) else Spec(arg, arg)
  }

  /**
   * Either the argument is the cell part, a dash and a header without dashes, and the
   * cell part holds a digit and a letter; or the argument is both range and header and
   * the text before its last dash (if any) lacks a digit or a letter.
   */
  lemma SpecOfCases(arg: string)
    ensures var r := SpecOf(arg);
      || (r.range + "-" + r.header == arg && '-' !in r.header && LooksLikeCell(r.range))
      || (r == Spec(arg, arg) && forall k :: LastDashAt(arg, k) ==> !LooksLikeCell(arg[..k]))
  {
    match LastIndexOf(arg, '-')
    case None =>
    case Some(k) =>
      assert arg == arg[..k] + "-" + arg[k + 1..];
  }

  /** A cell part followed by a dash and a header without dashes parses back into the two. */
  lemma SpecRoundTrip(range: string, header: string)
    requires LooksLikeCell(range) && '-' !in header
    ensures SpecOf(range + "-" + header) == Spec(range, header)
  {
    var arg := range + "-" + header;
    assert arg[|range|] == '-';
    assert arg[|range| + 1..] == header;
    LastIndexOfAt(arg, '-', |range|);
    assert arg[..|range|] == range;
  }

  /** A header holding a dash is cut at its last dash: "F1-peak-area" names the column "area". */
  lemma DashedHeaderIsCut()
    ensures SpecOf("F1-peak-area") == Spec("F1-peak", "area")
  {
    var arg := "F1-peak-area";
    LastIndexOfAt(arg, '-', 7);
    assert arg[..7] == "F1-peak";
    assert IsDigit(arg[..7][1]) && IsAlpha(arg[..7][0]);
  }

  /** The dash between the last two pieces of `split('-')` is the last dash. */
  lemma LastPiece(arg: string, parts: seq<string>)
    requires parts == Split(arg, '-') && |parts| >= 2
    ensures LastDashAt(arg, |Join(parts[..|parts| - 1], '-')|)
    ensures arg[..|Join(parts[..|parts| - 1], '-')|] == Join(parts[..|parts| - 1], '-')
    ensures arg[|Join(parts[..|parts| - 1], '-')| + 1..] == Join(parts[|parts| - 1..], '-')
  {
    var n := |parts|;
    SplitParts(arg, '-');
    SplitRejoins(arg, '-');
    assert parts == parts[..n - 1] + [parts[n - 1]];
    JoinSnoc(parts[..n - 1], parts[n - 1], '-');
    var left := Join(parts[..n - 1], '-');
    assert arg == left + "-" + parts[n - 1];
    assert arg[|left| + 1..] == parts[n - 1];
    assert parts[n - 1..] == [parts[n - 1]];
  }

  /** SpecOf in terms of the pieces of `split('-')`: only the split before the last piece counts. */
  lemma SpecOfPieces(arg: string, parts: seq<string>)
    requires '-' in arg && parts == Split(arg, '-')
    ensures |parts| >= 2
    ensures SpecOf(arg) ==
      if LooksLikeCell(Join(parts[..|parts| - 1], '-')) then Spec(Join(parts[..|parts| - 1], '-'), parts[|parts| - 1])
      else Spec(arg, arg)
  {
    SplitFirst(arg, '-');
    LastPiece(arg, parts);
    SpecOfAt(arg, |Join(parts[..|parts| - 1], '-')|);
    assert Join(parts[|parts| - 1..], '-') == parts[|parts| - 1] by {
      assert parts[|parts| - 1..] == [parts[|parts| - 1]];
    }
  }

  /** The split is made at the last dash, and only there. */
  lemma SpecOfAt(arg: string, k: int)
    requires LastDashAt(arg, k)
    ensures SpecOf(arg) == if LooksLikeCell(arg[..k]) then Spec(arg[..k], arg[k + 1..]) else Spec(arg, arg)
  {
    LastIndexOfAt(arg, '-', k);
  }

  /** The loop of `parse_position_args` over one argument. */
  method ParseSpec(arg: string) returns (r: Spec)
    ensures r == SpecOf(arg)
  {
    if '-' !in arg {
      return Spec(arg, arg);
    }
    var parts := Split(arg, '-');
    SpecOfPieces(arg, parts);
    var n := |parts|;
    var last := Join(parts[..n - 1], '-');
    var i := n - 1;
    while i > 0
      invariant 0 <= i <= n - 1
      invariant i < n - 1 ==> !LooksLikeCell(last)
    {
      var left := Join(parts[..i], '-');
      var right := Join(parts[i..], '-');
      JoinPrefix(parts, i, n - 1, '-');
      PrefixClasses(last, |left|);
      if HasDigit(left) && HasAlpha(left) {
        assert i == n - 1;
        assert parts[i..] == [parts[n - 1]];
        return Spec(left, right);
      }
      i := i - 1;
    }
    return Spec(arg, arg);
  }

  /** The parsed form of a list of position arguments. */
  function PositionSpecs(args: seq<string>): seq<Spec> {
    seq(|args|, k requires 0 <= k < |args| => SpecOf(args[k]))
  }

  /** `parse_position_args`: every argument parsed, in order. */
  method ParsePositionArgs(args: seq<string>) returns (parsed: seq<Spec>)
    ensures |parsed| == |args|
    ensures forall k :: 0 <= k < |args| ==> parsed[k] == SpecOf(args[k])
    ensures parsed == PositionSpecs(args)
  {
    parsed := [];
    for k := 0 to |args|
      invariant |parsed| == k
      invariant forall j :: 0 <= j < k ==> parsed[j] == SpecOf(args[j])
    {
      var spec := ParseSpec(args[k]);
      parsed := parsed + [spec];
    }
  }
}
