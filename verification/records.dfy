/**
 * The per-sheet record of an extraction: a dict seeded with `sheet` and `source_file`
 * into which every parsed position argument writes its extracted value, and the output
 * column order built from those records.
 */
module Records {
  import opened Wrappers
  import opened Cells
  import opened Specs

  /** A record value: a sheet or file name, or what an extraction gave. */
  datatype Field<V> = Text(text: string) | Extracted(value: Value<V>)

  /** A Python dict in insertion order: (key, value) pairs. */
  type Record<V> = seq<(string, Field<V>)>

  function Keys<V>(rec: Record<V>): (ks: seq<string>)
    ensures |ks| == |rec| && forall i :: 0 <= i < |rec| ==> ks[i] == rec[i].0
  {
    seq(|rec|, i requires 0 <= i < |rec| => rec[i].0)
  }

  /** The position of key in rec, None when it is not there. */
  function IndexOfKey<V>(rec: Record<V>, key: string): (r: Option<nat>)
    ensures r.None? <==> key !in Keys(rec)
    ensures r.Some? ==> r.value < |rec| && rec[r.value].0 == key && key !in Keys(rec[..r.value])
  {
    if rec == [] then None
    else if rec[0].0 == key then Some(0)
    else
      match IndexOfKey(rec[1..], key)
      case None => None
      case Some(i) =>
        assert Keys(rec[..i + 1]) == [rec[0].0] + Keys(rec[1..][..i]);
        Some(i + 1)
  }

  /** `rec[key]`, None where it raises KeyError. */
  function Get<V>(rec: Record<V>, key: string): Option<Field<V>> {
    match IndexOfKey(rec, key)
    case None => None
    case Some(i) => Some(rec[i].1)
  }

  /** The first occurrence of key is at j. */
  lemma {:induction false} IndexOfKeyAt<V>(rec: Record<V>, key: string, j: nat)
    requires j < |rec| && rec[j].0 == key && key !in Keys(rec[..j])
    ensures IndexOfKey(rec, key) == Some(j)
    decreases |rec|
  {
    if j > 0 {
      assert rec[0].0 in Keys(rec[..j]);
      assert Keys(rec[1..][..j - 1]) == Keys(rec[..j])[1..];
      IndexOfKeyAt(rec[1..], key, j - 1);
    }
  }

  /** Looking up a key depends on the keys alone. */
  lemma SameKeysSameIndex<V>(a: Record<V>, b: Record<V>, key: string)
    requires Keys(a) == Keys(b)
    ensures IndexOfKey(a, key) == IndexOfKey(b, key)
  {
    if IndexOfKey(a, key).Some? {
      var j := IndexOfKey(a, key).value;
      assert Keys(a[..j]) == Keys(a)[..j] == Keys(b)[..j] == Keys(b[..j]);
      IndexOfKeyAt(b, key, j);
    }
  }

  /** Appending a new key leaves the positions of the existing ones. */
  lemma AppendKeepsIndex<V>(rec: Record<V>, key: string, value: Field<V>, k: string)
    requires key !in Keys(rec)
    ensures IndexOfKey(rec + [(key, value)], k) == if k == key then Some(|rec|) else IndexOfKey(rec, k)
  {
    var r := rec + [(key, value)];
    assert Keys(r) == Keys(rec) + [key];
    assert r[..|rec|] == rec;
    if k == key {
      IndexOfKeyAt(r, key, |rec|);
    } else if IndexOfKey(rec, k).Some? {
      var j := IndexOfKey(rec, k).value;
      assert r[..j] == rec[..j];
      IndexOfKeyAt(r, k, j);
    }
  }

  /**
   * `rec[key] = value`: an existing key keeps its position and takes the new value; a new
   * key is added at the end. Every other key keeps its value.
   */
  function Put<V>(rec: Record<V>, key: string, value: Field<V>): (r: Record<V>)
    ensures Keys(r) == if key in Keys(rec) then Keys(rec) else Keys(rec) + [key]
    ensures Get(r, key) == Some(value)
    ensures forall k :: k != key ==> Get(r, k) == Get(rec, k)
  {
    match IndexOfKey(rec, key)
    case Some(i) =>
      var r := rec[i := (key, value)];
      assert Keys(r) == Keys(rec);
      assert forall k :: IndexOfKey(r, k) == IndexOfKey(rec, k) by {
        forall k {
          SameKeysSameIndex(r, rec, k);
        }
      }
      r
    case None =>
      var r := rec + [(key, value)];
      assert Keys(r) == Keys(rec) + [key];
      assert forall k :: IndexOfKey(r, k) == if k == key then Some(|rec|) else IndexOfKey(rec, k) by {
        forall k {
          AppendKeepsIndex(rec, key, value, k);
        }
      }
      r
  }

  /** The dict every sheet starts from. */
  function Seed<V>(sheet: string, source: string): (r: Record<V>)
    ensures Keys(r) == ["sheet", "source_file"]
  {
    [("sheet", Text(sheet)), ("source_file", Text(source))]
  }

  /** What one position argument stores: the extracted value, or None when the extraction raised. */
  function Outcome<V>(g: Grid<V>, token: string): Value<V>
    requires g.Valid()
  {
    match RangeData(g, token)
    case Ok(v) => v
    case Err(_) => Null
  }

  /** Reference definition of a sheet's record: the seed, then one write per argument in order. */
  function SheetRecord<V>(sheet: string, source: string, g: Grid<V>, specs: seq<Spec>): Record<V>
    requires g.Valid()
  {
    if specs == [] then Seed(sheet, source)
    else
      var last := specs[|specs| - 1];
      Put(SheetRecord(sheet, source, g, specs[..|specs| - 1]), last.header, Extracted(Outcome(g, last.range)))
  }

  /** The inner loop over the parsed arguments, each extraction guarded by `try`/`except`. */
  method ExtractSheet<V>(sheet: string, source: string, g: Grid<V>, specs: seq<Spec>) returns (rec: Record<V>)
    requires g.Valid()
    ensures rec == SheetRecord(sheet, source, g, specs)
  {
    rec := Seed(sheet, source);
    for k := 0 to |specs|
      invariant rec == SheetRecord(sheet, source, g, specs[..k])
    {
      var val := GetRangeData(g, specs[k].range);
      var field := if val.Ok? then Extracted(val.value) else Extracted(Null);
      assert specs[..k + 1][..k] == specs[..k];
      rec := Put(rec, specs[k].header, field);
    }
    assert specs[..|specs|] == specs;
  }

  function Headers(specs: seq<Spec>): (hs: seq<string>)
    ensures |hs| == |specs| && forall i :: 0 <= i < |specs| ==> hs[i] == specs[i].header
  {
    seq(|specs|, i requires 0 <= i < |specs| => specs[i].header)
  }

  /** The requested output columns: `sheet`, `source_file`, then every header in argument order. */
  function BaseColumns(specs: seq<Spec>): seq<string> {
    ["sheet", "source_file"] + Headers(specs)
  }

  /** The distinct entries of xs, each at its first occurrence. */
  function Dedup(xs: seq<string>): (d: seq<string>)
    ensures forall x :: x in d <==> x in xs
    ensures forall i, j :: 0 <= i < j < |d| ==> d[i] != d[j]
  {
    if xs == [] then []
    else
      var d := Dedup(xs[..|xs| - 1]);
      assert xs == xs[..|xs| - 1] + [xs[|xs| - 1]];
      if xs[|xs| - 1] in d then d else d + [xs[|xs| - 1]]
  }

  /**
   * A sheet's keys are `sheet`, `source_file`, then each header at its first occurrence:
   * a repeated header, or a header named like a seed key, keeps its first position.
   */
  lemma {:induction false} RecordKeys<V>(sheet: string, source: string, g: Grid<V>, specs: seq<Spec>)
    requires g.Valid()
    ensures Keys(SheetRecord(sheet, source, g, specs)) == Dedup(BaseColumns(specs))
    decreases |specs|
  {
    if specs == [] {
      assert Dedup(["sheet", "source_file"]) == ["sheet", "source_file"] by {
        assert ["sheet", "source_file"][..1] == ["sheet"];
        assert ["sheet"][..0] == [];
      }
    } else {
      var init := specs[..|specs| - 1];
      RecordKeys(sheet, source, g, init);
      assert BaseColumns(specs)[..|BaseColumns(specs)| - 1] == BaseColumns(init);
    }
  }

  /** The last argument writing to `header`, None when none does. */
  function LastSpecFor(specs: seq<Spec>, header: string): (r: Option<nat>)
    ensures r.Some? ==> r.value < |specs| && specs[r.value].header == header
    ensures r.Some? ==> forall j :: r.value < j < |specs| ==> specs[j].header != header
    ensures r.None? ==> forall j :: 0 <= j < |specs| ==> specs[j].header != header
  {
    if specs == [] then None
    else if specs[|specs| - 1].header == header then Some(|specs| - 1)
    else LastSpecFor(specs[..|specs| - 1], header)
  }

  /**
   * Reading a key of a sheet's record: the value of the last argument with that header
   * (the extraction result, or None when it raised); keys no argument writes keep the seed.
   */
  lemma {:induction false} RecordLookup<V>(sheet: string, source: string, g: Grid<V>, specs: seq<Spec>, key: string)
    requires g.Valid()
    ensures Get(SheetRecord(sheet, source, g, specs), key) ==
      match LastSpecFor(specs, key)
      case Some(j) => Some(Extracted(Outcome(g, specs[j].range)))
      case None => Get(Seed<V>(sheet, source), key)
    decreases |specs|
  {
    if specs != [] {
      RecordLookup(sheet, source, g, specs[..|specs| - 1], key);
    }
  }

  /** Every record holds `sheet`, `source_file` and every header. */
  lemma RecordHasAllColumns<V>(sheet: string, source: string, g: Grid<V>, specs: seq<Spec>)
    requires g.Valid()
    ensures forall c :: c in BaseColumns(specs) ==> c in Keys(SheetRecord(sheet, source, g, specs))
  {
    RecordKeys(sheet, source, g, specs);
  }

  /** c is a column of the DataFrame built from records: some record has that key. */
  predicate InFrame<V>(records: seq<Record<V>>, c: string) {
    exists i :: 0 <= i < |records| && c in Keys(records[i])
  }

  /** The requested columns, in their order, that some record holds as a key. */
  function FinalColumns<V>(records: seq<Record<V>>, cols: seq<string>): (r: seq<string>)
    ensures forall c :: c in r <==> c in cols && InFrame(records, c)
    ensures |r| <= |cols|
  {
    if cols == [] then []
    else
      var rest := FinalColumns(records, cols[..|cols| - 1]);
      assert cols == cols[..|cols| - 1] + [cols[|cols| - 1]];
      if InFrame(records, cols[|cols| - 1]) then rest + [cols[|cols| - 1]] else rest
  }

  /** The filter keeps every column in order once some record has all of them. */
  lemma {:induction false} FinalColumnsKeepAll<V>(records: seq<Record<V>>, cols: seq<string>, i: nat)
    requires i < |records| && forall c :: c in cols ==> c in Keys(records[i])
    ensures FinalColumns(records, cols) == cols
    decreases |cols|
  {
    if cols != [] {
      FinalColumnsKeepAll(records, cols[..|cols| - 1], i);
      assert cols[|cols| - 1] in cols;
      assert cols == cols[..|cols| - 1] + [cols[|cols| - 1]];
    }
  }

  /** What is written: the chosen columns, and per record the value under each column. */
  datatype Table<V> = Table(columns: seq<string>, rows: seq<seq<Option<Field<V>>>>)

  /** The table built from the records, restricted to the kept columns in their order. */
  function Frame<V>(records: seq<Record<V>>, specs: seq<Spec>): (t: Table<V>)
    ensures |t.rows| == |records|
    ensures forall i :: 0 <= i < |records| ==> |t.rows[i]| == |t.columns|
  {
    var cols := FinalColumns(records, BaseColumns(specs));
    Table(cols, seq(|records|, i requires 0 <= i < |records| =>
      seq(|cols|, j requires 0 <= j < |cols| => Get(records[i], cols[j]))))
  }
}
