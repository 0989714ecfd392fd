/** `long_to_wide` (main.py lines 65-91) without its file input and output: the long table of
    calls is cleaned, restricted to mapped samples, keyed, pivoted to one column per sample
    header in the headers table's row order, summarised by `MAX_AF` / `COUNT_AF`, and
    outer-joined with the per-variant metadata. */
module Wide {
  import opened Wrappers
  import opened Seqs
  import opened Text
  import opened Joins
  import opened Variants
  import opened Peptides
  import opened Metadata

  // ---------------------------------------------------------------------------
  // Preparing the long table
  // ---------------------------------------------------------------------------

  const SampleSuffix := ".fastq.gz"
  const SynSuffix := " SNV"

  /** A sample id that ends in one `.fastq.gz` loses exactly that suffix. */
  lemma SampleSuffixStripped(id: string)
    requires !Contains(id, SampleSuffix)
    ensures RemoveAll(id + SampleSuffix, SampleSuffix) == id
  {
    var pat := SampleSuffix;
    forall k | 0 < k < |pat| ensures pat[k..] != pat[..|pat| - k] {
      if k == 6 {
        assert pat[k..][1] != pat[..|pat| - k][1];
      } else {
        assert pat[k..][0] != pat[..|pat| - k][0];
      }
    }
    RemoveAllSuffix(id, SampleSuffix);
  }

  /** A mutation type that ends in one ` SNV` loses exactly that suffix. */
  lemma SynSuffixStripped(syn: string)
    requires !Contains(syn, SynSuffix)
    ensures RemoveAll(syn + SynSuffix, SynSuffix) == syn
  {
    var pat := SynSuffix;
    forall k | 0 < k < |pat| ensures pat[k..] != pat[..|pat| - k] {
      assert pat[k..][0] != pat[..|pat| - k][0];
    }
    RemoveAllSuffix(syn, SynSuffix);
  }

  /** `df['Sample'].str.replace('.fastq.gz', '')` on one record. */
  function CleanSample(rec: Record): Record {
    rec.(sample := RemoveAll(rec.sample, SampleSuffix))
  }

  function CleanSamples(input: seq<Record>): (out: seq<Record>)
    ensures |out| == |input|
    ensures forall i :: 0 <= i < |input| ==> out[i] == CleanSample(input[i])
  {
    seq(|input|, i requires 0 <= i < |input| => CleanSample(input[i]))
  }

  function SampleIds(headers: seq<Header>): set<string> {
    set h | h in headers :: h.sampleId
  }

  /** `headers_df['NEW_HEADER'].tolist()`. */
  function HeaderNames(headers: seq<Header>): (names: seq<string>)
    ensures |names| == |headers|
    ensures forall i :: 0 <= i < |headers| ==> names[i] == headers[i].newHeader
  {
    seq(|headers|, i requires 0 <= i < |headers| => headers[i].newHeader)
  }

  function SampleIdOf(h: Header): string { h.sampleId }

  /** A record merged with a header row of its sample: the header's column name, the ` SNV`
      suffix removed from the mutation type, and the `POSITION:NT_CHANGE` key added. */
  function MakeRow(rec: Record, h: Header): Row {
    Row(Key(rec.position, rec.nucCorrect), h.newHeader, rec.(syn := RemoveAll(rec.syn, SynSuffix)))
  }

  function HeaderRows(rec: Record, hs: seq<Header>): (rows: seq<Row>)
    ensures |rows| == |hs|
    ensures forall i :: 0 <= i < |hs| ==> rows[i] == MakeRow(rec, hs[i])
  {
    seq(|hs|, i requires 0 <= i < |hs| => MakeRow(rec, hs[i]))
  }

  /** `pd.merge(df, headers_df, left_on='Sample', right_on='SAMPLE_ID', how='left')` on records
      that all have a header row: each record, in order, once per header row of its sample. */
  function MergeHeaders(recs: seq<Record>, headers: seq<Header>): seq<Row> {
    if |recs| == 0 then []
    else HeaderRows(recs[0], Matching(headers, SampleIdOf, recs[0].sample)) + MergeHeaders(recs[1..], headers)
  }

  /** A row merged from one record pairs it with a header row of its sample. */
  lemma HeaderRowsSound(rec: Record, headers: seq<Header>, row: Row)
    requires row in HeaderRows(rec, Matching(headers, SampleIdOf, rec.sample))
    ensures exists h :: h in headers && h.sampleId == rec.sample && row == MakeRow(rec, h)
  {
  }

  /** Every header row of a record's sample is merged with it. */
  lemma HeaderRowsComplete(rec: Record, headers: seq<Header>, h: Header)
    requires h in headers && h.sampleId == rec.sample
    ensures MakeRow(rec, h) in HeaderRows(rec, Matching(headers, SampleIdOf, rec.sample))
  {
  }

  /** Every merged row pairs a record with a header row of its sample. */
  lemma {:induction false} MergeHeadersSound(recs: seq<Record>, headers: seq<Header>)
    ensures forall row :: row in MergeHeaders(recs, headers) ==>
      exists rec, h :: rec in recs && h in headers && h.sampleId == rec.sample && row == MakeRow(rec, h)
  {
    if |recs| > 0 {
      var head := HeaderRows(recs[0], Matching(headers, SampleIdOf, recs[0].sample));
      var tail := MergeHeaders(recs[1..], headers);
      MergeHeadersSound(recs[1..], headers);
      forall row | row in head + tail
        ensures exists rec, h :: rec in recs && h in headers && h.sampleId == rec.sample && row == MakeRow(rec, h)
      {
        if row in head {
          HeaderRowsSound(recs[0], headers, row);
          var h :| h in headers && h.sampleId == recs[0].sample && row == MakeRow(recs[0], h);
          assert recs[0] in recs;
        } else {
          var rec, h :| rec in recs[1..] && h in headers && h.sampleId == rec.sample && row == MakeRow(rec, h);
          assert rec in recs;
        }
      }
    }
  }

  /** The merge pairs every record with every header row of its sample. */
  lemma {:induction false} MergeHeadersComplete(recs: seq<Record>, headers: seq<Header>)
    ensures forall rec, h :: rec in recs && h in headers && h.sampleId == rec.sample ==>
      MakeRow(rec, h) in MergeHeaders(recs, headers)
  {
    if |recs| > 0 {
      var head := HeaderRows(recs[0], Matching(headers, SampleIdOf, recs[0].sample));
      var tail := MergeHeaders(recs[1..], headers);
      MergeHeadersComplete(recs[1..], headers);
      forall rec, h | rec in recs && h in headers && h.sampleId == rec.sample
        ensures MakeRow(rec, h) in head + tail
      {
        if rec == recs[0] {
          HeaderRowsComplete(rec, headers, h);
        } else {
          var i :| 0 <= i < |recs| && recs[i] == rec;
          assert recs[1..][i - 1] == rec;
        }
      }
    }
  }

  /** Lines 70-75: sample ids cleaned, records of unmapped samples dropped, the header merged in,
      the mutation type cleaned and the key added. */
  function Prepare(input: seq<Record>, headers: seq<Header>): seq<Row> {
    var mapped := Filter(CleanSamples(input), (rec: Record) => rec.sample in SampleIds(headers));
    MergeHeaders(mapped, headers)
  }

  /** A prepared row is a record of a mapped sample, merged with a header row of that sample;
      and every such pair is there. */
  lemma PrepareRows(input: seq<Record>, headers: seq<Header>)
    ensures forall row :: row in Prepare(input, headers) ==>
      exists rec, h :: rec in input && h in headers && h.sampleId == CleanSample(rec).sample && row == MakeRow(CleanSample(rec), h)
    ensures forall rec, h :: rec in input && h in headers && h.sampleId == CleanSample(rec).sample ==>
      MakeRow(CleanSample(rec), h) in Prepare(input, headers)
  {
    var cleaned := CleanSamples(input);
    var mapped := Filter(cleaned, (rec: Record) => rec.sample in SampleIds(headers));
    MergeHeadersSound(mapped, headers);
    MergeHeadersComplete(mapped, headers);
    forall row | row in Prepare(input, headers)
      ensures exists rec, h :: rec in input && h in headers && h.sampleId == CleanSample(rec).sample && row == MakeRow(CleanSample(rec), h)
    {
      var c, h :| c in mapped && h in headers && h.sampleId == c.sample && row == MakeRow(c, h);
      var i :| 0 <= i < |cleaned| && cleaned[i] == c;
      assert input[i] in input;
    }
    forall rec, h | rec in input && h in headers && h.sampleId == CleanSample(rec).sample
      ensures MakeRow(CleanSample(rec), h) in Prepare(input, headers)
    {
      var i :| 0 <= i < |input| && input[i] == rec;
      assert cleaned[i] in cleaned;
    }
  }

  // ---------------------------------------------------------------------------
  // pivot and reindex
  // ---------------------------------------------------------------------------

  /** Two rows that `pivot` would put into the same (key, column) cell. */
  predicate SameCell(a: Row, b: Row) {
    a.key == b.key && a.newHeader == b.newHeader
  }

  predicate HasDuplicateCell(rows: seq<Row>) {
    exists i, j :: 0 <= i < j < |rows| && SameCell(rows[i], rows[j])
  }

  /** Two calls of the same variant in records of the same cleaned sample make the pivot fail. */
  lemma RepeatedCallFails(input: seq<Record>, headers: seq<Header>, a: Record, b: Record, h: Header)
    requires a in input && b in input && a != b && h in headers
    requires h.sampleId == CleanSample(a).sample && CleanSample(a).sample == CleanSample(b).sample
    requires a.position == b.position && a.nucCorrect == b.nucCorrect
    requires MakeRow(CleanSample(a), h) != MakeRow(CleanSample(b), h)
    ensures HasDuplicateCell(Prepare(input, headers))
  {
    var rows := Prepare(input, headers);
    PrepareRows(input, headers);
    var ra, rb := MakeRow(CleanSample(a), h), MakeRow(CleanSample(b), h);
    var i :| 0 <= i < |rows| && rows[i] == ra;
    var j :| 0 <= j < |rows| && rows[j] == rb;
    if i < j {
      assert SameCell(rows[i], rows[j]);
    } else {
      assert SameCell(rows[j], rows[i]);
    }
  }

  /** The `AF` of the row in cell (`key`, `col`), missing when there is none. */
  function Lookup(rows: seq<Row>, key: string, col: string): (af: Option<real>)
    ensures (forall row :: row in rows ==> row.key != key || row.newHeader != col) ==> af.None?
  {
    if |rows| == 0 then None
    else if rows[0].key == key && rows[0].newHeader == col then rows[0].rec.af
    else
      assert rows == [rows[0]] + rows[1..];
      Lookup(rows[1..], key, col)
  }

  /** Without repeated cells, every row's `AF` is found in its own cell. */
  lemma {:induction false} LookupUnique(rows: seq<Row>, row: Row)
    requires !HasDuplicateCell(rows) && row in rows
    ensures Lookup(rows, row.key, row.newHeader) == row.rec.af
  {
    if rows[0] != row {
      assert !HasDuplicateCell(rows[1..]) by {
        forall i, j | 0 <= i < j < |rows[1..]| ensures !SameCell(rows[1..][i], rows[1..][j]) {
          assert !SameCell(rows[i + 1], rows[j + 1]);
        }
      }
      var k :| 0 < k < |rows| && rows[k] == row;
      assert !SameCell(rows[0], rows[k]);
      assert rows[1..][k - 1] == row;
      LookupUnique(rows[1..], row);
    }
  }

  /** One row's cells under the columns `cols`. */
  function LookupAll(rows: seq<Row>, key: string, cols: seq<string>): (cells: seq<Option<real>>)
    ensures |cells| == |cols|
    ensures forall j :: 0 <= j < |cols| ==> cells[j] == Lookup(rows, key, cols[j])
  {
    seq(|cols|, j requires 0 <= j < |cols| => Lookup(rows, key, cols[j]))
  }

  /** A row of a pivoted table: a key and one optional `AF` per column. */
  datatype PivotRow = PivotRow(key: string, cells: seq<Option<real>>)

  datatype Pivoted = Pivoted(columns: seq<string>, rows: seq<PivotRow>)

  function RowKeys(rows: seq<Row>): (keys: seq<string>)
    ensures |keys| == |rows|
    ensures forall i :: 0 <= i < |rows| ==> keys[i] == rows[i].key
  {
    seq(|rows|, i requires 0 <= i < |rows| => rows[i].key)
  }

  function RowHeaders(rows: seq<Row>): (names: seq<string>)
    ensures |names| == |rows|
    ensures forall i :: 0 <= i < |rows| ==> names[i] == rows[i].newHeader
  {
    seq(|rows|, i requires 0 <= i < |rows| => rows[i].newHeader)
  }

  /** The pivot's index: the distinct keys, sorted. */
  function PivotKeys(rows: seq<Row>): seq<string> {
    Sort(Distinct(RowKeys(rows)))
  }

  function PivotRows(rows: seq<Row>, keys: seq<string>, cols: seq<string>): (out: seq<PivotRow>)
    ensures |out| == |keys|
    ensures forall i :: 0 <= i < |keys| ==> out[i] == PivotRow(keys[i], LookupAll(rows, keys[i], cols))
  {
    seq(|keys|, i requires 0 <= i < |keys| => PivotRow(keys[i], LookupAll(rows, keys[i], cols)))
  }

  /** `pivot(index='POSITION:NT_CHANGE', columns='NEW_HEADER', values='AF')`: fails on a
      repeated cell; otherwise one row per distinct key and one column per distinct header,
      both sorted. */
  function Pivot(rows: seq<Row>): Result<Pivoted, Error> {
    if HasDuplicateCell(rows) then Failure(DuplicatePivotEntries)
    else
      var cols := Sort(Distinct(RowHeaders(rows)));
      Success(Pivoted(cols, PivotRows(rows, PivotKeys(rows), cols)))
  }

  /** The position of `x` in `s`, if any. */
  function IndexOf(s: seq<string>, x: string): (i: Option<nat>)
    ensures i.Some? ==> i.value < |s| && s[i.value] == x
    ensures i.None? ==> x !in s
  {
    if |s| == 0 then None
    else if s[0] == x then Some(0)
    else
      assert s == [s[0]] + s[1..];
      match IndexOf(s[1..], x)
      case Some(t) => Some(t + 1)
      case None => None
  }

  /** Column `c` of row `r`: its cell, or missing when `p` has no such column. */
  function Column(p: Pivoted, r: PivotRow, c: string): Option<real> {
    match IndexOf(p.columns, c)
    case Some(t) => if t < |r.cells| then r.cells[t] else None
    case None => None
  }

  /** `reindex(columns=cols)`: exactly the columns `cols`, in that order; a column the table
      lacks is all missing. */
  function Reindex(p: Pivoted, cols: seq<string>): Pivoted {
    Pivoted(cols, seq(|p.rows|, i requires 0 <= i < |p.rows| =>
      PivotRow(p.rows[i].key, seq(|cols|, j requires 0 <= j < |cols| => Column(p, p.rows[i], cols[j])))))
  }

  /** A cell of the reindexed pivot is the lookup of its key and column. */
  lemma ColumnLookup(rows: seq<Row>, key: string, cols: seq<string>, c: string)
    requires !HasDuplicateCell(rows)
    ensures Column(Pivot(rows).value, PivotRow(key, LookupAll(rows, key, Pivot(rows).value.columns)), c) == Lookup(rows, key, c)
  {
    var p := Pivot(rows).value;
    match IndexOf(p.columns, c)
    case Some(t) =>
    case None =>
      assert c !in Elems(RowHeaders(rows));
      forall row | row in rows ensures row.newHeader != c {
        var i :| 0 <= i < |rows| && rows[i] == row;
        assert RowHeaders(rows)[i] in RowHeaders(rows);
      }
  }

  /** Pivoting and then reindexing onto `cols` puts, for every key, the `AF` of cell (key, c)
      under each column `c` of `cols`, in the order of `cols`; a header without data is an
      all-missing column. */
  lemma ReindexPivot(rows: seq<Row>, cols: seq<string>)
    requires !HasDuplicateCell(rows)
    ensures Reindex(Pivot(rows).value, cols) == Pivoted(cols, PivotRows(rows, PivotKeys(rows), cols))
  {
    var p := Pivot(rows).value;
    var q := Reindex(p, cols);
    var keys := PivotKeys(rows);
    var want := PivotRows(rows, keys, cols);
    forall i | 0 <= i < |q.rows| ensures q.rows[i] == want[i] {
      forall j | 0 <= j < |cols| ensures q.rows[i].cells[j] == want[i].cells[j] {
        ColumnLookup(rows, keys[i], cols, cols[j]);
      }
    }
  }

  // ---------------------------------------------------------------------------
  // MAX_AF and COUNT_AF
  // ---------------------------------------------------------------------------

  /** `max(axis=1, skipna=True)`: the largest present value of the row, missing when none is. */
  function MaxAf(cells: seq<Option<real>>): (m: Option<real>)
    ensures m.None? <==> forall c :: c in cells ==> c.None?
    ensures m.Some? ==> m in cells && forall c :: c in cells && c.Some? ==> c.value <= m.value
  {
    if |cells| == 0 then None
    else
      assert cells == [cells[0]] + cells[1..];
      var rest := MaxAf(cells[1..]);
      match cells[0]
      case None => rest
      case Some(v) =>
        if rest.Some? && v < rest.value then rest else Some(v)
  }

  /** `count(axis=1)`: the number of present values of the row. */
  function CountAf(cells: seq<Option<real>>): (n: nat)
    ensures n <= |cells|
    ensures n == 0 <==> forall c :: c in cells ==> c.None?
    ensures n == |cells| <==> forall c :: c in cells ==> c.Some?
  {
    if |cells| == 0 then 0
    else
      assert cells == [cells[0]] + cells[1..];
      var rest := CountAf(cells[1..]);
      assert (forall c :: c in cells ==> c.None?) <==> cells[0].None? && forall c :: c in cells[1..] ==> c.None?;
      (if cells[0].Some? then 1 else 0) + rest
  }

  /** The present and the missing values of a row add up to its number of columns. */
  lemma {:induction false} CountAfMissing(cells: seq<Option<real>>)
    ensures CountAf(cells) + multiset(cells)[None] == |cells|
  {
    if |cells| > 0 {
      assert cells == [cells[0]] + cells[1..];
      CountAfMissing(cells[1..]);
    }
  }

  /** A row with values 0.1, missing and 0.5 has `MAX_AF` 0.5 and `COUNT_AF` 2; an all-missing
      row has a missing `MAX_AF` and `COUNT_AF` 0. */
  lemma AfSummaryExample(a: real, b: real)
    requires a == 0.1 && b == 0.5
    ensures MaxAf([Some(a), None, Some(b)]) == Some(b)
    ensures CountAf([Some(a), None, Some(b)]) == 2
    ensures MaxAf([None, None]) == None && CountAf([None, None]) == 0
  {
  }

  /** A row of the wide table: the key, one optional `AF` per sample column, `MAX_AF` and
      `COUNT_AF`. */
  datatype WideRow = WideRow(key: string, cells: seq<Option<real>>, maxAf: Option<real>, countAf: nat)

  function WithStats(r: PivotRow): WideRow {
    WideRow(r.key, r.cells, MaxAf(r.cells), CountAf(r.cells))
  }

  function WithStatsAll(rows: seq<PivotRow>): (out: seq<WideRow>)
    ensures |out| == |rows|
    ensures forall i :: 0 <= i < |rows| ==> out[i] == WithStats(rows[i])
  {
    seq(|rows|, i requires 0 <= i < |rows| => WithStats(rows[i]))
  }

  // ---------------------------------------------------------------------------
  // The output table
  // ---------------------------------------------------------------------------

  /** The wide table merged with the metadata: the sample columns, whether the peptide columns
      exist, and the rows of the outer join. */
  datatype OutputTable = OutputTable(columns: seq<string>, peptideColumns: bool, rows: seq<Joined<WideRow, MetaRow>>)

  function WideKey(w: WideRow): string { w.key }

  /** The metadata side of each output row. */
  function MetaOf(rows: seq<Joined<WideRow, MetaRow>>): (ms: seq<MetaRow>)
    ensures |ms| == |rows|
    ensures forall i :: 0 <= i < |rows| ==> rows[i].right.Some? ==> ms[i] == rows[i].right.value
  {
    seq(|rows|, i requires 0 <= i < |rows| =>
      match rows[i].right case Some(m) => m case None => MetaRow(rows[i].key, None, None, None))
  }

  /** A wide row for the prepared rows `df` under the columns `cols`. */
  ghost predicate IsWideRowFor(df: seq<Row>, cols: seq<string>, w: WideRow) {
    w.cells == LookupAll(df, w.key, cols) && w.maxAf == MaxAf(w.cells) && w.countAf == CountAf(w.cells)
  }

  /** What the output of `long_to_wide` is, given the outcome `pep` of the peptide step: the
      sample columns are the headers' names in their row order; the keys are those of the
      prepared rows; every row has both its wide row and a metadata row of its key; and the
      metadata side is the metadata of the prepared rows. */
  ghost predicate IsOutputFor(input: seq<Record>, headers: seq<Header>, pep: Option<seq<PepRow>>, out: OutputTable) {
    && out.columns == HeaderNames(headers)
    && IsOutputOf(Prepare(input, headers), pep, out)
  }

  /** The output over the prepared rows `df`, under the sample columns `out.columns`. */
  ghost predicate IsOutputOf(df: seq<Row>, pep: Option<seq<PepRow>>, out: OutputTable) {
    && (set o | o in out.rows :: o.key) == (set r | r in df :: r.key)
    && (forall o :: o in out.rows ==>
          o.left.Some? && o.right.Some? && o.left.value.key == o.key && o.right.value.key == o.key)
    && (forall o :: o in out.rows ==> IsWideRowFor(df, out.columns, o.left.value))
    && IsMetadataFor(df, pep, Metadata(MetaOf(out.rows), out.peptideColumns))
  }

  function WideKeys(wide: seq<WideRow>): set<string> {
    set w | w in wide :: WideKey(w)
  }

  function MetaKeys(metaRows: seq<MetaRow>): set<string> {
    set m | m in metaRows :: MetaKey(m)
  }

  function DfKeys(df: seq<Row>): set<string> {
    set r | r in df :: r.key
  }

  /** No two wide rows share a key. */
  predicate UniqueKeys(wide: seq<WideRow>) {
    forall i, j :: 0 <= i < j < |wide| ==> wide[i].key != wide[j].key
  }

  /** The wide rows: exactly one per distinct key of `df`, each the lookup of its cells. */
  lemma WideRowsFor(df: seq<Row>, cols: seq<string>)
    ensures var wide := WithStatsAll(PivotRows(df, PivotKeys(df), cols));
      && (forall w :: w in wide ==> IsWideRowFor(df, cols, w))
      && WideKeys(wide) == DfKeys(df)
      && UniqueKeys(wide)
  {
    var keys := PivotKeys(df);
    var wide := WithStatsAll(PivotRows(df, keys, cols));
    assert NoDups(keys);
    assert forall i :: 0 <= i < |wide| ==> wide[i].key == keys[i];
    assert Elems(keys) == Elems(RowKeys(df));
    forall k | k in DfKeys(df) ensures k in WideKeys(wide) {
      var r :| r in df && r.key == k;
      var i :| 0 <= i < |df| && df[i] == r;
      assert RowKeys(df)[i] in Elems(RowKeys(df));
      var t :| 0 <= t < |keys| && keys[t] == k;
      assert WideKey(wide[t]) == k;
    }
    forall k | k in WideKeys(wide) ensures k in DfKeys(df) {
      var w :| w in wide && WideKey(w) == k;
      var t :| 0 <= t < |wide| && wide[t] == w;
      assert keys[t] in Elems(RowKeys(df));
      var i :| 0 <= i < |df| && RowKeys(df)[i] == keys[t];
      assert df[i].key == k;
    }
  }

  /** The metadata has exactly the keys of `df`. */
  lemma MetadataRowKeys(df: seq<Row>, pep: Option<seq<PepRow>>, md: Metadata)
    requires IsMetadataFor(df, pep, md)
    ensures MetaKeys(md.rows) == DfKeys(df)
  {
    MetadataKeys(df, pep, md);
    assert MetaKeys(md.rows) == set m | m in md.rows :: m.key;
  }

  /** Every row of the final outer join holds a wide row and a metadata row of its key, when
      both sides have the same keys. */
  lemma FinalJoinRow(wide: seq<WideRow>, metaRows: seq<MetaRow>, o: Joined<WideRow, MetaRow>)
    requires WideKeys(wide) == MetaKeys(metaRows)
    requires o in OuterJoin(wide, metaRows, WideKey, MetaKey)
    ensures o.left.Some? && o.left.value in wide && o.left.value.key == o.key
    ensures o.right.Some? && o.right.value in metaRows && o.right.value.key == o.key
  {
    OuterJoinKeysSound(wide, metaRows, WideKey, MetaKey, o);
    assert o.key in WideKeys(wide);
    var w :| w in wide && WideKey(w) == o.key;
    var m :| m in metaRows && MetaKey(m) == o.key;
    assert OuterJoined(o, wide, metaRows, WideKey, MetaKey);
    OuterJoinRowKey(wide, metaRows, WideKey, MetaKey, o);
    assert o.left.Some?;
    assert o.right.Some?;
  }

  /** The metadata side of the rows one wide row `w` gets from the final join is the metadata
      rows of its key, when it has some. */
  lemma MetaOfJoinSplit(ws: seq<WideRow>, metaRows: seq<MetaRow>)
    requires |ws| > 0 && WideKey(ws[0]) in MetaKeys(metaRows)
    ensures MetaOf(LeftJoin(ws, metaRows, WideKey, MetaKey)) ==
      Matching(metaRows, MetaKey, WideKey(ws[0])) + MetaOf(LeftJoin(ws[1..], metaRows, WideKey, MetaKey))
  {
    var ms := Matching(metaRows, MetaKey, WideKey(ws[0]));
    var mk :| mk in metaRows && MetaKey(mk) == WideKey(ws[0]);
    assert mk in ms;
    var head := Pairings(WideKey(ws[0]), ws[0], ms);
    var tail := LeftJoin(ws[1..], metaRows, WideKey, MetaKey);
    assert LeftJoin(ws, metaRows, WideKey, MetaKey) == head + tail;
    MetaOfPairings(WideKey(ws[0]), ws[0], ms);
    MetaOfAppend(head, tail);
  }

  /** The metadata side of one wide row's pairings with metadata rows `ms` is `ms`. */
  lemma MetaOfPairings(k: string, w: WideRow, ms: seq<MetaRow>)
    requires |ms| > 0
    ensures MetaOf(Pairings(k, w, ms)) == ms
  {
  }

  /** The metadata side of two blocks of joined rows is the two blocks' metadata sides. */
  lemma MetaOfAppend(a: seq<Joined<WideRow, MetaRow>>, b: seq<Joined<WideRow, MetaRow>>)
    ensures MetaOf(a + b) == MetaOf(a) + MetaOf(b)
  {
  }

  /** The first of wide rows with distinct keys has a key none of the others has. */
  lemma UniqueKeysTail(ws: seq<WideRow>)
    requires UniqueKeys(ws) && |ws| > 0
    ensures UniqueKeys(ws[1..]) && WideKey(ws[0]) !in WideKeys(ws[1..])
    ensures WideKeys(ws) == {WideKey(ws[0])} + WideKeys(ws[1..])
  {
    forall i | 0 <= i < |ws[1..]| ensures ws[1..][i] == ws[i + 1] && ws[i + 1].key != ws[0].key {
    }
    assert ws == [ws[0]] + ws[1..];
  }

  /** Joining wide rows of distinct keys with metadata rows whose keys they cover puts each
      metadata row of their keys on the metadata side as often as the metadata has it. */
  lemma {:induction false} MetaOfJoinCount(ws: seq<WideRow>, metaRows: seq<MetaRow>, m: MetaRow)
    requires UniqueKeys(ws) && WideKeys(ws) <= MetaKeys(metaRows)
    ensures multiset(MetaOf(LeftJoin(ws, metaRows, WideKey, MetaKey)))[m] ==
      if m.key in WideKeys(ws) then multiset(metaRows)[m] else 0
  {
    if |ws| > 0 {
      var w := ws[0];
      assert w in ws;
      MetaOfJoinSplit(ws, metaRows);
      MatchingCount(metaRows, MetaKey, WideKey(w), m);
      UniqueKeysTail(ws);
      MetaOfJoinCount(ws[1..], metaRows, m);
    }
  }

  /** When both sides have the same keys and the wide rows have distinct keys, the metadata side
      of the final outer join is the metadata, row for row: each metadata row occurs there as
      often as in the metadata. */
  lemma FinalJoinMetaCount(wide: seq<WideRow>, metaRows: seq<MetaRow>)
    requires WideKeys(wide) == MetaKeys(metaRows) && UniqueKeys(wide)
    ensures multiset(MetaOf(OuterJoin(wide, metaRows, WideKey, MetaKey))) == multiset(metaRows)
  {
    forall r | r in metaRows ensures exists w :: w in wide && WideKey(w) == MetaKey(r) {
      assert MetaKey(r) in MetaKeys(metaRows);
    }
    RightOnlyEmpty(wide, metaRows, WideKey, MetaKey);
    var ms := MetaOf(OuterJoin(wide, metaRows, WideKey, MetaKey));
    assert ms == MetaOf(LeftJoin(wide, metaRows, WideKey, MetaKey));
    forall m ensures multiset(ms)[m] == multiset(metaRows)[m] {
      LeftJoinMetaCount(wide, metaRows, m);
    }
  }

  /** Each metadata row occurs on the metadata side of the left join as often as in the
      metadata, when both sides have the same keys. */
  lemma LeftJoinMetaCount(wide: seq<WideRow>, metaRows: seq<MetaRow>, m: MetaRow)
    requires WideKeys(wide) == MetaKeys(metaRows) && UniqueKeys(wide)
    ensures multiset(MetaOf(LeftJoin(wide, metaRows, WideKey, MetaKey)))[m] == multiset(metaRows)[m]
  {
    MetaOfJoinCount(wide, metaRows, m);
    if m.key !in WideKeys(wide) {
      assert m !in metaRows;
    }
  }

  /** A table holding the metadata's rows, each as often, is the metadata too. */
  lemma MetadataSameRows(df: seq<Row>, pep: Option<seq<PepRow>>, md: Metadata, rows: seq<MetaRow>)
    requires IsMetadataFor(df, pep, md)
    requires multiset(rows) == multiset(md.rows)
    ensures IsMetadataFor(df, pep, Metadata(rows, md.peptideColumns))
  {
    forall m ensures m in rows <==> m in md.rows {
      assert m in rows <==> m in multiset(rows);
      assert m in md.rows <==> m in multiset(md.rows);
    }
  }

  /** The keys of the final outer join are the keys of both sides. */
  lemma FinalJoinKeys(wide: seq<WideRow>, metaRows: seq<MetaRow>)
    requires WideKeys(wide) == MetaKeys(metaRows)
    ensures (set o | o in OuterJoin(wide, metaRows, WideKey, MetaKey) :: o.key) == WideKeys(wide)
  {
    OuterJoinKeys(wide, metaRows, WideKey, MetaKey);
  }

  /** A header with no prepared row is an all-missing column of the output. */
  lemma EmptyHeaderColumn(input: seq<Record>, headers: seq<Header>, pep: Option<seq<PepRow>>, out: OutputTable, j: nat)
    requires IsOutputFor(input, headers, pep, out)
    requires j < |headers|
    requires forall row :: row in Prepare(input, headers) ==> row.newHeader != headers[j].newHeader
    ensures out.columns[j] == headers[j].newHeader
    ensures forall o :: o in out.rows ==> o.left.Some? && o.left.value.cells[j].None?
  {
  }

  /** The final outer join of wide rows for `df` with the metadata of `df` is the output of `df`. */
  lemma JoinedOutput(df: seq<Row>, cols: seq<string>, pep: Option<seq<PepRow>>, md: Metadata, wide: seq<WideRow>)
    requires forall w :: w in wide ==> IsWideRowFor(df, cols, w)
    requires WideKeys(wide) == DfKeys(df) && UniqueKeys(wide)
    requires IsMetadataFor(df, pep, md)
    ensures IsOutputOf(df, pep, OutputTable(cols, md.peptideColumns, OuterJoin(wide, md.rows, WideKey, MetaKey)))
  {
    var out := OuterJoin(wide, md.rows, WideKey, MetaKey);
    MetadataRowKeys(df, pep, md);
    forall o | o in out
      ensures o.left.Some? && o.right.Some? && o.left.value.key == o.key && o.right.value.key == o.key
      ensures IsWideRowFor(df, cols, o.left.value)
    {
      FinalJoinRow(wide, md.rows, o);
    }
    FinalJoinKeys(wide, md.rows);
    assert DfKeys(df) == set r | r in df :: r.key;
    FinalJoinMetaCount(wide, md.rows);
    MetadataSameRows(df, pep, md, MetaOf(out));
  }

  /** The assembled table is the output for the input. */
  lemma OutputAssembled(input: seq<Record>, headers: seq<Header>, pep: Option<seq<PepRow>>, md: Metadata)
    requires !HasDuplicateCell(Prepare(input, headers))
    requires IsMetadataFor(Prepare(input, headers), pep, md)
    ensures var df := Prepare(input, headers);
      var cols := HeaderNames(headers);
      var wide := WithStatsAll(Reindex(Pivot(df).value, cols).rows);
      IsOutputFor(input, headers, pep, OutputTable(cols, md.peptideColumns, OuterJoin(wide, md.rows, WideKey, MetaKey)))
  {
    var df := Prepare(input, headers);
    var cols := HeaderNames(headers);
    ReindexPivot(df, cols);
    WideRowsFor(df, cols);
    JoinedOutput(df, cols, pep, md, WithStatsAll(PivotRows(df, PivotKeys(df), cols)));
  }

  /** `long_to_wide` in main.py without the file input and output: the long table is prepared
      step by step, pivoted (which fails on a repeated cell, before anything else is
      computed), reindexed onto the headers' names, given `MAX_AF` and `COUNT_AF`, and
      outer-joined with the metadata of the prepared rows (whose peptide step may fail). */
  method LongToWide(input: seq<Record>, headers: seq<Header>) returns (r: Result<OutputTable, Error>)
    ensures r.Failure? <==>
      HasDuplicateCell(Prepare(input, headers)) || ExtractMatPeptide(PepObsOf(Prepare(input, headers))).Failure?
    ensures HasDuplicateCell(Prepare(input, headers)) ==> r == Failure(DuplicatePivotEntries)
    ensures !HasDuplicateCell(Prepare(input, headers)) && r.Failure? ==>
      r.error == ExtractMatPeptide(PepObsOf(Prepare(input, headers))).error
    ensures r.Success? ==> IsOutputFor(input, headers, ExtractMatPeptide(PepObsOf(Prepare(input, headers))).value, r.value)
  {
    var recs := CleanSamples(input);
    recs := Filter(recs, (rec: Record) => rec.sample in SampleIds(headers));
    var df := MergeHeaders(recs, headers);
    assert df == Prepare(input, headers);
    var pivot := Pivot(df);
    if pivot.Failure? {
      return Failure(DuplicatePivotEntries);
    }
    var cols := HeaderNames(headers);
    var wide := Reindex(pivot.value, cols);
    var rows := WithStatsAll(wide.rows);
    var md := ExtractSnvMetadata(df);
    if md.Failure? {
      return Failure(md.error);
    }
    OutputAssembled(input, headers, ExtractMatPeptide(PepObsOf(df)).value, md.value);
    r := Success(OutputTable(cols, md.value.peptideColumns, OuterJoin(rows, md.value.rows, WideKey, MetaKey)));
  }
}
