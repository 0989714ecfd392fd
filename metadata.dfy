/** Per-variant metadata (main.py lines 5-61): the loop version of the mutation-type table,
    the parse of the mature-peptide annotation and the consolidation of both with the base
    fields of every variant. */
module Metadata {
  import opened Wrappers
  import opened Seqs
  import opened Text
  import opened Joins
  import opened Variants
  import opened Peptides
  import Extractors

  // ---------------------------------------------------------------------------
  // extract_mut_type, loop version
  // ---------------------------------------------------------------------------

  /** `value_counts()` of the key column of `table`: the number of its rows with key `k`. */
  function Freq(table: seq<MutObs>, k: string): nat {
    if |table| == 0 then 0
    else (if table[0].key == k then 1 else 0) + Freq(table[1..], k)
  }

  /** A key is counted once per label row. */
  lemma {:induction false} FreqCountsLabels(table: seq<MutObs>, k: string)
    ensures Freq(table, k) == |LabelsFor(table, k)|
  {
    if |table| > 0 {
      FreqCountsLabels(table[1..], k);
    }
  }

  /** A (key, label) pair as a row of the output table. */
  function AsRow(o: MutObs): MutTypeRow {
    MutTypeRow(o.key, o.mutType)
  }

  function AsRows(obs: seq<MutObs>): (rows: seq<MutTypeRow>)
    ensures |rows| == |obs|
    ensures forall i :: 0 <= i < |obs| ==> rows[i] == AsRow(obs[i])
  {
    seq(|obs|, i requires 0 <= i < |obs| => AsRow(obs[i]))
  }

  /** Under an ambiguous key, the filtered pairs carry every label the key was seen with. */
  lemma AmbiguousLabels(obs: seq<MutObs>, table: seq<MutObs>, ambigAll: seq<MutObs>, k: string)
    requires Elems(table) == Elems(obs)
    requires forall o :: o in ambigAll ==> o in table && Freq(table, o.key) > 1
    requires forall o :: o in table && Freq(table, o.key) > 1 ==> o in ambigAll
    requires k in ObsKeys(ambigAll)
    ensures Elems(LabelsFor(ambigAll, k)) == Elems(LabelsFor(obs, k))
  {
    var o :| o in ambigAll && o.key == k;
    assert Freq(table, k) > 1;
    SameObsSameLabels(table, obs, k);
    forall l | l in Elems(LabelsFor(table, k)) ensures l in Elems(LabelsFor(ambigAll, k)) {
      assert MutObs(k, l) in ambigAll;
    }
  }

  /** `' or '.join(...sort_values().unique())` over the rows of `pairs` with key `k`. */
  function JoinedLabels(pairs: seq<MutObs>, k: string): string {
    Join(Distinct(Sort(LabelsFor(pairs, k))), Or)
  }

  /** The cell the loop fills for an ambiguous key is the collapse of all its labels. */
  lemma FilledLabel(obs: seq<MutObs>, table: seq<MutObs>, ambigAll: seq<MutObs>, k: string)
    requires Elems(table) == Elems(obs)
    requires forall o :: o in ambigAll ==> o in table && Freq(table, o.key) > 1
    requires forall o :: o in table && Freq(table, o.key) > 1 ==> o in ambigAll
    requires k in ObsKeys(ambigAll)
    ensures JoinedLabels(ambigAll, k) == Collapse(LabelsFor(obs, k))
  {
    AmbiguousLabels(obs, table, ambigAll, k);
    SortThenUniqueIsCanonical(LabelsFor(ambigAll, k), LabelsFor(obs, k));
  }

  /** The ambiguous keys are the keys seen with more than one label. */
  lemma AmbiguousKeys(table: seq<MutObs>, ambigAll: seq<MutObs>, ambigKeys: seq<string>)
    requires forall o :: o in ambigAll ==> o in table && Freq(table, o.key) > 1
    requires forall o :: o in table && Freq(table, o.key) > 1 ==> o in ambigAll
    requires Elems(ambigKeys) == ObsKeys(ambigAll)
    ensures forall k :: k in ambigKeys ==> k in ObsKeys(table) && Freq(table, k) > 1
    ensures forall k :: k in ObsKeys(table) && Freq(table, k) > 1 ==> k in ambigKeys
  {
    forall k | k in ambigKeys ensures k in ObsKeys(table) && Freq(table, k) > 1 {
      assert k in ObsKeys(ambigAll);
      var o :| o in ambigAll && o.key == k;
      assert o in table;
    }
    forall k | k in ObsKeys(table) && Freq(table, k) > 1 ensures k in ambigKeys {
      var o :| o in table && o.key == k;
      assert o in ambigAll;
      assert k in ObsKeys(ambigAll);
    }
  }

  /** A key counted once in the duplicate-free table has one label, so rows of distinct
      pairs with that count have distinct keys. */
  lemma UnambiguousKeysDistinct(table: seq<MutObs>, a: MutObs, b: MutObs)
    requires a in table && Freq(table, a.key) == 1
    requires b in table && Freq(table, b.key) == 1
    ensures a.key == b.key ==> a == b
    ensures LabelsFor(table, a.key) == [a.mutType]
  {
    FreqCountsLabels(table, a.key);
    FreqCountsLabels(table, b.key);
    assert a.mutType in LabelsFor(table, a.key);
    assert b.mutType in LabelsFor(table, b.key);
  }

  /** The unambiguous rows and the ambiguous keys never share a key, and neither repeats one. */
  lemma AssembledKeysDistinct(table: seq<MutObs>, unambig: seq<MutObs>, ambigKeys: seq<string>, ambigRows: seq<MutTypeRow>)
    requires NoDups(unambig)
    requires forall o :: o in unambig ==> o in table && Freq(table, o.key) == 1
    requires NoDups(ambigKeys)
    requires forall k :: k in ambigKeys ==> k in ObsKeys(table) && Freq(table, k) > 1
    requires |ambigRows| == |ambigKeys|
    requires forall j :: 0 <= j < |ambigRows| ==> ambigRows[j].key == ambigKeys[j]
    ensures var rows := AsRows(unambig) + ambigRows;
      forall i, j :: 0 <= i < j < |rows| ==> rows[i].key != rows[j].key
  {
    var u := AsRows(unambig);
    var rows := u + ambigRows;
    forall i, j | 0 <= i < j < |rows| ensures rows[i].key != rows[j].key {
      if j < |u| {
        assert unambig[i] in unambig && unambig[j] in unambig;
        UnambiguousKeysDistinct(table, unambig[i], unambig[j]);
      } else if i < |u| {
        assert unambig[i] in unambig;
        assert ambigKeys[j - |u|] in ambigKeys;
      } else {
        assert rows[i].key == ambigKeys[i - |u|] && rows[j].key == ambigKeys[j - |u|];
      }
    }
  }

  /** Every key of the input has a row, from one part or the other. */
  lemma AssembledKeysComplete(obs: seq<MutObs>, table: seq<MutObs>, unambig: seq<MutObs>, ambigKeys: seq<string>, ambigRows: seq<MutTypeRow>)
    requires Elems(table) == Elems(obs)
    requires forall o :: o in table && Freq(table, o.key) == 1 ==> o in unambig
    requires forall k :: k in ObsKeys(table) && Freq(table, k) > 1 ==> k in ambigKeys
    requires |ambigRows| == |ambigKeys|
    requires forall j :: 0 <= j < |ambigRows| ==> ambigRows[j].key == ambigKeys[j]
    ensures ObsKeys(obs) <= TableKeys(AsRows(unambig) + ambigRows)
  {
    var u := AsRows(unambig);
    var rows := u + ambigRows;
    SameObsSameKeys(table, obs);
    forall k | k in ObsKeys(obs) ensures k in TableKeys(rows) {
      var o :| o in table && o.key == k;
      AssembledKeyPresent(table, unambig, ambigKeys, ambigRows, o);
    }
  }

  /** The key of a deduplicated observation has a row, from one part or the other. */
  lemma AssembledKeyPresent(table: seq<MutObs>, unambig: seq<MutObs>, ambigKeys: seq<string>, ambigRows: seq<MutTypeRow>, o: MutObs)
    requires o in table
    requires forall o :: o in table && Freq(table, o.key) == 1 ==> o in unambig
    requires forall k :: k in ObsKeys(table) && Freq(table, k) > 1 ==> k in ambigKeys
    requires |ambigRows| == |ambigKeys|
    requires forall j :: 0 <= j < |ambigRows| ==> ambigRows[j].key == ambigKeys[j]
    ensures o.key in TableKeys(AsRows(unambig) + ambigRows)
  {
    var u := AsRows(unambig);
    var rows := u + ambigRows;
    var k := o.key;
    assert k in ObsKeys(table);
    assert o.mutType in LabelsFor(table, k);
    FreqCountsLabels(table, k);
    var r: MutTypeRow;
    if Freq(table, k) == 1 {
      assert o in unambig;
      var i :| 0 <= i < |unambig| && unambig[i] == o;
      r := rows[i];
    } else {
      assert k in ambigKeys;
      var j :| 0 <= j < |ambigKeys| && ambigKeys[j] == k;
      r := rows[|u| + j];
    }
    assert r in rows && r.key == k;
  }

  /** Every row comes from an input key and carries the collapse of that key's labels. */
  lemma AssembledLabels(obs: seq<MutObs>, table: seq<MutObs>, unambig: seq<MutObs>, ambigKeys: seq<string>, ambigRows: seq<MutTypeRow>)
    requires Elems(table) == Elems(obs)
    requires forall o :: o in unambig ==> o in table && Freq(table, o.key) == 1
    requires forall k :: k in ambigKeys ==> k in ObsKeys(table)
    requires |ambigRows| == |ambigKeys|
    requires forall j :: 0 <= j < |ambigRows| ==>
      ambigRows[j] == MutTypeRow(ambigKeys[j], Collapse(LabelsFor(obs, ambigKeys[j])))
    ensures forall row :: row in AsRows(unambig) + ambigRows ==>
      row.key in ObsKeys(obs) && row.mutType == Collapse(LabelsFor(obs, row.key))
  {
    var u := AsRows(unambig);
    var rows := u + ambigRows;
    SameObsSameKeys(table, obs);
    forall row | row in rows ensures row.key in ObsKeys(obs) && row.mutType == Collapse(LabelsFor(obs, row.key)) {
      var i :| 0 <= i < |rows| && rows[i] == row;
      if i < |u| {
        var o := unambig[i];
        assert o in unambig;
        UnambiguousKeysDistinct(table, o, o);
        SameObsSameLabels(table, obs, o.key);
        assert Elems(LabelsFor(obs, o.key)) == {o.mutType};
        CollapseSingle(LabelsFor(obs, o.key), o.mutType);
      } else {
        assert ambigKeys[i - |u|] in ambigKeys;
      }
    }
  }

  /** The concatenation of the unambiguous pairs and the filled ambiguous rows is a
      mutation-type table. */
  lemma AssembledTable(
    obs: seq<MutObs>, table: seq<MutObs>, unambig: seq<MutObs>,
    ambigKeys: seq<string>, ambigRows: seq<MutTypeRow>)
    requires Elems(table) == Elems(obs)
    requires NoDups(unambig)
    requires forall o :: o in unambig ==> o in table && Freq(table, o.key) == 1
    requires forall o :: o in table && Freq(table, o.key) == 1 ==> o in unambig
    requires NoDups(ambigKeys)
    requires forall k :: k in ambigKeys ==> k in ObsKeys(table) && Freq(table, k) > 1
    requires forall k :: k in ObsKeys(table) && Freq(table, k) > 1 ==> k in ambigKeys
    requires |ambigRows| == |ambigKeys|
    requires forall j :: 0 <= j < |ambigRows| ==>
      ambigRows[j] == MutTypeRow(ambigKeys[j], Collapse(LabelsFor(obs, ambigKeys[j])))
    ensures IsMutTypeTable(obs, AsRows(unambig) + ambigRows)
  {
    var rows := AsRows(unambig) + ambigRows;
    AssembledKeysDistinct(table, unambig, ambigKeys, ambigRows);
    AssembledKeysComplete(obs, table, unambig, ambigKeys, ambigRows);
    AssembledLabels(obs, table, unambig, ambigKeys, ambigRows);
    assert TableKeys(rows) <= ObsKeys(obs);
  }

  /** The ambiguous keys with the `MUT_TYPE` cells the loop filled in. */
  function FilledRows(keys: seq<string>, cells: seq<Option<string>>): (rows: seq<MutTypeRow>)
    requires |cells| == |keys| && forall j :: 0 <= j < |cells| ==> cells[j].Some?
    ensures |rows| == |keys|
    ensures forall j :: 0 <= j < |rows| ==> rows[j] == MutTypeRow(keys[j], cells[j].value)
  {
    seq(|keys|, j requires 0 <= j < |keys| => MutTypeRow(keys[j], cells[j].value))
  }

  /** What the loop and the concatenation produce, given what the filters keep. */
  lemma AssembledResult(
    obs: seq<MutObs>, table: seq<MutObs>, ambigAll: seq<MutObs>, ambigKeys: seq<string>,
    unambig: seq<MutObs>, cells: seq<Option<string>>)
    requires table == Distinct(obs)
    requires forall o :: o in ambigAll ==> o in table && Freq(table, o.key) > 1
    requires forall o :: o in table && Freq(table, o.key) > 1 ==> o in ambigAll
    requires ambigKeys == Distinct(KeysOf(ambigAll))
    requires NoDups(unambig)
    requires forall o :: o in unambig ==> o in table && Freq(table, o.key) == 1
    requires forall o :: o in table && Freq(table, o.key) == 1 ==> o in unambig
    requires |cells| == |ambigKeys|
    requires forall j :: 0 <= j < |cells| ==> cells[j] == Some(JoinedLabels(ambigAll, ambigKeys[j]))
    ensures IsMutTypeTable(obs, AsRows(unambig) + FilledRows(ambigKeys, cells))
    ensures Elems(AsRows(unambig) + FilledRows(ambigKeys, cells)) == Elems(Extractors.ExtractMutType(obs))
  {
    var rows := AsRows(unambig) + FilledRows(ambigKeys, cells);
    forall j | 0 <= j < |cells| ensures cells[j] == Some(Collapse(LabelsFor(obs, ambigKeys[j]))) {
      assert ambigKeys[j] in Elems(ambigKeys);
      FilledLabel(obs, table, ambigAll, ambigKeys[j]);
    }
    AmbiguousKeys(table, ambigAll, ambigKeys);
    AssembledTable(obs, table, unambig, ambigKeys, FilledRows(ambigKeys, cells));
    Extractors.ExtractMutTypeTable(obs);
    MutTypeTablesAgree(obs, rows, Extractors.ExtractMutType(obs));
  }

  /** The loop of `extract_mut_type`: row `j` of the ambiguous table gets, in place, the
      sorted, de-duplicated labels of its key joined by `" or "`. */
  method FillMutTypes(cells: array<Option<string>>, ambigAll: seq<MutObs>, ambigKeys: seq<string>)
    requires cells.Length == |ambigKeys|
    modifies cells
    ensures forall j :: 0 <= j < cells.Length ==> cells[j] == Some(JoinedLabels(ambigAll, ambigKeys[j]))
  {
    var i := 0;
    while i < |ambigKeys|
      invariant 0 <= i <= |ambigKeys|
      invariant forall j :: 0 <= j < i ==> cells[j] == Some(JoinedLabels(ambigAll, ambigKeys[j]))
    {
      cells[i] := Some(JoinedLabels(ambigAll, ambigKeys[i]));
      i := i + 1;
    }
  }

  /** `extract_mut_type` in main.py: distinct pairs; keys with one label keep their row; each
      key with several labels gets its `MUT_TYPE` cell (initially missing) filled with the
      sorted, de-duplicated labels joined by `" or "`; the two parts are concatenated. */
  method ExtractMutType(obs: seq<MutObs>) returns (rows: seq<MutTypeRow>)
    ensures IsMutTypeTable(obs, rows)
    ensures Elems(rows) == Elems(Extractors.ExtractMutType(obs))
  {
    var table := Distinct(obs);
    var ambigAll := Filter(table, (o: MutObs) => Freq(table, o.key) > 1);
    var ambigKeys := Distinct(KeysOf(ambigAll));
    var mutTypes := new Option<string>[|ambigKeys|](_ => None);
    FillMutTypes(mutTypes, ambigAll, ambigKeys);
    var unambig := Filter(table, (o: MutObs) => Freq(table, o.key) == 1);
    rows := AsRows(unambig) + FilledRows(ambigKeys, mutTypes[..]);
    AssembledResult(obs, table, ambigAll, ambigKeys, unambig, mutTypes[..]);
  }

  // ---------------------------------------------------------------------------
  // extract_snv_metadata
  // ---------------------------------------------------------------------------

  /** The base fields of a variant: key, `NT_CHANGE`, `AA_CHANGE`, `POSITION`, `PROTEIN`. */
  datatype BaseRow = BaseRow(key: string, ntChange: string, aaChange: string, position: int, protein: string)

  /** A row of the metadata table. The base fields and the label are missing only where the
      outer join found the key on one side alone; the peptide columns exist only when the
      peptide table did. */
  datatype MetaRow = MetaRow(key: string, base: Option<BaseRow>, mutType: Option<string>, peptide: Option<Peptide>)

  /** The metadata table, and whether it has the three mature-peptide columns. */
  datatype Metadata = Metadata(rows: seq<MetaRow>, peptideColumns: bool)

  function BaseOf(r: Row): BaseRow {
    BaseRow(r.key, r.rec.nucCorrect, r.rec.aminoCorrect, r.rec.position, r.rec.protein)
  }

  function BaseRows(df: seq<Row>): (s: seq<BaseRow>)
    ensures |s| == |df|
    ensures forall i :: 0 <= i < |df| ==> s[i] == BaseOf(df[i])
  {
    seq(|df|, i requires 0 <= i < |df| => BaseOf(df[i]))
  }

  /** The (`POSITION:NT_CHANGE`, `Syn`) columns handed to `extract_mut_type`. */
  function MutObsOf(df: seq<Row>): (s: seq<MutObs>)
    ensures |s| == |df|
    ensures forall i :: 0 <= i < |df| ==> s[i] == MutObs(df[i].key, df[i].rec.syn)
  {
    seq(|df|, i requires 0 <= i < |df| => MutObs(df[i].key, df[i].rec.syn))
  }

  /** The (`POSITION:NT_CHANGE`, `MatPeptide`) columns handed to `extract_mat_peptide`. */
  function PepObsOf(df: seq<Row>): (s: seq<PepObs>)
    ensures |s| == |df|
    ensures forall i :: 0 <= i < |df| ==> s[i] == PepObs(df[i].key, df[i].rec.matPeptide)
  {
    seq(|df|, i requires 0 <= i < |df| => PepObs(df[i].key, df[i].rec.matPeptide))
  }

  function BaseKey(b: BaseRow): string { b.key }
  function MutTypeKey(r: MutTypeRow): string { r.key }
  function MetaKey(m: MetaRow): string { m.key }
  function PepKey(p: PepRow): string { p.key }

  /** A row of the outer join of base fields and mutation types, as a metadata row. */
  function FromMutTypeJoin(o: Joined<BaseRow, MutTypeRow>): MetaRow {
    MetaRow(o.key, o.left, match o.right case Some(r) => Some(r.mutType) case None => None, None)
  }

  function FromMutTypeJoins(os: seq<Joined<BaseRow, MutTypeRow>>): (ms: seq<MetaRow>)
    ensures |ms| == |os|
    ensures forall i :: 0 <= i < |os| ==> ms[i] == FromMutTypeJoin(os[i])
  {
    seq(|os|, i requires 0 <= i < |os| => FromMutTypeJoin(os[i]))
  }

  lemma InMutTypeJoins(os: seq<Joined<BaseRow, MutTypeRow>>, o: Joined<BaseRow, MutTypeRow>)
    requires o in os
    ensures FromMutTypeJoin(o) in FromMutTypeJoins(os)
  {
  }

  /** A row of the left join of metadata and peptide rows, as a metadata row. */
  function FromPeptideJoin(o: Joined<MetaRow, PepRow>): MetaRow {
    match o.left
    case Some(m) => m.(peptide := match o.right case Some(p) => Some(p.peptide) case None => None)
    case None => MetaRow(o.key, None, None, None)
  }

  function FromPeptideJoins(os: seq<Joined<MetaRow, PepRow>>): (ms: seq<MetaRow>)
    ensures |ms| == |os|
    ensures forall i :: 0 <= i < |os| ==> ms[i] == FromPeptideJoin(os[i])
  {
    seq(|os|, i requires 0 <= i < |os| => FromPeptideJoin(os[i]))
  }

  lemma InPeptideJoins(os: seq<Joined<MetaRow, PepRow>>, o: Joined<MetaRow, PepRow>)
    requires o in os
    ensures FromPeptideJoin(o) in FromPeptideJoins(os)
  {
  }

  /** The metadata row of the base fields `b` before the peptide join: its key, its fields and
      the collapse of every label its key was seen with. */
  ghost function BaseMeta(df: seq<Row>, b: BaseRow): MetaRow {
    MetaRow(b.key, Some(b), Some(Collapse(LabelsFor(MutObsOf(df), b.key))), None)
  }

  /** A row's peptide columns hold a peptide row of its key, or are empty when there is none. */
  ghost predicate PeptideFits(m: MetaRow, ps: seq<PepRow>) {
    match m.peptide
    case Some(p) => PepRow(m.key, p) in ps
    case None => forall r :: r in ps ==> r.key != m.key
  }

  /** How often the peptide left join repeats the row `m` of one metadata row: once per equal
      peptide row of its key, or once without peptide columns when its key has no peptide row. */
  ghost function JoinCount(ps: seq<PepRow>, m: MetaRow): nat {
    match m.peptide
    case Some(p) => multiset(ps)[PepRow(m.key, p)]
    case None => if forall r :: r in ps ==> r.key != m.key then 1 else 0
  }

  /** What the metadata of `df` is, given the outcome `pep` of the peptide step: every row is
      the base fields of some input row with its key's collapsed label, every such base row is
      kept, and when there is a peptide table each base row is paired with every peptide row of
      its key, or with nothing when it has none. Without a peptide table each row occurs once
      (the base fields are de-duplicated exactly); with one, a row occurs as often as the left
      join makes it from its single base row. */
  ghost predicate IsMetadataFor(df: seq<Row>, pep: Option<seq<PepRow>>, md: Metadata) {
    && md.peptideColumns == pep.Some?
    && (forall m :: m in md.rows ==>
          m.base.Some? && m.base.value in BaseRows(df) && m.(peptide := None) == BaseMeta(df, m.base.value))
    && (pep.None? ==> forall m :: m in md.rows ==> m.peptide.None?)
    && (pep.None? ==> forall b :: b in BaseRows(df) ==> BaseMeta(df, b) in md.rows)
    && (pep.Some? ==> forall m :: m in md.rows ==> PeptideFits(m, pep.value))
    && (pep.Some? ==> forall b, p :: b in BaseRows(df) && p in pep.value && p.key == b.key ==>
          BaseMeta(df, b).(peptide := Some(p.peptide)) in md.rows)
    && (pep.Some? ==> forall b :: b in BaseRows(df) && (forall p :: p in pep.value ==> p.key != b.key) ==>
          BaseMeta(df, b) in md.rows)
    && (pep.None? ==> forall m :: m in md.rows ==> multiset(md.rows)[m] == 1)
    && (pep.Some? ==> forall m :: m in md.rows ==> multiset(md.rows)[m] == JoinCount(pep.value, m))
  }

  /** Every base row's key is a key of the mutation-type input. */
  lemma BaseKeyObserved(df: seq<Row>, b: BaseRow)
    requires b in BaseRows(df)
    ensures b.key in ObsKeys(MutObsOf(df))
  {
  }

  /** Every key of the mutation-type input is the key of a base row. */
  lemma ObservedKeyHasBase(df: seq<Row>, k: string)
    requires k in ObsKeys(MutObsOf(df))
    ensures exists b :: b in BaseRows(df) && b.key == k
  {
    var o :| o in MutObsOf(df) && o.key == k;
    var i :| 0 <= i < |df| && MutObsOf(df)[i] == o;
    assert BaseRows(df)[i] in BaseRows(df);
  }

  /** A row of the outer join of the base rows with a mutation-type table holds both sides:
      each key is on both sides. */
  lemma MutTypeJoinRow(df: seq<Row>, base: seq<BaseRow>, mutRows: seq<MutTypeRow>, o: Joined<BaseRow, MutTypeRow>)
    requires Elems(base) == Elems(BaseRows(df))
    requires IsMutTypeTable(MutObsOf(df), mutRows)
    requires o in OuterJoin(base, mutRows, BaseKey, MutTypeKey)
    ensures o.left.Some? && o.left.value in BaseRows(df)
    ensures FromMutTypeJoin(o) == BaseMeta(df, o.left.value)
  {
    var obs := MutObsOf(df);
    OuterJoinKeysSound(base, mutRows, BaseKey, MutTypeKey, o);
    assert OuterJoined(o, base, mutRows, BaseKey, MutTypeKey);
    OuterJoinRowKey(base, mutRows, BaseKey, MutTypeKey, o);
    var k := o.key;
    assert k in ObsKeys(obs) by {
      if k in (set l | l in base :: BaseKey(l)) {
        var l :| l in base && BaseKey(l) == k;
        assert l in Elems(BaseRows(df));
        BaseKeyObserved(df, l);
      } else {
        var r :| r in mutRows && MutTypeKey(r) == k;
        assert k in TableKeys(mutRows);
      }
    }
    ObservedKeyHasBase(df, k);
    var b :| b in BaseRows(df) && b.key == k;
    assert b in Elems(base);
    assert o.left.Some?;
    assert k in TableKeys(mutRows);
    var r :| r in mutRows && r.key == k;
    assert o.right.Some?;
    assert o.left.value in Elems(base);
  }

  /** Every row of the outer join of the distinct base rows with the mutation-type table is one
      base row with its key's collapsed label. */
  lemma MergedSound(df: seq<Row>, base: seq<BaseRow>, mutRows: seq<MutTypeRow>)
    requires Elems(base) == Elems(BaseRows(df))
    requires IsMutTypeTable(MutObsOf(df), mutRows)
    ensures forall m :: m in FromMutTypeJoins(OuterJoin(base, mutRows, BaseKey, MutTypeKey)) ==>
      m.base.Some? && m.base.value in BaseRows(df) && m == BaseMeta(df, m.base.value)
  {
    var joined := OuterJoin(base, mutRows, BaseKey, MutTypeKey);
    var merged := FromMutTypeJoins(joined);
    forall m | m in merged ensures m.base.Some? && m.base.value in BaseRows(df) && m == BaseMeta(df, m.base.value) {
      var i :| 0 <= i < |merged| && merged[i] == m;
      MutTypeJoinRow(df, base, mutRows, joined[i]);
    }
  }

  /** The outer join keeps each base row, paired with the label of its key. */
  lemma MergedHasBase(df: seq<Row>, base: seq<BaseRow>, mutRows: seq<MutTypeRow>, b: BaseRow)
    requires Elems(base) == Elems(BaseRows(df))
    requires IsMutTypeTable(MutObsOf(df), mutRows)
    requires b in BaseRows(df)
    ensures BaseMeta(df, b) in FromMutTypeJoins(OuterJoin(base, mutRows, BaseKey, MutTypeKey))
  {
    var joined := OuterJoin(base, mutRows, BaseKey, MutTypeKey);
    var merged := FromMutTypeJoins(joined);
    assert b in Elems(base);
    BaseKeyObserved(df, b);
    assert b.key in TableKeys(mutRows);
    var r :| r in mutRows && r.key == b.key;
    var o := Joined(BaseKey(b), Some(b), Some(r));
    assert o in joined;
    InMutTypeJoins(joined, o);
  }

  /** The outer join of the distinct base rows with a mutation-type table repeats no row: every
      mutation-type key has a base row, and no key has two mutation-type rows, so each base
      row gives exactly one row. */
  lemma MergedNoDups(df: seq<Row>, base: seq<BaseRow>, mutRows: seq<MutTypeRow>)
    requires base == Distinct(BaseRows(df))
    requires IsMutTypeTable(MutObsOf(df), mutRows)
    ensures NoDups(FromMutTypeJoins(OuterJoin(base, mutRows, BaseKey, MutTypeKey)))
  {
    forall r | r in mutRows ensures exists b :: b in base && BaseKey(b) == MutTypeKey(r) {
      assert r.key in TableKeys(mutRows);
      ObservedKeyHasBase(df, r.key);
      var b :| b in BaseRows(df) && b.key == r.key;
      assert b in Elems(base);
    }
    RightOnlyEmpty(base, mutRows, BaseKey, MutTypeKey);
    LeftJoinOnePerLeft(base, mutRows, BaseKey, MutTypeKey);
    var joined := OuterJoin(base, mutRows, BaseKey, MutTypeKey);
    assert joined == LeftJoin(base, mutRows, BaseKey, MutTypeKey);
    var merged := FromMutTypeJoins(joined);
    forall i, j | 0 <= i < j < |merged| ensures merged[i] != merged[j] {
      assert merged[i].base == Some(base[i]) && merged[j].base == Some(base[j]);
    }
  }

  /** Before the peptide step, the outer join of the distinct base rows with a mutation-type
      table is the metadata without peptide columns. */
  lemma MutTypeMetadata(df: seq<Row>, base: seq<BaseRow>, mutRows: seq<MutTypeRow>)
    requires base == Distinct(BaseRows(df))
    requires IsMutTypeTable(MutObsOf(df), mutRows)
    ensures IsMetadataFor(df, None, Metadata(FromMutTypeJoins(OuterJoin(base, mutRows, BaseKey, MutTypeKey)), false))
  {
    var merged := FromMutTypeJoins(OuterJoin(base, mutRows, BaseKey, MutTypeKey));
    MergedSound(df, base, mutRows);
    forall b | b in BaseRows(df) ensures BaseMeta(df, b) in merged {
      MergedHasBase(df, base, mutRows, b);
    }
    forall m | m in merged ensures m.peptide.None? {
      assert m == BaseMeta(df, m.base.value);
    }
    MergedNoDups(df, base, mutRows);
    forall m | m in merged ensures multiset(merged)[m] == 1 {
      NoDupsOnce(merged, m);
    }
  }

  /** Every row of the peptide left join is a metadata row with fitting peptide columns. */
  lemma PeptideJoinSound(df: seq<Row>, merged: seq<MetaRow>, ps: seq<PepRow>)
    requires forall m :: m in merged ==> m.base.Some? && m.base.value in BaseRows(df) && m.(peptide := None) == BaseMeta(df, m.base.value)
    ensures forall m :: m in FromPeptideJoins(LeftJoin(merged, ps, MetaKey, PepKey)) ==>
      m.base.Some? && m.base.value in BaseRows(df) && m.(peptide := None) == BaseMeta(df, m.base.value) && PeptideFits(m, ps)
  {
    var joined := LeftJoin(merged, ps, MetaKey, PepKey);
    var out := FromPeptideJoins(joined);
    forall m | m in out
      ensures m.base.Some? && m.base.value in BaseRows(df) && m.(peptide := None) == BaseMeta(df, m.base.value) && PeptideFits(m, ps)
    {
      var i :| 0 <= i < |out| && out[i] == m;
      var o := joined[i];
      assert o in joined;
      assert LeftJoined(o, merged, ps, MetaKey, PepKey);
    }
  }

  /** The peptide left join pairs each metadata row with every peptide row of its key. */
  lemma PeptideJoinMatched(df: seq<Row>, merged: seq<MetaRow>, ps: seq<PepRow>)
    requires forall b :: b in BaseRows(df) ==> BaseMeta(df, b) in merged
    ensures forall b, p :: b in BaseRows(df) && p in ps && p.key == b.key ==>
      BaseMeta(df, b).(peptide := Some(p.peptide)) in FromPeptideJoins(LeftJoin(merged, ps, MetaKey, PepKey))
  {
    var joined := LeftJoin(merged, ps, MetaKey, PepKey);
    forall b, p | b in BaseRows(df) && p in ps && p.key == b.key
      ensures BaseMeta(df, b).(peptide := Some(p.peptide)) in FromPeptideJoins(joined)
    {
      var m := BaseMeta(df, b);
      InPeptideJoins(joined, Joined(m.key, Some(m), Some(p)));
    }
  }

  /** The peptide left join keeps, with empty peptide columns, each metadata row whose key has no
      peptide row. */
  lemma PeptideJoinUnmatched(df: seq<Row>, merged: seq<MetaRow>, ps: seq<PepRow>)
    requires forall b :: b in BaseRows(df) ==> BaseMeta(df, b) in merged
    ensures forall b :: b in BaseRows(df) && (forall p :: p in ps ==> p.key != b.key) ==>
      BaseMeta(df, b) in FromPeptideJoins(LeftJoin(merged, ps, MetaKey, PepKey))
  {
    var joined := LeftJoin(merged, ps, MetaKey, PepKey);
    var out := FromPeptideJoins(joined);
    forall b | b in BaseRows(df) && (forall p :: p in ps ==> p.key != b.key)
      ensures BaseMeta(df, b) in out
    {
      var m := BaseMeta(df, b);
      var o := Joined(m.key, Some(m), None);
      assert o in joined;
      InPeptideJoins(joined, o);
    }
  }

  /** The rows one metadata row `l` gets from the peptide rows `ms` of its key, when there are
      some: as many copies with peptide `p` as `ms` has rows `PepRow(key, p)`. */
  lemma {:induction false} PairingsCount(l: MetaRow, ms: seq<PepRow>, m: MetaRow)
    requires l.peptide.None? && |ms| > 0
    requires forall r :: r in ms ==> r.key == l.key
    ensures multiset(FromPeptideJoins(Pairings(MetaKey(l), l, ms)))[m] ==
      if m.(peptide := None) == l && m.peptide.Some? then multiset(ms)[PepRow(l.key, m.peptide.value)] else 0
  {
    var out := FromPeptideJoins(Pairings(MetaKey(l), l, ms));
    var first := l.(peptide := Some(ms[0].peptide));
    assert ms == [ms[0]] + ms[1..];
    assert ms[0] in ms;
    assert ms[0] == PepRow(l.key, ms[0].peptide);
    if |ms| == 1 {
      assert out == [first];
    } else {
      var rest := FromPeptideJoins(Pairings(MetaKey(l), l, ms[1..]));
      assert out == [first] + rest;
      PairingsCount(l, ms[1..], m);
    }
  }

  /** The rows the peptide left join makes from one metadata row `l`: `JoinCount` copies of each
      row of `l` with its peptide columns, and none of any other row. */
  lemma BlockCount(l: MetaRow, ps: seq<PepRow>, m: MetaRow)
    requires l.peptide.None?
    ensures multiset(FromPeptideJoins(Pairings(MetaKey(l), l, Matching(ps, PepKey, MetaKey(l)))))[m] ==
      if m.(peptide := None) == l then JoinCount(ps, m) else 0
  {
    var ms := Matching(ps, PepKey, MetaKey(l));
    if m.peptide.Some? {
      MatchingCount(ps, PepKey, MetaKey(l), PepRow(l.key, m.peptide.value));
    }
    if |ms| == 0 {
      assert FromPeptideJoins(Pairings(MetaKey(l), l, ms)) == [l];
    } else {
      assert ms[0] in ms;
      PairingsCount(l, ms, m);
    }
  }

  /** The peptide left join is the rows of the first metadata row followed by those of the rest. */
  lemma PeptideJoinSplit(ls: seq<MetaRow>, ps: seq<PepRow>)
    requires |ls| > 0
    ensures FromPeptideJoins(LeftJoin(ls, ps, MetaKey, PepKey)) ==
      FromPeptideJoins(Pairings(MetaKey(ls[0]), ls[0], Matching(ps, PepKey, MetaKey(ls[0]))))
      + FromPeptideJoins(LeftJoin(ls[1..], ps, MetaKey, PepKey))
  {
    var head := Pairings(MetaKey(ls[0]), ls[0], Matching(ps, PepKey, MetaKey(ls[0])));
    var tail := LeftJoin(ls[1..], ps, MetaKey, PepKey);
    assert LeftJoin(ls, ps, MetaKey, PepKey) == head + tail;
    assert FromPeptideJoins(head + tail) == FromPeptideJoins(head) + FromPeptideJoins(tail);
  }

  /** The peptide left join of duplicate-free metadata rows without peptide columns makes
      `JoinCount` copies of each row of each metadata row, and nothing else. */
  lemma {:induction false} PeptideJoinCount(ls: seq<MetaRow>, ps: seq<PepRow>, m: MetaRow)
    requires NoDups(ls) && forall l :: l in ls ==> l.peptide.None?
    ensures multiset(FromPeptideJoins(LeftJoin(ls, ps, MetaKey, PepKey)))[m] ==
      if m.(peptide := None) in ls then JoinCount(ps, m) else 0
  {
    if |ls| > 0 {
      var l := ls[0];
      assert l in ls;
      PeptideJoinSplit(ls, ps);
      BlockCount(l, ps, m);
      NoDupsTail(ls);
      assert ls == [l] + ls[1..];
      PeptideJoinCount(ls[1..], ps, m);
    }
  }

  /** After the peptide left join, each row occurs `JoinCount` times. */
  lemma PeptideJoinCounts(df: seq<Row>, merged: seq<MetaRow>, ps: seq<PepRow>)
    requires IsMetadataFor(df, None, Metadata(merged, false))
    ensures var out := FromPeptideJoins(LeftJoin(merged, ps, MetaKey, PepKey));
      forall m :: m in out ==> multiset(out)[m] == JoinCount(ps, m)
  {
    var out := FromPeptideJoins(LeftJoin(merged, ps, MetaKey, PepKey));
    OnceNoDups(merged);
    PeptideJoinSound(df, merged, ps);
    forall m | m in out ensures multiset(out)[m] == JoinCount(ps, m) {
      assert BaseMeta(df, m.base.value) in merged;
      PeptideJoinCount(merged, ps, m);
    }
  }

  /** The left join of the metadata with a peptide table is the metadata with peptide columns. */
  lemma PeptideMetadata(df: seq<Row>, merged: seq<MetaRow>, ps: seq<PepRow>)
    requires IsMetadataFor(df, None, Metadata(merged, false))
    ensures IsMetadataFor(df, Some(ps), Metadata(FromPeptideJoins(LeftJoin(merged, ps, MetaKey, PepKey)), true))
  {
    PeptideJoinSound(df, merged, ps);
    PeptideJoinMatched(df, merged, ps);
    PeptideJoinUnmatched(df, merged, ps);
    PeptideJoinCounts(df, merged, ps);
  }

  /** `extract_snv_metadata` in main.py: the base fields, de-duplicated exactly, outer-joined on
      the key with the mutation-type table; then, only when there is a peptide table, left-joined
      with it. A failing peptide step fails the whole step with its error. */
  method ExtractSnvMetadata(df: seq<Row>) returns (r: Result<Metadata, Error>)
    ensures r.Failure? <==> ExtractMatPeptide(PepObsOf(df)).Failure?
    ensures r.Failure? ==> r.error == ExtractMatPeptide(PepObsOf(df)).error
    ensures r.Success? ==> IsMetadataFor(df, ExtractMatPeptide(PepObsOf(df)).value, r.value)
  {
    var base := Distinct(BaseRows(df));
    var mutRows := ExtractMutType(MutObsOf(df));
    var meta := FromMutTypeJoins(OuterJoin(base, mutRows, BaseKey, MutTypeKey));
    MutTypeMetadata(df, base, mutRows);
    var pep := ExtractMatPeptide(PepObsOf(df));
    if pep.Failure? {
      return Failure(pep.error);
    }
    if pep.value.Some? {
      PeptideMetadata(df, meta, pep.value.value);
      meta := FromPeptideJoins(LeftJoin(meta, pep.value.value, MetaKey, PepKey));
    }
    r := Success(Metadata(meta, pep.value.Some?));
  }

  /** Every distinct base row of the input appears in the metadata: the outer join and the
      peptide left join never drop one. */
  lemma MetadataKeepsBase(df: seq<Row>, pep: Option<seq<PepRow>>, md: Metadata, b: BaseRow)
    requires IsMetadataFor(df, pep, md)
    requires b in BaseRows(df)
    ensures exists m :: m in md.rows && m.base == Some(b) && m.mutType == Some(Collapse(LabelsFor(MutObsOf(df), b.key)))
  {
  }
  /** Every metadata row has the key of an input row. */
  lemma MetaRowKeyFromInput(df: seq<Row>, pep: Option<seq<PepRow>>, md: Metadata, m: MetaRow)
    requires IsMetadataFor(df, pep, md)
    requires m in md.rows
    ensures exists r :: r in df && r.key == m.key
  {
  }

  /** Every input row's key has a metadata row. */
  lemma InputKeyHasMetaRow(df: seq<Row>, pep: Option<seq<PepRow>>, md: Metadata, r: Row)
    requires IsMetadataFor(df, pep, md)
    requires r in df
    ensures exists m :: m in md.rows && m.key == r.key
  {
    var i :| 0 <= i < |df| && df[i] == r;
    var b := BaseRows(df)[i];
    assert b in BaseRows(df);
    MetadataKeepsBase(df, pep, md, b);
    var m :| m in md.rows && m.base == Some(b) && m.mutType == Some(Collapse(LabelsFor(MutObsOf(df), b.key)));
    assert m.(peptide := None) == BaseMeta(df, b);
  }

  /** The metadata has exactly the keys of the input rows. */
  lemma MetadataKeys(df: seq<Row>, pep: Option<seq<PepRow>>, md: Metadata)
    requires IsMetadataFor(df, pep, md)
    ensures (set m | m in md.rows :: m.key) == (set r | r in df :: r.key)
  {
    var metaKeys := set m | m in md.rows :: m.key;
    var inputKeys := set r | r in df :: r.key;
    forall k | k in metaKeys ensures k in inputKeys {
      var m :| m in md.rows && m.key == k;
      MetaRowKeyFromInput(df, pep, md, m);
    }
    forall k | k in inputKeys ensures k in metaKeys {
      var r :| r in df && r.key == k;
      InputKeyHasMetaRow(df, pep, md, r);
    }
  }

  /** Without a peptide table, or with one that repeats no row, the metadata repeats no row:
      one row per distinct base row and matching peptide row. */
  lemma MetadataNoDups(df: seq<Row>, pep: Option<seq<PepRow>>, md: Metadata)
    requires IsMetadataFor(df, pep, md)
    requires pep.Some? ==> NoDups(pep.value)
    ensures NoDups(md.rows)
  {
    forall m | m in md.rows ensures multiset(md.rows)[m] == 1 {
      MetaRowOnce(pep, md.rows, m);
    }
    OnceNoDups(md.rows);
  }

  /** A metadata row occurs once when the peptide table, if any, repeats no row. */
  lemma MetaRowOnce(pep: Option<seq<PepRow>>, rows: seq<MetaRow>, m: MetaRow)
    requires pep.None? ==> multiset(rows)[m] == 1
    requires pep.Some? ==> multiset(rows)[m] == JoinCount(pep.value, m) && PeptideFits(m, pep.value)
    requires pep.Some? ==> NoDups(pep.value)
    ensures multiset(rows)[m] == 1
  {
    if pep.Some? {
      assert PeptideFits(m, pep.value);
      if m.peptide.Some? {
        NoDupsOnce(pep.value, PepRow(m.key, m.peptide.value));
      }
    }
  }
}
