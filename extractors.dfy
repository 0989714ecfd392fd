/** The groupby version of the mutation-type table (extractors.py): drop repeated
    (key, label) pairs, group by key in ascending key order and join each group's
    label set, sorted, with `" or "`. */
module Extractors {
  import opened Seqs
  import opened Text
  import opened Variants

  /** `extract_mut_type`: the distinct pairs, grouped by key in ascending key order, each
      group's labels collapsed. */
  function ExtractMutType(obs: seq<MutObs>): seq<MutTypeRow> {
    var pairs := Distinct(obs);
    var keys := Sort(Distinct(KeysOf(pairs)));
    TableOver(keys, k => Collapse(LabelsFor(pairs, k)))
  }

  /** The output keys are the input keys, each once, in ascending order. */
  lemma ExtractMutTypeKeys(obs: seq<MutObs>)
    ensures var rows := ExtractMutType(obs);
      && (forall i, j :: 0 <= i < j < |rows| ==> LessEq(rows[i].key, rows[j].key) && rows[i].key != rows[j].key)
      && TableKeys(rows) == ObsKeys(obs)
  {
    var pairs := Distinct(obs);
    var keys := Sort(Distinct(KeysOf(pairs)));
    SortSorts(Distinct(KeysOf(pairs)));
    assert Elems(keys) == ObsKeys(pairs);
    SameObsSameKeys(pairs, obs);
  }

  /** The groupby result is a mutation-type table: each key of the input once, with the
      collapse of all its labels. */
  lemma ExtractMutTypeTable(obs: seq<MutObs>)
    ensures IsMutTypeTable(obs, ExtractMutType(obs))
  {
    ExtractMutTypeKeys(obs);
    var pairs := Distinct(obs);
    var keys := Sort(Distinct(KeysOf(pairs)));
    var rows := ExtractMutType(obs);
    forall row | row in rows ensures row.mutType == Collapse(LabelsFor(obs, row.key)) {
      var i :| 0 <= i < |rows| && rows[i] == row;
      assert row.mutType == Collapse(LabelsFor(pairs, keys[i]));
      SameObsSameLabels(pairs, obs, row.key);
      CollapseOrderIndependent(LabelsFor(pairs, row.key), LabelsFor(obs, row.key));
    }
  }

  /** Exactly one output row per distinct key of the input. */
  lemma ExtractMutTypeSize(obs: seq<MutObs>)
    ensures |ExtractMutType(obs)| == |ObsKeys(obs)|
  {
    ExtractMutTypeTable(obs);
    MutTypeTableSize(obs, ExtractMutType(obs));
  }

  /** A key seen with one label only keeps that label verbatim. */
  lemma ExtractMutTypeUnambiguous(obs: seq<MutObs>, k: string, l: string)
    requires MutObs(k, l) in obs
    requires forall o :: o in obs && o.key == k ==> o.mutType == l
    ensures MutTypeRow(k, l) in ExtractMutType(obs)
  {
    ExtractMutTypeTable(obs);
    MutTypeTableUnambiguous(obs, ExtractMutType(obs), k, l);
  }

  /** Each key's label lists every label seen for it exactly once, in ascending order,
      separated by `" or "`: repeated pairs never repeat a label. */
  lemma ExtractMutTypeLabels(obs: seq<MutObs>, row: MutTypeRow)
    requires row in ExtractMutType(obs)
    ensures exists parts ::
      && Sorted(parts) && NoDups(parts)
      && (forall l :: l in parts <==> MutObs(row.key, l) in obs)
      && row.mutType == Join(parts, Or)
  {
    ExtractMutTypeTable(obs);
    var parts := CanonicalLabels(LabelsFor(obs, row.key));
    assert forall l :: l in parts <==> l in Elems(LabelsFor(obs, row.key));
  }

  /** Reordering or repeating input rows does not change the result. */
  lemma ExtractMutTypeOrderIndependent(a: seq<MutObs>, b: seq<MutObs>)
    requires Elems(a) == Elems(b)
    ensures ExtractMutType(a) == ExtractMutType(b)
  {
    var pa, pb := Distinct(a), Distinct(b);
    var ka, kb := Sort(Distinct(KeysOf(pa))), Sort(Distinct(KeysOf(pb)));
    SameObsSameKeys(pa, pb);
    SortSorts(Distinct(KeysOf(pa)));
    SortSorts(Distinct(KeysOf(pb)));
    SortedUnique(ka, kb);
    var fa: string -> string := k => Collapse(LabelsFor(pa, k));
    var fb: string -> string := k => Collapse(LabelsFor(pb, k));
    var ra, rb := TableOver(ka, fa), TableOver(kb, fb);
    forall i | 0 <= i < |ra| ensures ra[i] == rb[i] {
      SameObsSameLabels(pa, pb, ka[i]);
      CollapseOrderIndependent(LabelsFor(pa, ka[i]), LabelsFor(pb, ka[i]));
    }
    assert ExtractMutType(a) == ra;
    assert ExtractMutType(b) == rb;
  }
}
