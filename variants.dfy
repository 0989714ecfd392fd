/** The tables of the long-to-wide reshaping and the two pieces of logic both code paths
    share: the variant key `POSITION:NT_CHANGE` and the collapse of a variant's
    mutation-type labels into one `' or '`-joined label. */
module Variants {
  import opened Wrappers
  import opened Seqs
  import opened Text

  /** One row of the long input table (one sample's call of one variant). The allele
      frequency is only compared and counted, so it is a `real` that may be missing. */
  datatype Record = Record(
    position: int,
    sample: string,
    nucCorrect: string,
    af: Option<real>,
    syn: string,
    protein: string,
    aminoCorrect: string,
    matPeptide: string)

  /** One row of the headers table: a sample id and the display name of its column. */
  datatype Header = Header(sampleId: string, newHeader: string)

  /** A row of the long table once it is restricted to mapped samples, merged with its header
      row, its label cleaned and its `POSITION:NT_CHANGE` key added. */
  datatype Row = Row(key: string, newHeader: string, rec: Record)

  /** The two ways the reshaping aborts: `pivot` on a repeated (key, column) cell, and the
      three-column assignment of the split mature-peptide annotation when the split is not
      three columns wide. */
  datatype Error = DuplicatePivotEntries | MatPeptideColumnsMismatch(width: nat)

  // ---------------------------------------------------------------------------
  // The variant key
  // ---------------------------------------------------------------------------

  /** `POSITION:NT_CHANGE`: the integer position in decimal, a colon, the nucleotide change. */
  function Key(position: int, nucCorrect: string): string {
    IntToDecimal(position) + ":" + nucCorrect
  }

  /** The index of the first colon of `s`, or `|s|` when it has none. */
  function FindColon(s: string): (i: nat)
    ensures i <= |s|
    ensures i < |s| ==> s[i] == ':'
    ensures forall j :: 0 <= j < i ==> s[j] != ':'
  {
    if |s| == 0 || s[0] == ':' then 0 else 1 + FindColon(s[1..])
  }

  /** Reads a key back into its position and nucleotide change. */
  function ParseKey(key: string): Option<(int, string)> {
    var i := FindColon(key);
    if i == |key| then None
    else
      match ParseInt(key[..i])
      case None => None
      case Some(p) => Some((p, key[i + 1..]))
  }

  /** A key gives back the position and nucleotide change it was built from. */
  lemma KeyRoundTrip(position: int, nucCorrect: string)
    ensures ParseKey(Key(position, nucCorrect)) == Some((position, nucCorrect))
  {
    var d := IntToDecimal(position);
    var k := Key(position, nucCorrect);
    assert k[|d|] == ':';
    assert forall j :: 0 <= j < |d| ==> k[j] == d[j] && d[j] != ':';
    var i := FindColon(k);
    assert i == |d|;
    assert k[..i] == d;
    IntToDecimalRoundTrip(position);
    assert k[i + 1..] == nucCorrect;
  }

  /** Two calls share a key exactly when they share position and nucleotide change. */
  lemma KeyInjective(p1: int, n1: string, p2: int, n2: string)
    requires Key(p1, n1) == Key(p2, n2)
    ensures p1 == p2 && n1 == n2
  {
    KeyRoundTrip(p1, n1);
    KeyRoundTrip(p2, n2);
  }

  // ---------------------------------------------------------------------------
  // Mutation types
  // ---------------------------------------------------------------------------

  /** A (`POSITION:NT_CHANGE`, `MUT_TYPE`) pair of the long table. */
  datatype MutObs = MutObs(key: string, mutType: string)

  /** A row of the mutation-type table: one label per variant key. */
  datatype MutTypeRow = MutTypeRow(key: string, mutType: string)

  const Or := " or "

  /** `sorted(set(labels))`: each distinct label once, in Python's string order. */
  function CanonicalLabels(labels: seq<string>): (parts: seq<string>)
    ensures Sorted(parts) && NoDups(parts) && Elems(parts) == Elems(labels)
  {
    SortSorts(Distinct(labels));
    Sort(Distinct(labels))
  }

  /** `' or '.join(sorted(set(labels)))`. */
  function Collapse(labels: seq<string>): string {
    Join(CanonicalLabels(labels), Or)
  }

  /** The sorted, duplicate-free listing of a label set is the canonical one. */
  lemma CanonicalLabelsUnique(labels: seq<string>, parts: seq<string>)
    requires Sorted(parts) && NoDups(parts) && Elems(parts) == Elems(labels)
    ensures parts == CanonicalLabels(labels)
  {
    SortedUnique(parts, CanonicalLabels(labels));
  }

  /** The collapsed label depends only on the set of labels, not on their order or repeats. */
  lemma CollapseOrderIndependent(a: seq<string>, b: seq<string>)
    requires Elems(a) == Elems(b)
    ensures Collapse(a) == Collapse(b)
  {
    CanonicalLabelsUnique(b, CanonicalLabels(a));
  }

  /** A variant seen with one label keeps that label, with no separator. */
  lemma CollapseSingle(labels: seq<string>, l: string)
    requires Elems(labels) == {l}
    ensures Collapse(labels) == l
  {
    assert Elems([l]) == {l};
    CanonicalLabelsUnique(labels, [l]);
  }

  /** `Nonsense`, `Missense`, `Nonsense` in that order collapse to `Missense or Nonsense`. */
  lemma CollapseExample(m: string, n: string)
    requires m == "Missense" && n == "Nonsense"
    ensures Collapse([n, m, n]) == m + " or " + n
  {
    var labels := [n, m, n];
    var parts := [m, n];
    assert m[0] < n[0];
    assert Sorted(parts);
    assert Elems(parts) == Elems(labels) by {
      assert labels[0] == n && labels[1] == m && labels[2] == n;
    }
    CanonicalLabelsUnique(labels, parts);
    assert parts[1..] == [n];
    assert Join([n], Or) == n;
    assert Join(parts, Or) == m + Or + n;
  }

  /** `sort_values().unique()` lists the same labels as `sorted(set(...))`. */
  lemma SortThenUniqueIsCanonical(labels: seq<string>, others: seq<string>)
    requires Elems(labels) == Elems(others)
    ensures Distinct(Sort(labels)) == CanonicalLabels(others)
  {
    SortSorts(labels);
    DistinctKeepsSorted(Sort(labels));
    CanonicalLabelsUnique(others, Distinct(Sort(labels)));
  }

  /** The labels observed for `key`, in row order. */
  function LabelsFor(obs: seq<MutObs>, key: string): (labels: seq<string>)
    ensures forall l :: l in labels ==> MutObs(key, l) in obs
    ensures forall l :: MutObs(key, l) in obs ==> l in labels
  {
    if |obs| == 0 then []
    else
      assert obs == [obs[0]] + obs[1..];
      (if obs[0].key == key then [obs[0].mutType] else []) + LabelsFor(obs[1..], key)
  }

  function ObsKeys(obs: seq<MutObs>): set<string> {
    set o | o in obs :: o.key
  }

  /** The key column of a list of observations. */
  function KeysOf(obs: seq<MutObs>): (keys: seq<string>)
    ensures |keys| == |obs|
    ensures forall i :: 0 <= i < |obs| ==> keys[i] == obs[i].key
    ensures Elems(keys) == ObsKeys(obs)
  {
    var keys := seq(|obs|, i requires 0 <= i < |obs| => obs[i].key);
    assert forall k :: k in ObsKeys(obs) ==> k in Elems(keys) by {
      forall k | k in ObsKeys(obs) ensures k in Elems(keys) {
        var o :| o in obs && o.key == k;
        var i :| 0 <= i < |obs| && obs[i] == o;
        assert keys[i] == k;
      }
    }
    keys
  }

  function TableKeys(rows: seq<MutTypeRow>): set<string> {
    set r | r in rows :: r.key
  }

  /** One row per entry of `keys`, labelled by `labelOf`. */
  function TableOver(keys: seq<string>, labelOf: string -> string): (rows: seq<MutTypeRow>)
    ensures |rows| == |keys|
    ensures forall i :: 0 <= i < |rows| ==> rows[i] == MutTypeRow(keys[i], labelOf(keys[i]))
    ensures TableKeys(rows) == Elems(keys)
  {
    if |keys| == 0 then []
    else
      var rows := [MutTypeRow(keys[0], labelOf(keys[0]))] + TableOver(keys[1..], labelOf);
      assert keys == [keys[0]] + keys[1..];
      assert Elems(keys) == {keys[0]} + Elems(keys[1..]);
      rows
  }

  /** Observation lists with the same pairs have the same keys. */
  lemma SameObsSameKeys(a: seq<MutObs>, b: seq<MutObs>)
    requires Elems(a) == Elems(b)
    ensures ObsKeys(a) == ObsKeys(b)
  {
    forall k | k in ObsKeys(a) ensures k in ObsKeys(b) {
      var o :| o in a && o.key == k;
      assert o in Elems(b);
    }
    forall k | k in ObsKeys(b) ensures k in ObsKeys(a) {
      var o :| o in b && o.key == k;
      assert o in Elems(a);
    }
  }

  /** Observation lists with the same pairs have the same labels for every key. */
  lemma SameObsSameLabels(a: seq<MutObs>, b: seq<MutObs>, k: string)
    requires Elems(a) == Elems(b)
    ensures Elems(LabelsFor(a, k)) == Elems(LabelsFor(b, k))
  {
    forall l | l in Elems(LabelsFor(a, k)) ensures l in Elems(LabelsFor(b, k)) {
      assert MutObs(k, l) in Elems(b);
    }
    forall l | l in Elems(LabelsFor(b, k)) ensures l in Elems(LabelsFor(a, k)) {
      assert MutObs(k, l) in Elems(a);
    }
  }

  /** What a mutation-type table for `obs` is: one row per key of `obs` and no other, each
      carrying the collapse of every label observed for its key. */
  ghost predicate IsMutTypeTable(obs: seq<MutObs>, rows: seq<MutTypeRow>) {
    && (forall i, j :: 0 <= i < j < |rows| ==> rows[i].key != rows[j].key)
    && TableKeys(rows) == ObsKeys(obs)
    && (forall row :: row in rows ==> row.mutType == Collapse(LabelsFor(obs, row.key)))
  }

  /** Two mutation-type tables for the same observations hold the same (key, label) pairs. */
  lemma MutTypeTablesAgree(obs: seq<MutObs>, a: seq<MutTypeRow>, b: seq<MutTypeRow>)
    requires IsMutTypeTable(obs, a) && IsMutTypeTable(obs, b)
    ensures Elems(a) == Elems(b)
  {
    forall row | row in a ensures row in b {
      assert row.key in TableKeys(b);
      var other :| other in b && other.key == row.key;
    }
    forall row | row in b ensures row in a {
      assert row.key in TableKeys(a);
      var other :| other in a && other.key == row.key;
    }
  }

  /** Whether rows form a mutation-type table does not depend on the order or repetition of
      the observations: permuted input gives the same tables. */
  lemma MutTypeTableOrderIndependent(a: seq<MutObs>, b: seq<MutObs>, rows: seq<MutTypeRow>)
    requires Elems(a) == Elems(b)
    requires IsMutTypeTable(a, rows)
    ensures IsMutTypeTable(b, rows)
  {
    SameObsSameKeys(a, b);
    forall row | row in rows ensures row.mutType == Collapse(LabelsFor(b, row.key)) {
      SameObsSameLabels(a, b, row.key);
      CollapseOrderIndependent(LabelsFor(a, row.key), LabelsFor(b, row.key));
    }
  }

  /** In a mutation-type table, a key seen with one label only carries that label verbatim. */
  lemma MutTypeTableUnambiguous(obs: seq<MutObs>, rows: seq<MutTypeRow>, k: string, l: string)
    requires IsMutTypeTable(obs, rows)
    requires MutObs(k, l) in obs
    requires forall o :: o in obs && o.key == k ==> o.mutType == l
    ensures MutTypeRow(k, l) in rows
  {
    assert k in ObsKeys(obs);
    assert k in TableKeys(rows);
    var row :| row in rows && row.key == k;
    var labels := LabelsFor(obs, k);
    assert Elems(labels) == {l};
    CollapseSingle(labels, l);
    assert row == MutTypeRow(k, l);
  }

  /** A mutation-type table has exactly as many rows as there are distinct keys. */
  lemma MutTypeTableSize(obs: seq<MutObs>, rows: seq<MutTypeRow>)
    requires IsMutTypeTable(obs, rows)
    ensures |rows| == |ObsKeys(obs)|
  {
    var keys := seq(|rows|, i requires 0 <= i < |rows| => rows[i].key);
    assert Elems(keys) == TableKeys(rows) by {
      forall k | k in TableKeys(rows) ensures k in Elems(keys) {
        var r :| r in rows && r.key == k;
        var i :| 0 <= i < |rows| && rows[i] == r;
        assert keys[i] == k;
      }
    }
    NoDupsCardinality(keys);
  }
}
