/** `extract_mat_peptide` (main.py lines 30-38): the variants whose mature-peptide annotation is
    not the sentinel `-`, each distinct (key, annotation) pair split on the regular expression
    `[:;] ` into peptide, amino-acid change and nucleotide change. */
module Peptides {
  import opened Wrappers
  import opened Seqs
  import opened Text
  import opened Variants

  /** A (`POSITION:NT_CHANGE`, `MatPeptide`) pair of the long table. */
  datatype PepObs = PepObs(key: string, annotation: string)

  /** The three columns the split annotation is assigned to. A row whose annotation splits into
      fewer pieces than the widest one has its missing columns filled with nothing. */
  datatype Peptide = Peptide(name: string, aaChange: Option<string>, ntChange: Option<string>)

  /** A row of the mature-peptide table. */
  datatype PepRow = PepRow(key: string, peptide: Peptide)

  /** The annotation of a variant outside every mature peptide. */
  const Absent := "-"

  predicate Annotated(o: PepObs) {
    o.annotation != Absent
  }

  /** The number of pieces `str.split(r"[:;] ", expand=True)` makes of an annotation. */
  function Width(a: string): (w: nat)
    ensures w >= 1
  {
    |SplitAnnotation(a)|
  }

  /** Piece `i` of a split, or nothing where the row is narrower than the table. */
  function Piece(parts: seq<string>, i: nat): Option<string> {
    if i < |parts| then Some(parts[i]) else None
  }

  /** The first three pieces of the split annotation, padded with nothing. */
  function ParsePeptide(a: string): Peptide {
    var parts := SplitAnnotation(a);
    Peptide(parts[0], Piece(parts, 1), Piece(parts, 2))
  }

  /** The annotation layout `PEPTIDE: AA_CHANGE; NT_CHANGE` (either separator may be `:` or `;`). */
  function FormatPeptide(name: string, c1: char, aaChange: string, c2: char, ntChange: string): string {
    name + [c1, ' '] + aaChange + [c2, ' '] + ntChange
  }

  /** An annotation made of three separator-free fields splits back into exactly those fields,
      in order: peptide, amino-acid change, nucleotide change. */
  lemma ParsePeptideFormat(name: string, c1: char, aaChange: string, c2: char, ntChange: string)
    requires NoSeparator(name) && NoSeparator(aaChange) && NoSeparator(ntChange)
    requires (c1 == ':' || c1 == ';') && (c2 == ':' || c2 == ';')
    ensures Width(FormatPeptide(name, c1, aaChange, c2, ntChange)) == 3
    ensures ParsePeptide(FormatPeptide(name, c1, aaChange, c2, ntChange)) == Peptide(name, Some(aaChange), Some(ntChange))
  {
    var rest := aaChange + [c2, ' '] + ntChange;
    assert FormatPeptide(name, c1, aaChange, c2, ntChange) == name + [c1, ' '] + rest;
    SplitAfter(name, c1, rest);
    SplitAfter(aaChange, c2, ntChange);
    SplitPlain(ntChange);
  }

  /** An annotation whose only separator is its second one (`ORF1a:T100I; c.300A>G`, where no
      space follows the colon) makes two pieces, not three. */
  lemma TwoPieceAnnotation(name: string, c: char, change: string)
    requires NoSeparator(name) && NoSeparator(change) && (c == ':' || c == ';')
    ensures Width(name + [c, ' '] + change) == 2
    ensures ParsePeptide(name + [c, ' '] + change) == Peptide(name, Some(change), None)
  {
    SplitAfter(name, c, change);
    SplitPlain(change);
  }

  /** The widest split among `pairs`: the number of columns `expand=True` produces. */
  function Widest(pairs: seq<PepObs>): (w: nat)
    ensures forall o :: o in pairs ==> Width(o.annotation) <= w
    ensures |pairs| > 0 ==> exists o :: o in pairs && Width(o.annotation) == w
    ensures |pairs| == 0 ==> w == 0
  {
    if |pairs| == 0 then 0
    else
      assert pairs == [pairs[0]] + pairs[1..];
      var head, tail := Width(pairs[0].annotation), Widest(pairs[1..]);
      if head >= tail then head else tail
  }

  /** One parsed row per pair, in order. */
  function PepRows(pairs: seq<PepObs>): (rows: seq<PepRow>)
    ensures |rows| == |pairs|
    ensures forall i :: 0 <= i < |pairs| ==> rows[i] == PepRow(pairs[i].key, ParsePeptide(pairs[i].annotation))
  {
    seq(|pairs|, i requires 0 <= i < |pairs| => PepRow(pairs[i].key, ParsePeptide(pairs[i].annotation)))
  }

  /** `extract_mat_peptide`: nothing when every annotation is `-`; otherwise the distinct
      annotated pairs, split into three columns, which fails unless the widest split has
      exactly three pieces. */
  function ExtractMatPeptide(obs: seq<PepObs>): Result<Option<seq<PepRow>>, Error> {
    var annotated := Filter(obs, Annotated);
    if |annotated| == 0 then Success(None)
    else
      var pairs := Distinct(annotated);
      var w := Widest(pairs);
      if w != 3 then Failure(MatPeptideColumnsMismatch(w))
      else Success(Some(PepRows(pairs)))
  }

  /** The distinct annotated pairs are exactly the annotated observations. */
  lemma AnnotatedPairs(obs: seq<PepObs>)
    ensures forall o :: o in Distinct(Filter(obs, Annotated)) <==> o in obs && Annotated(o)
  {
    var annotated := Filter(obs, Annotated);
    var pairs := Distinct(annotated);
    forall o ensures o in pairs <==> o in obs && Annotated(o) {
      assert o in pairs <==> o in Elems(pairs);
      assert o in annotated <==> o in Elems(annotated);
    }
  }

  /** The step signals "no peptide table" exactly when every annotation is the sentinel. */
  lemma ExtractMatPeptideAbsent(obs: seq<PepObs>)
    ensures ExtractMatPeptide(obs) == Success(None) <==> forall o :: o in obs ==> o.annotation == Absent
  {
    var annotated := Filter(obs, Annotated);
    if |annotated| > 0 {
      assert annotated[0] in annotated;
    }
  }

  /** The step fails exactly when some annotation is present and the widest split is not three
      pieces: some annotation splits into more than three, or none reaches three. */
  lemma ExtractMatPeptideFails(obs: seq<PepObs>)
    ensures ExtractMatPeptide(obs).Failure? <==>
      && (exists o :: o in obs && Annotated(o))
      && ((exists o :: o in obs && Annotated(o) && Width(o.annotation) > 3)
          || (forall o :: o in obs && Annotated(o) ==> Width(o.annotation) < 3))
  {
    var annotated := Filter(obs, Annotated);
    if |annotated| > 0 {
      AnnotatedPairs(obs);
      var pairs := Distinct(annotated);
      var w := Widest(pairs);
      var top :| top in pairs && Width(top.annotation) == w;
      if w == 3 {
        assert !(forall o :: o in obs && Annotated(o) ==> Width(o.annotation) < 3) by {
          assert top in obs && Annotated(top);
        }
      } else if w > 3 {
        assert top in obs && Annotated(top);
      }
    } else {
      assert !exists o :: o in obs && Annotated(o);
    }
  }

  /** A failure carries the widest split: the number of columns the split produced. */
  lemma ExtractMatPeptideErrorWidth(obs: seq<PepObs>)
    requires ExtractMatPeptide(obs).Failure?
    ensures
      && ExtractMatPeptide(obs).error.MatPeptideColumnsMismatch?
      && var w := ExtractMatPeptide(obs).error.width;
         && (forall o :: o in obs && Annotated(o) ==> Width(o.annotation) <= w)
         && (exists o :: o in obs && Annotated(o) && Width(o.annotation) == w)
  {
    AnnotatedPairs(obs);
    var pairs := Distinct(Filter(obs, Annotated));
    var w := Widest(pairs);
    var top :| top in pairs && Width(top.annotation) == w;
  }

  /** On success with a table, every row is the parse of an annotated pair and every annotated
      pair has its row; every annotation then splits into at most three pieces. */
  lemma ExtractMatPeptideRows(obs: seq<PepObs>)
    requires ExtractMatPeptide(obs).Success? && ExtractMatPeptide(obs).value.Some?
    ensures var rows := ExtractMatPeptide(obs).value.value;
      && (forall r :: r in rows ==> exists o :: o in obs && Annotated(o) && r == PepRow(o.key, ParsePeptide(o.annotation)))
      && (forall o :: o in obs && Annotated(o) ==> PepRow(o.key, ParsePeptide(o.annotation)) in rows)
      && (forall o :: o in obs && Annotated(o) ==> Width(o.annotation) <= 3)
  {
    AnnotatedPairs(obs);
    var pairs := Distinct(Filter(obs, Annotated));
    var rows := PepRows(pairs);
    forall r | r in rows ensures exists o :: o in obs && Annotated(o) && r == PepRow(o.key, ParsePeptide(o.annotation)) {
      var i :| 0 <= i < |rows| && rows[i] == r;
      assert pairs[i] in pairs;
    }
    forall o | o in obs && Annotated(o) ensures PepRow(o.key, ParsePeptide(o.annotation)) in rows {
      var i :| 0 <= i < |pairs| && pairs[i] == o;
      assert rows[i] == PepRow(o.key, ParsePeptide(o.annotation));
    }
  }

  /** On success with a table, it has exactly one row per distinct annotated (key, annotation) pair. */
  lemma ExtractMatPeptideSize(obs: seq<PepObs>)
    requires ExtractMatPeptide(obs).Success? && ExtractMatPeptide(obs).value.Some?
    ensures |ExtractMatPeptide(obs).value.value| == |set o | o in obs && Annotated(o)|
  {
    AnnotatedPairs(obs);
    var pairs := Distinct(Filter(obs, Annotated));
    assert (set o | o in obs && Annotated(o)) == Elems(pairs);
    NoDupsCardinality(pairs);
  }
}
