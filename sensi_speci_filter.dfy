/** The threshold filter: validates the four sensitivity/specificity
    thresholds and the p-value threshold, checks that the four named columns
    exist, optionally keeps only the rows below the p-value threshold, and
    splits off two subsets, one for the presence of the gene and one for its
    absence, each by two strict lower bounds. */
module SensiSpeciFilter {
  import opened Seqs
  import opened Tables
  import opened Results

  // ---------------------------------------------------------------------
  // Options
  // ---------------------------------------------------------------------

  /** The command-line options after parsing; `stem` is the GWAS file name
      without its directory and extension. */
  datatype Options = Options(
    sensiPresenceCol: string, speciPresenceCol: string,
    sensiAbsenceCol: string, speciAbsenceCol: string,
    sensiPresenceThresh: real, speciPresenceThresh: real,
    sensiAbsenceThresh: real, speciAbsenceThresh: real,
    pValueThresh: real, pValueCol: string,
    stem: string)

  const SensitivityPresence: string := "sensi_1"
  const SensitivityAbsence: string := "sensi_0"
  const SpecificityPresence: string := "speci_1"
  const SpecificityAbsence: string := "speci_0"
  const Se1Threshold: real := 0.083
  const Sp1Threshold: real := 0.983
  const Se0Threshold: real := 0.083
  const Sp0Threshold: real := 0.983
  const PValueColumn: string := "lrt-pvalue"

  /** The options when only the GWAS file is given. */
  function Defaults(stem: string): (o: Options)
    ensures o.stem == stem
  {
    Options(SensitivityPresence, SpecificityPresence, SensitivityAbsence, SpecificityAbsence,
            Se1Threshold, Sp1Threshold, Se0Threshold, Sp0Threshold, 1.0, PValueColumn, stem)
  }

  /** The thresholds in the order SE1, SP1, SE0, SP0. */
  function Thresholds(o: Options): (ts: seq<real>)
    ensures |ts| == 4
  {
    [o.sensiPresenceThresh, o.speciPresenceThresh, o.sensiAbsenceThresh, o.speciAbsenceThresh]
  }

  /** `all(0 <= t <= 1 for t in ts)`. */
  function AllInUnitInterval(ts: seq<real>): (b: bool)
    ensures b <==> forall i :: 0 <= i < |ts| ==> 0.0 <= ts[i] <= 1.0
  {
    if ts == [] then true
    else 0.0 <= ts[0] <= 1.0 && AllInUnitInterval(ts[1..])
  }

  /** Why the filter stops (it prints a message and exits). */
  datatype FilterError =
    | InvalidThreshold(thresholds: seq<real>)
    | InvalidPValueThreshold(pValue: real)
    | ColumnsNotFound(missing: set<string>)
    | PValueColumnNotFound(columns: seq<string>)

  /** The checks at the end of option parsing: first the four thresholds,
      then the p-value threshold, each in the closed interval [0, 1]. */
  function ValidateOptions(o: Options): (r: Result<Options, FilterError>)
    ensures r.Ok? <==> (forall i :: 0 <= i < 4 ==> 0.0 <= Thresholds(o)[i] <= 1.0) && 0.0 <= o.pValueThresh <= 1.0
    ensures r.Ok? ==> r.value == o
    ensures r.Err? ==> r.error == (if AllInUnitInterval(Thresholds(o)) then InvalidPValueThreshold(o.pValueThresh)
                                   else InvalidThreshold(Thresholds(o)))
  {
    if !AllInUnitInterval(Thresholds(o)) then Err(InvalidThreshold(Thresholds(o)))
    else if !(0.0 <= o.pValueThresh <= 1.0) then Err(InvalidPValueThreshold(o.pValueThresh))
    else Ok(o)
  }

  /** The default options pass validation, and so do the bounds 0 and 1
      themselves. */
  lemma DefaultsValid(stem: string)
    ensures ValidateOptions(Defaults(stem)) == Ok(Defaults(stem))
    ensures forall o: Options :: Thresholds(o) == [0.0, 1.0, 0.0, 1.0] && (o.pValueThresh == 0.0 || o.pValueThresh == 1.0)
              ==> ValidateOptions(o).Ok?
  {
    assert Thresholds(Defaults(stem)) == [0.083, 0.983, 0.083, 0.983];
  }

  // ---------------------------------------------------------------------
  // Columns
  // ---------------------------------------------------------------------

  /** The set of the four column names; equal names collapse. */
  function DataColumns(o: Options): set<string>
  {
    {o.sensiPresenceCol, o.speciPresenceCol, o.sensiAbsenceCol, o.speciAbsenceCol}
  }

  /** `sensi_speci_columns - set(df_gwas.columns)`. */
  function MissingColumns(o: Options, t: Table): (m: set<string>)
    ensures forall c :: c in m <==> c in DataColumns(o) && c !in t.columns
    ensures m == {} <==> (o.sensiPresenceCol in t.columns && o.speciPresenceCol in t.columns
                          && o.sensiAbsenceCol in t.columns && o.speciAbsenceCol in t.columns)
  {
    DataColumns(o) - ColumnSet(t)
  }

  /** Naming one column for all four roles checks one column only. */
  lemma SameNameCollapses(o: Options)
    requires o.sensiPresenceCol == o.speciPresenceCol == o.sensiAbsenceCol == o.speciAbsenceCol
    ensures |DataColumns(o)| == 1
  {
    assert DataColumns(o) == {o.sensiPresenceCol};
  }

  // ---------------------------------------------------------------------
  // Row selection
  // ---------------------------------------------------------------------

  /** The cells of column `c` are numbers or NaN (pandas raises on comparing
      text with a float). */
  ghost predicate NoText(t: Table, c: string)
  {
    forall i :: 0 <= i < |t.rows| && c in t.rows[i] ==> !t.rows[i][c].Str?
  }

  /** Every column the run compares with a threshold holds no text. */
  ghost predicate Comparable(o: Options, t: Table)
  {
    && NoText(t, o.sensiPresenceCol) && NoText(t, o.speciPresenceCol)
    && NoText(t, o.sensiAbsenceCol) && NoText(t, o.speciAbsenceCol)
    && (o.pValueThresh != 1.0 ==> NoText(t, o.pValueCol))
  }

  /** `cell > threshold`, which is false for NaN. */
  predicate Above(r: Row, c: string, threshold: real)
  {
    c in r && r[c].Num? && r[c].x > threshold
  }

  /** `cell < threshold`, which is false for NaN. */
  predicate Below(r: Row, c: string, threshold: real)
  {
    c in r && r[c].Num? && r[c].x < threshold
  }

  /** The mask `df[col] < threshold`. */
  function PValueMask(col: string, threshold: real): Row -> bool
  {
    (r: Row) => Below(r, col, threshold)
  }

  /** The mask `(df[sensiCol] > sensiThresh) & (df[speciCol] > speciThresh)`. */
  function BothAbove(sensiCol: string, sensiThresh: real, speciCol: string, speciThresh: real): Row -> bool
  {
    (r: Row) => Above(r, sensiCol, sensiThresh) && Above(r, speciCol, speciThresh)
  }

  /** The rows of `t` that satisfy `p`, same columns. */
  function Select(t: Table, p: Row -> bool): (r: Table)
    ensures r.columns == t.columns
    ensures |r.rows| == |Positions(t.rows, p)|
    ensures forall k :: 0 <= k < |r.rows| ==> r.rows[k] == t.rows[Positions(t.rows, p)[k]]
  {
    FilterAtPositions(t.rows, p);
    Table(t.columns, Filter(t.rows, p))
  }

  /** Selection keeps a table well formed and selecting twice by the same
      mask is selecting once. */
  lemma SelectFacts(t: Table, p: Row -> bool)
    ensures WellFormed(t) ==> WellFormed(Select(t, p))
    ensures Select(Select(t, p), p) == Select(t, p)
  {
    FilterIdempotent(t.rows, p);
    var r := Select(t, p);
    if WellFormed(t) {
      forall k | 0 <= k < |r.rows| ensures r.rows[k].Keys == ColumnSet(r) {
        assert r.rows[k] == t.rows[Positions(t.rows, p)[k]];
      }
    }
  }

  /** The optional p-value restriction (`sensi_speci_filter.py`, lines 146-150): only when the
      threshold is not 1, and then the p-value column must exist. */
  function RestrictPValue(o: Options, t: Table): (r: Result<Table, FilterError>)
    ensures o.pValueThresh == 1.0 ==> r == Ok(t)
    ensures r.Err? <==> o.pValueThresh != 1.0 && o.pValueCol !in t.columns
    ensures r.Err? ==> r.error == PValueColumnNotFound(t.columns)
    ensures r.Ok? && o.pValueThresh != 1.0 ==> r.value == Select(t, PValueMask(o.pValueCol, o.pValueThresh))
  {
    if o.pValueThresh != 1.0 then
      if o.pValueCol !in t.columns then Err(PValueColumnNotFound(t.columns))
      else Ok(Select(t, PValueMask(o.pValueCol, o.pValueThresh)))
    else Ok(t)
  }

  /** A row survives the p-value restriction exactly when its p-value is a
      number strictly below the threshold, so a row at the threshold, or with
      NaN, is dropped (rows are unchanged and keep their order, by
      `Select`'s contract). */
  lemma RestrictPValueMembers(o: Options, t: Table)
    requires o.pValueThresh != 1.0 && RestrictPValue(o, t).Ok?
    ensures forall row :: row in RestrictPValue(o, t).value.rows <==>
              row in t.rows && Below(row, o.pValueCol, o.pValueThresh)
    ensures forall row :: o.pValueCol in row && row[o.pValueCol] == Num(o.pValueThresh) ==>
              row !in RestrictPValue(o, t).value.rows
  {
    var p := PValueMask(o.pValueCol, o.pValueThresh);
    var r := RestrictPValue(o, t).value;
    assert r.rows == Filter(t.rows, p);
    forall row | row in r.rows
      ensures row in t.rows && Below(row, o.pValueCol, o.pValueThresh)
    {
      var k :| 0 <= k < |r.rows| && r.rows[k] == row;
      assert p(r.rows[k]);
    }
    forall row | row in t.rows && Below(row, o.pValueCol, o.pValueThresh)
      ensures row in r.rows
    {
      var i :| 0 <= i < |t.rows| && t.rows[i] == row;
      assert p(t.rows[i]);
    }
  }

  /** The presence subset (`sensi_speci_filter.py`, lines 155-156): the rows strictly above both
      presence thresholds. */
  function Presence(o: Options, t: Table): (r: Table)
    ensures r.columns == t.columns
    ensures forall row :: row in r.rows <==>
              row in t.rows && Above(row, o.sensiPresenceCol, o.sensiPresenceThresh)
              && Above(row, o.speciPresenceCol, o.speciPresenceThresh)
  {
    SubsetMembers(t, o.sensiPresenceCol, o.sensiPresenceThresh, o.speciPresenceCol, o.speciPresenceThresh);
    Select(t, BothAbove(o.sensiPresenceCol, o.sensiPresenceThresh, o.speciPresenceCol, o.speciPresenceThresh))
  }

  /** The absence subset (`sensi_speci_filter.py`, lines 160-161): the rows strictly above both
      absence thresholds. */
  function Absence(o: Options, t: Table): (r: Table)
    ensures r.columns == t.columns
    ensures forall row :: row in r.rows <==>
              row in t.rows && Above(row, o.sensiAbsenceCol, o.sensiAbsenceThresh)
              && Above(row, o.speciAbsenceCol, o.speciAbsenceThresh)
  {
    SubsetMembers(t, o.sensiAbsenceCol, o.sensiAbsenceThresh, o.speciAbsenceCol, o.speciAbsenceThresh);
    Select(t, BothAbove(o.sensiAbsenceCol, o.sensiAbsenceThresh, o.speciAbsenceCol, o.speciAbsenceThresh))
  }

  /** Filtering a subset again by its own thresholds changes nothing. */
  lemma SubsetsIdempotent(o: Options, t: Table)
    ensures Presence(o, Presence(o, t)) == Presence(o, t)
    ensures Absence(o, Absence(o, t)) == Absence(o, t)
  {
    SelectFacts(t, BothAbove(o.sensiPresenceCol, o.sensiPresenceThresh, o.speciPresenceCol, o.speciPresenceThresh));
    SelectFacts(t, BothAbove(o.sensiAbsenceCol, o.sensiAbsenceThresh, o.speciAbsenceCol, o.speciAbsenceThresh));
  }

  /** A subset by two strict lower bounds holds exactly the rows of `t`
      that are above both thresholds (rows are unchanged and keep their
      order in `t`, by `Select`'s contract). */
  lemma SubsetMembers(t: Table, sc: string, st: real, pc: string, pt: real)
    ensures forall row :: row in Select(t, BothAbove(sc, st, pc, pt)).rows <==>
              row in t.rows && Above(row, sc, st) && Above(row, pc, pt)
  {
    var p := BothAbove(sc, st, pc, pt);
    var s := Select(t, p);
    assert s.rows == Filter(t.rows, p);
    forall row | row in s.rows
      ensures row in t.rows && Above(row, sc, st) && Above(row, pc, pt)
    {
      var k :| 0 <= k < |s.rows| && s.rows[k] == row;
      assert p(s.rows[k]);
    }
    forall row | row in t.rows && Above(row, sc, st) && Above(row, pc, pt)
      ensures row in s.rows
    {
      var i :| 0 <= i < |t.rows| && t.rows[i] == row;
      assert p(t.rows[i]);
    }
  }

  /** A row exactly at either threshold is not in the subset. */
  lemma SubsetExcludesBoundary(t: Table, sc: string, st: real, pc: string, pt: real, row: Row)
    requires (sc in row && row[sc] == Num(st)) || (pc in row && row[pc] == Num(pt))
    ensures row !in Select(t, BothAbove(sc, st, pc, pt)).rows
  {
    SubsetMembers(t, sc, st, pc, pt);
  }

  /** The two subsets are computed independently: one row can be in both. */
  lemma SubsetsMayOverlap()
    ensures var row: Row := map["sensi_1" := Num(0.5), "speci_1" := Num(0.99), "sensi_0" := Num(0.5), "speci_0" := Num(0.99)];
            var t := Table(["sensi_1", "speci_1", "sensi_0", "speci_0"], [row]);
            && Presence(Defaults("gwas"), t).rows == [row]
            && Absence(Defaults("gwas"), t).rows == [row]
  {
    var row: Row := map["sensi_1" := Num(0.5), "speci_1" := Num(0.99), "sensi_0" := Num(0.5), "speci_0" := Num(0.99)];
    var t := Table(["sensi_1", "speci_1", "sensi_0", "speci_0"], [row]);
    var o := Defaults("gwas");
    assert t.rows[..0] == [];
    assert BothAbove(o.sensiPresenceCol, o.sensiPresenceThresh, o.speciPresenceCol, o.speciPresenceThresh)(row);
    assert BothAbove(o.sensiAbsenceCol, o.sensiAbsenceThresh, o.speciAbsenceCol, o.speciAbsenceThresh)(row);
  }

  // ---------------------------------------------------------------------
  // Output names and the whole run
  // ---------------------------------------------------------------------

  const PresencePrefix: string := "presence_filtered_"
  const AbsencePrefix: string := "absence_filtered_"
  const Suffix: string := ".txt"

  /** The two output file names (`sensi_speci_filter.py`, lines 166-167). */
  function OutputNames(stem: string): (names: (string, string))
    ensures |names.0| == |PresencePrefix| + |stem| + |Suffix|
    ensures |names.1| == |AbsencePrefix| + |stem| + |Suffix|
    ensures names.0[..|PresencePrefix|] == PresencePrefix && names.1[..|AbsencePrefix|] == AbsencePrefix
    ensures names.0[|PresencePrefix|..|PresencePrefix| + |stem|] == stem
    ensures names.1[|AbsencePrefix|..|AbsencePrefix| + |stem|] == stem
    ensures names.0[|PresencePrefix| + |stem|..] == Suffix && names.1[|AbsencePrefix| + |stem|..] == Suffix
  {
    (PresencePrefix + stem + Suffix, AbsencePrefix + stem + Suffix)
  }

  /** The two outputs never share a name, and different stems give
      different names. */
  lemma OutputNamesDistinct(stem: string, other: string)
    ensures OutputNames(stem).0 != OutputNames(stem).1
    ensures OutputNames(stem) == OutputNames(other) ==> stem == other
  {
    assert OutputNames(stem).0[0] == 'p' && OutputNames(stem).1[0] == 'a';
    if OutputNames(stem) == OutputNames(other) {
      assert |stem| == |other|;
    }
  }

  /** The result of a run: the two subsets, to be written under the names
      `OutputNames(o.stem)`. */
  datatype Subsets = Subsets(presence: Table, absence: Table)

  /** The script from validation to the two subsets; the first check that
      fails decides the error. */
  function FilterGwas(o: Options, gwas: Table): (r: Result<Subsets, FilterError>)
    requires Comparable(o, gwas)
    ensures r.Ok? <==> && ValidateOptions(o).Ok? && MissingColumns(o, gwas) == {}
                       && RestrictPValue(o, gwas).Ok?
    ensures ValidateOptions(o).Err? ==> r == Err(ValidateOptions(o).error)
    ensures ValidateOptions(o).Ok? && MissingColumns(o, gwas) != {} ==> r == Err(ColumnsNotFound(MissingColumns(o, gwas)))
    ensures ValidateOptions(o).Ok? && MissingColumns(o, gwas) == {} && RestrictPValue(o, gwas).Err? ==>
              r == Err(RestrictPValue(o, gwas).error)
    ensures r.Ok? ==> && r.value.presence == Presence(o, RestrictPValue(o, gwas).value)
                      && r.value.absence == Absence(o, RestrictPValue(o, gwas).value)
  {
    match ValidateOptions(o)
    case Err(e) => Err(e)
    case Ok(_) =>
      var missing := MissingColumns(o, gwas);
      if missing != {} then Err(ColumnsNotFound(missing))
      else
        match RestrictPValue(o, gwas)
        case Err(e) => Err(e)
        case Ok(base) => Ok(Subsets(Presence(o, base), Absence(o, base)))
  }

  /** Both subsets of a run are subsequences of the same base table: the
      GWAS table after the optional p-value restriction, itself a
      subsequence of the GWAS table. Rows are unchanged, the columns are
      those of the GWAS table, and a well-formed table gives well-formed
      subsets. */
  lemma FilterGwasSubsequences(o: Options, gwas: Table)
    requires Comparable(o, gwas)
    requires FilterGwas(o, gwas).Ok?
    ensures var base := RestrictPValue(o, gwas).value;
            var ps := Positions(base.rows, BothAbove(o.sensiPresenceCol, o.sensiPresenceThresh, o.speciPresenceCol, o.speciPresenceThresh));
            var absPos := Positions(base.rows, BothAbove(o.sensiAbsenceCol, o.sensiAbsenceThresh, o.speciAbsenceCol, o.speciAbsenceThresh));
            var r := FilterGwas(o, gwas).value;
            && r.presence.columns == gwas.columns && r.absence.columns == gwas.columns
            && |r.presence.rows| == |ps| && |r.absence.rows| == |absPos|
            && (forall k :: 0 <= k < |ps| ==> r.presence.rows[k] == base.rows[ps[k]])
            && (forall k :: 0 <= k < |absPos| ==> r.absence.rows[k] == base.rows[absPos[k]])
            && (forall k :: 0 <= k < |base.rows| ==> base.rows[k] in gwas.rows)
            && (WellFormed(gwas) ==> WellFormed(r.presence) && WellFormed(r.absence))
  {
    var base := RestrictPValue(o, gwas).value;
    if o.pValueThresh != 1.0 {
      var p := PValueMask(o.pValueCol, o.pValueThresh);
      SelectFacts(gwas, p);
      forall k | 0 <= k < |base.rows| ensures base.rows[k] in gwas.rows {
        assert base.rows[k] == gwas.rows[Positions(gwas.rows, p)[k]];
      }
    }
    SelectFacts(base, BothAbove(o.sensiPresenceCol, o.sensiPresenceThresh, o.speciPresenceCol, o.speciPresenceThresh));
    SelectFacts(base, BothAbove(o.sensiAbsenceCol, o.sensiAbsenceThresh, o.speciAbsenceCol, o.speciAbsenceThresh));
  }
}
