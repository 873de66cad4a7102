/** The statistics engine: partitions the samples by a binary phenotype,
    counts per variant how many samples of each group carry (1) or lack (0)
    the variant in the presence/absence matrix, and appends four ratios and
    four raw counts to the GWAS table, in place. */
module SensiSpeci {
  import opened Seqs
  import opened Tables
  import opened Results

  // ---------------------------------------------------------------------
  // Inputs
  // ---------------------------------------------------------------------

  /** One row of the presence/absence matrix: a gene identifier and one cell
      per sample column (1 = present, 0 = absent). */
  datatype MatrixRow = MatrixRow(id: string, cells: seq<int>)

  /** The presence/absence matrix: sample column names and rows in file order.
      Row identifiers need not be unique. */
  datatype Matrix = Matrix(samples: seq<string>, rows: seq<MatrixRow>)

  ghost predicate Rectangular(m: Matrix)
  {
    forall i :: 0 <= i < |m.rows| ==> |m.rows[i].cells| == |m.samples|
  }

  ghost predicate BinaryMatrix(m: Matrix)
  {
    forall i :: 0 <= i < |m.rows| ==> Binary(m.rows[i].cells)
  }

  /** One row of the phenotype table: the sample (the index column) and its
      phenotype values by column. A column missing from `values` is an empty
      cell, which equals neither 0 nor 1. */
  datatype PhenoRow = PhenoRow(sample: string, values: map<string, int>)

  datatype PhenoTable = PhenoTable(columns: seq<string>, rows: seq<PhenoRow>)

  // ---------------------------------------------------------------------
  // Partition of the samples
  // ---------------------------------------------------------------------

  /** The mask `df_pheno[col] == v`. */
  function HasValue(col: string, v: int): PhenoRow -> bool
  {
    (r: PhenoRow) => col in r.values && r.values[col] == v
  }

  /** `df_pheno[df_pheno[col] == v].index`: the samples whose phenotype `col`
      equals `v`, in table order. */
  function Group(p: PhenoTable, col: string, v: int): (g: seq<string>)
    ensures |g| <= |p.rows|
  {
    var ix := Positions(p.rows, HasValue(col, v));
    seq(|ix|, k requires 0 <= k < |ix| => p.rows[ix[k]].sample)
  }

  /** A sample is in the group for `v` exactly when one of its rows has
      phenotype `v` in column `col`: a sample whose value is anything else, or
      empty, is left out. */
  lemma GroupMembers(p: PhenoTable, col: string, v: int)
    ensures forall s :: s in Group(p, col, v) <==>
              exists i :: 0 <= i < |p.rows| && p.rows[i].sample == s && HasValue(col, v)(p.rows[i])
  {
    var ix := Positions(p.rows, HasValue(col, v));
    var g := Group(p, col, v);
    forall s | s in g
      ensures exists i :: 0 <= i < |p.rows| && p.rows[i].sample == s && HasValue(col, v)(p.rows[i])
    {
      var k :| 0 <= k < |g| && g[k] == s;
      assert p.rows[ix[k]].sample == s;
    }
    forall i | 0 <= i < |p.rows| && HasValue(col, v)(p.rows[i])
      ensures p.rows[i].sample in g
    {
      var k :| 0 <= k < |ix| && ix[k] == i;
      assert g[k] == p.rows[i].sample;
    }
  }

  /** The group of interest: phenotype 1. */
  function Interest(p: PhenoTable, col: string): seq<string>
  {
    Group(p, col, 1)
  }

  /** The compared group: phenotype 0. */
  function Compared(p: PhenoTable, col: string): seq<string>
  {
    Group(p, col, 0)
  }

  /** With unique sample identifiers no sample is in both groups. */
  lemma PartitionDisjoint(p: PhenoTable, col: string)
    requires forall i, j :: 0 <= i < j < |p.rows| ==> p.rows[i].sample != p.rows[j].sample
    ensures forall s :: s in Interest(p, col) ==> s !in Compared(p, col)
  {
    GroupMembers(p, col, 1);
    GroupMembers(p, col, 0);
    forall s | s in Interest(p, col)
      ensures s !in Compared(p, col)
    {
      var i :| 0 <= i < |p.rows| && p.rows[i].sample == s && HasValue(col, 1)(p.rows[i]);
      forall j | 0 <= j < |p.rows| && p.rows[j].sample == s
        ensures !HasValue(col, 0)(p.rows[j])
      {
        assert j == i;
      }
    }
  }

  // ---------------------------------------------------------------------
  // Column selection and counting
  // ---------------------------------------------------------------------

  /** Every sample of the group is a column of the matrix. */
  ghost predicate InMatrix(m: Matrix, group: seq<string>)
  {
    forall k :: 0 <= k < |group| ==> group[k] in m.samples
  }

  /** The cells of `row` under the columns `group`, in the order of `group`. */
  function SelectCells(row: MatrixRow, samples: seq<string>, group: seq<string>): (c: seq<int>)
    requires |row.cells| == |samples|
    requires forall k :: 0 <= k < |group| ==> group[k] in samples
  {
    seq(|group|, k requires 0 <= k < |group| => row.cells[IndexOf(samples, group[k])])
  }

  /** `df_rtab[group]`: the matrix restricted to the columns of the group. */
  function SelectColumns(m: Matrix, group: seq<string>): (r: Matrix)
    requires Rectangular(m) && InMatrix(m, group)
    ensures Rectangular(r) && r.samples == group && |r.rows| == |m.rows|
    ensures forall i :: 0 <= i < |m.rows| ==> r.rows[i].id == m.rows[i].id
  {
    Matrix(group, seq(|m.rows|, i requires 0 <= i < |m.rows| =>
             MatrixRow(m.rows[i].id, SelectCells(m.rows[i], m.samples, group))))
  }

  /** The mask `df_rtab.index.isin(relevant)`. */
  function IdIn(relevant: set<string>): MatrixRow -> bool
  {
    (r: MatrixRow) => r.id in relevant
  }

  /** Restricting the columns keeps the same rows selected by identifier. */
  lemma SelectKeepsPositions(m: Matrix, group: seq<string>, relevant: set<string>)
    requires Rectangular(m) && InMatrix(m, group)
    ensures Positions(SelectColumns(m, group).rows, IdIn(relevant)) == Positions(m.rows, IdIn(relevant))
  {
    PositionsAgree(SelectColumns(m, group).rows, IdIn(relevant), m.rows, IdIn(relevant));
  }

  /** A 0/1 matrix stays 0/1 when columns are selected. */
  lemma SelectBinary(m: Matrix, group: seq<string>)
    requires Rectangular(m) && InMatrix(m, group) && BinaryMatrix(m)
    ensures BinaryMatrix(SelectColumns(m, group))
  {
    var r := SelectColumns(m, group);
    forall i | 0 <= i < |r.rows|
      ensures Binary(r.rows[i].cells)
    {
      forall k | 0 <= k < |group|
        ensures r.rows[i].cells[k] == 0 || r.rows[i].cells[k] == 1
      {
        assert r.rows[i].cells[k] == m.rows[i].cells[IndexOf(m.samples, group[k])];
      }
    }
  }

  /** `df_rtab[df_rtab.index.isin(relevant)]`: the rows whose identifier is
      in `relevant`, unchanged and in matrix order. */
  function KeptRows(m: Matrix, relevant: set<string>): (r: seq<MatrixRow>)
    ensures |r| == |Positions(m.rows, IdIn(relevant))|
    ensures forall k :: 0 <= k < |r| ==> r[k] == m.rows[Positions(m.rows, IdIn(relevant))[k]]
  {
    FilterAtPositions(m.rows, IdIn(relevant));
    Filter(m.rows, IdIn(relevant))
  }

  /** `get_mutation_count`: for each matrix row whose identifier is in
      `relevant`, and for no other row, in matrix order, the number of cells
      of that row equal to `mutation`; each count is at most the number of
      sample columns. */
  function MutationCount(m: Matrix, relevant: set<string>, mutation: int): (r: seq<nat>)
    ensures |r| == |Positions(m.rows, IdIn(relevant))|
    ensures forall k :: 0 <= k < |r| ==>
              r[k] == Count(m.rows[Positions(m.rows, IdIn(relevant))[k]].cells, mutation)
    ensures Rectangular(m) ==> forall k :: 0 <= k < |r| ==> r[k] <= |m.samples|
  {
    var kept := KeptRows(m, relevant);
    RowCounts(kept, mutation);
    seq(|kept|, k requires 0 <= k < |kept| => MaskSum(kept[k].cells, mutation))
  }

  /** Each row's mask sum is the number of its cells equal to `mutation`,
      and at most the row's length. */
  lemma RowCounts(rows: seq<MatrixRow>, mutation: int)
    ensures forall k :: 0 <= k < |rows| ==> MaskSum(rows[k].cells, mutation) == Count(rows[k].cells, mutation)
    ensures forall k :: 0 <= k < |rows| ==> Count(rows[k].cells, mutation) <= |rows[k].cells|
  {
    forall k | 0 <= k < |rows|
      ensures MaskSum(rows[k].cells, mutation) == Count(rows[k].cells, mutation) <= |rows[k].cells|
    {
      MaskSumIsCount(rows[k].cells, mutation);
      CountBound(rows[k].cells, mutation);
    }
  }

  /** `get_binary_classif` (unused by the script): the row sums of the kept
      rows divided by the group size, or, for specificity, the complement
      `(size - sum) / size`. */
  function BinaryClassif(m: Matrix, relevant: set<string>, phenotypeSize: nat, specificity: bool): (r: seq<real>)
    requires phenotypeSize > 0
    ensures |r| == |Positions(m.rows, IdIn(relevant))|
  {
    var kept := KeptRows(m, relevant);
    seq(|kept|, k requires 0 <= k < |kept| => Classify(Sum(kept[k].cells), phenotypeSize, specificity))
  }

  /** One value of `get_binary_classif` from a row sum. */
  function Classify(total: int, phenotypeSize: nat, specificity: bool): real
    requires phenotypeSize > 0
  {
    if specificity then Share(phenotypeSize - total, phenotypeSize)
    else Share(total, phenotypeSize)
  }

  // ---------------------------------------------------------------------
  // The eight derived columns
  // ---------------------------------------------------------------------

  /** `counts / size`, one ratio per count. */
  function Ratios(counts: seq<nat>, size: nat): (r: seq<Cell>)
    ensures |r| == |counts|
  {
    seq(|counts|, k requires 0 <= k < |counts| => Ratio(counts[k], size))
  }

  /** Over a non-empty group each ratio is a number that times the size
      gives back its count; over an empty group every ratio is NaN. */
  lemma RatiosScale(counts: seq<nat>, size: nat)
    ensures size == 0 ==> forall k :: 0 <= k < |counts| ==> Ratios(counts, size)[k] == NaN
    ensures size > 0 ==> forall k :: 0 <= k < |counts| ==>
              Ratios(counts, size)[k].Num? && Ratios(counts, size)[k].x * size as real == counts[k] as real
  {
    if size > 0 {
      forall k | 0 <= k < |counts|
        ensures Ratios(counts, size)[k].x * size as real == counts[k] as real
      {
        assert Ratios(counts, size)[k].x == Share(counts[k], size);
        ShareScale(counts[k], size);
      }
    }
  }

  /** A share times the whole gives back the part. */
  lemma ShareScale(part: int, size: nat)
    requires size > 0
    ensures Share(part, size) * size as real == part as real
  {
  }

  /** One count divided by a group size. The source divides without a guard:
      over an empty group every count is 0 and the float quotient 0 / 0 is
      NaN. */
  function Ratio(part: nat, size: nat): Cell
  {
    if size == 0 then NaN else Num(Share(part, size))
  }

  /** `part / size` as a real number. */
  function Share(part: int, size: nat): real
    requires size > 0
  {
    part as real / size as real
  }

  /** The counts themselves, as cells. */
  function Counts(counts: seq<nat>): (r: seq<Cell>)
    ensures |r| == |counts|
  {
    seq(|counts|, k requires 0 <= k < |counts| => Num(counts[k] as real))
  }

  /** Division by a positive number distributes over subtraction, and a
      positive number divided by itself is 1. */
  lemma DivSub(a: real, b: real, n: real)
    requires n > 0.0
    ensures (a - b) / n == a / n - b / n
    ensures n / n == 1.0
  {
    assert (a - b) / n == (a - b) * (1.0 / n);
    assert a / n == a * (1.0 / n);
    assert b / n == b * (1.0 / n);
  }

  /** For a row with `c1` ones and `c0` zeros over `n` samples, the plain
      form is the share of ones and the complement form the share of zeros. */
  lemma ClassifyForms(c1: nat, c0: nat, n: nat)
    requires c1 + c0 == n > 0
    ensures Classify(c1, n, false) == Share(c1, n)
    ensures Classify(c1, n, true) == Share(c0, n)
    ensures Classify(c1, n, true) == 1.0 - Share(c1, n)
  {
    DivSub(n as real, c1 as real, n as real);
  }

  /** The complement form agrees with the count form on a 0/1 matrix whose
      columns are the group: the plain form is the share of 1s (`sensi_1`),
      the specificity form `1 - count1 / size` is the share of 0s
      (`speci_1`). */
  lemma ComplementAgrees(m: Matrix, relevant: set<string>)
    requires Rectangular(m) && BinaryMatrix(m) && |m.samples| > 0
    ensures forall k :: 0 <= k < |Positions(m.rows, IdIn(relevant))| ==>
              Num(BinaryClassif(m, relevant, |m.samples|, false)[k]) == Ratios(MutationCount(m, relevant, 1), |m.samples|)[k]
    ensures forall k :: 0 <= k < |Positions(m.rows, IdIn(relevant))| ==>
              Num(BinaryClassif(m, relevant, |m.samples|, true)[k]) == Ratios(MutationCount(m, relevant, 0), |m.samples|)[k]
  {
    forall k | 0 <= k < |Positions(m.rows, IdIn(relevant))|
      ensures Num(BinaryClassif(m, relevant, |m.samples|, false)[k]) == Ratios(MutationCount(m, relevant, 1), |m.samples|)[k]
      ensures Num(BinaryClassif(m, relevant, |m.samples|, true)[k]) == Ratios(MutationCount(m, relevant, 0), |m.samples|)[k]
    {
      ComplementAt(m, relevant, k);
    }
  }

  /** `ComplementAgrees` at one kept row. */
  lemma ComplementAt(m: Matrix, relevant: set<string>, k: nat)
    requires Rectangular(m) && BinaryMatrix(m) && |m.samples| > 0
    requires k < |Positions(m.rows, IdIn(relevant))|
    ensures Num(BinaryClassif(m, relevant, |m.samples|, false)[k]) == Ratios(MutationCount(m, relevant, 1), |m.samples|)[k]
    ensures Num(BinaryClassif(m, relevant, |m.samples|, true)[k]) == Ratios(MutationCount(m, relevant, 0), |m.samples|)[k]
  {
    var cells := KeptCells(m, relevant, k);
    var n := |m.samples|;
    SumBinary(cells);
    CountBinary(cells);
    ClassifyForms(Count(cells, 1), Count(cells, 0), n);
  }

  /** The cells of the k-th kept row, as both forms see them. */
  lemma KeptCells(m: Matrix, relevant: set<string>, k: nat) returns (cells: seq<int>)
    requires Rectangular(m) && BinaryMatrix(m) && |m.samples| > 0
    requires k < |Positions(m.rows, IdIn(relevant))|
    ensures Binary(cells) && |cells| == |m.samples|
    ensures BinaryClassif(m, relevant, |m.samples|, false)[k] == Classify(Sum(cells), |m.samples|, false)
    ensures BinaryClassif(m, relevant, |m.samples|, true)[k] == Classify(Sum(cells), |m.samples|, true)
    ensures MutationCount(m, relevant, 1)[k] == Count(cells, 1)
    ensures MutationCount(m, relevant, 0)[k] == Count(cells, 0)
  {
    cells := KeptRows(m, relevant)[k].cells;
  }


  /** The names of the appended columns, in the order the script assigns them. */
  const StatNames: seq<string> := ["sensi_1", "sensi_0", "speci_1", "speci_0",
    "mutation_in_interest", "mutation_not_in_interest",
    "mutation_in_compared", "mutation_not_in_compared"]

  /** The eight column assignments of the script, for the variants
      `variants`, the matrix `rtab` and the two groups. */
  function StatColumns(variants: set<string>, rtab: Matrix, interest: seq<string>, compared: seq<string>)
    : (cols: seq<(string, seq<Cell>)>)
    requires Rectangular(rtab) && InMatrix(rtab, interest) && InMatrix(rtab, compared)
    ensures Names(cols) == StatNames
    ensures forall j :: 0 <= j < |cols| ==> |cols[j].1| == |Positions(rtab.rows, IdIn(variants))|
  {
    var pres, abs := SelectColumns(rtab, interest), SelectColumns(rtab, compared);
    SelectKeepsPositions(rtab, interest, variants);
    SelectKeepsPositions(rtab, compared, variants);
    Assignments(MutationCount(pres, variants, 1), MutationCount(pres, variants, 0),
                MutationCount(abs, variants, 1), MutationCount(abs, variants, 0), |interest|, |compared|)
  }

  /** The eight assignments of `pyseer_sensi_speci.py`, lines 130-143, for the four count vectors:
      ones and zeros in the group of interest, ones and zeros in the
      compared group. */
  function Assignments(in1: seq<nat>, in0: seq<nat>, cmp1: seq<nat>, cmp0: seq<nat>, nI: nat, nC: nat)
    : (cols: seq<(string, seq<Cell>)>)
    requires |in0| == |in1| && |cmp1| == |in1| && |cmp0| == |in1|
    ensures Names(cols) == StatNames
    ensures forall j :: 0 <= j < |cols| ==> |cols[j].1| == |in1|
  {
    [("sensi_1", Ratios(in1, nI)),
     ("sensi_0", Ratios(in0, nI)),
     ("speci_1", Ratios(cmp0, nC)),
     ("speci_0", Ratios(cmp1, nC)),
     ("mutation_in_interest", Counts(in1)),
     ("mutation_not_in_interest", Counts(in0)),
     ("mutation_in_compared", Counts(cmp1)),
     ("mutation_not_in_compared", Counts(cmp0))]
  }

  /** The first two assignments, which need only the group of interest. */
  function SensiColumns(variants: set<string>, rtab: Matrix, interest: seq<string>)
    : (cols: seq<(string, seq<Cell>)>)
    requires Rectangular(rtab) && InMatrix(rtab, interest)
    ensures Names(cols) == StatNames[..2]
    ensures forall j :: 0 <= j < |cols| ==> |cols[j].1| == |Positions(rtab.rows, IdIn(variants))|
  {
    var pres := SelectColumns(rtab, interest);
    SelectKeepsPositions(rtab, interest, variants);
    [("sensi_1", Ratios(MutationCount(pres, variants, 1), |interest|)),
     ("sensi_0", Ratios(MutationCount(pres, variants, 0), |interest|))]
  }

  /** The sensitivity columns are the first two of the eight. */
  lemma SensiColumnsPrefix(variants: set<string>, rtab: Matrix, interest: seq<string>, compared: seq<string>)
    requires Rectangular(rtab) && InMatrix(rtab, interest) && InMatrix(rtab, compared)
    ensures StatColumns(variants, rtab, interest, compared)[..2] == SensiColumns(variants, rtab, interest)
  {
  }

  /** `df_gwas["variant"]`, as the set of identifiers `isin` matches against
      (a cell that is not text matches no matrix identifier). */
  function VariantSet(t: Table): set<string>
  {
    set i | 0 <= i < |t.rows| && "variant" in t.rows[i] && t.rows[i]["variant"].Str? :: t.rows[i]["variant"].s
  }

  /** The positional `list(...)` assignment needs as many kept matrix rows as
      GWAS rows. */
  ghost predicate LengthsMatch(gwas: Table, rtab: Matrix)
  {
    |Positions(rtab.rows, IdIn(VariantSet(gwas)))| == |gwas.rows|
  }

  /** Precondition shared by the functions that build the augmented table. */
  ghost predicate Computable(gwas: Table, rtab: Matrix, interest: seq<string>, compared: seq<string>)
  {
    && Rectangular(rtab) && InMatrix(rtab, interest) && InMatrix(rtab, compared)
    && LengthsMatch(gwas, rtab)
  }

  /** The GWAS table after the eight assignments. */
  function Augmented(gwas: Table, rtab: Matrix, interest: seq<string>, compared: seq<string>): (r: Table)
    requires Computable(gwas, rtab, interest, compared)
    ensures |r.rows| == |gwas.rows|
  {
    AssignAll(gwas, StatColumns(VariantSet(gwas), rtab, interest, compared))
  }

  /** The eight names are distinct, and none is the variant column. */
  lemma StatNamesDistinct()
    ensures Distinct(StatNames) && "variant" !in StatNames
  {
  }

  /** Two tables whose rows agree on the variant cell match the same matrix
      rows. */
  lemma VariantSetAgree(t: Table, u: Table)
    requires |t.rows| == |u.rows|
    requires forall i :: 0 <= i < |t.rows| ==> ("variant" in t.rows[i] <==> "variant" in u.rows[i])
    requires forall i :: 0 <= i < |t.rows| && "variant" in t.rows[i] ==> t.rows[i]["variant"] == u.rows[i]["variant"]
    ensures VariantSet(t) == VariantSet(u)
  {
    forall x | x in VariantSet(t) ensures x in VariantSet(u) {
      var i :| 0 <= i < |t.rows| && "variant" in t.rows[i] && t.rows[i]["variant"].Str? && t.rows[i]["variant"].s == x;
      assert u.rows[i]["variant"].s == x;
    }
    forall x | x in VariantSet(u) ensures x in VariantSet(t) {
      var i :| 0 <= i < |u.rows| && "variant" in u.rows[i] && u.rows[i]["variant"].Str? && u.rows[i]["variant"].s == x;
      assert t.rows[i]["variant"].s == x;
    }
  }

  /** Assigning any column other than `variant` leaves the variants, and so
      the matched matrix rows, as they were. */
  lemma WithColumnKeepsVariants(t: Table, name: string, values: seq<Cell>)
    requires |values| == |t.rows| && name != "variant"
    ensures VariantSet(WithColumn(t, name, values)) == VariantSet(t)
  {
    VariantSetAgree(t, WithColumn(t, name, values));
  }

  /** The augmented table keeps the rows of the GWAS table, in order, with
      their cells under every other column unchanged; it has the eight
      columns in addition; and when none of them was a column before, they
      are appended after the original columns in the order assigned. */
  lemma AugmentedShape(gwas: Table, rtab: Matrix, interest: seq<string>, compared: seq<string>)
    requires WellFormed(gwas) && Computable(gwas, rtab, interest, compared)
    ensures WellFormed(Augmented(gwas, rtab, interest, compared))
    ensures |Augmented(gwas, rtab, interest, compared).rows| == |gwas.rows|
    ensures ColumnSet(Augmented(gwas, rtab, interest, compared)) == ColumnSet(gwas) + (set c | c in StatNames)
    ensures (forall j :: 0 <= j < |StatNames| ==> StatNames[j] !in gwas.columns)
            ==> Augmented(gwas, rtab, interest, compared).columns == gwas.columns + StatNames
    ensures forall i, c :: 0 <= i < |gwas.rows| && c in gwas.rows[i] && c !in StatNames ==>
              c in Augmented(gwas, rtab, interest, compared).rows[i]
              && Augmented(gwas, rtab, interest, compared).rows[i][c] == gwas.rows[i][c]
  {
    var cols := StatColumns(VariantSet(gwas), rtab, interest, compared);
    StatNamesDistinct();
    AssignAllColumns(gwas, cols);
    AssignAllValues(gwas, cols);
    if forall j :: 0 <= j < |StatNames| ==> StatNames[j] !in gwas.columns {
      forall j | 0 <= j < |cols| ensures cols[j].0 !in gwas.columns {
        assert Names(cols)[j] == cols[j].0;
      }
      AssignAllAppends(gwas, cols);
    }
  }

  /** The row has a cell under each of the eight names. */
  ghost predicate HasStatColumns(r: Row)
  {
    && "sensi_1" in r && "sensi_0" in r && "speci_1" in r && "speci_0" in r
    && "mutation_in_interest" in r && "mutation_not_in_interest" in r
    && "mutation_in_compared" in r && "mutation_not_in_compared" in r
  }

  /** What one row holds for one group of `size` samples, of which `ones`
      have a 1 and `zeros` a 0 in the counted matrix row: the shares of 1s
      and of 0s (NaN when the group is empty) and the two counts. */
  ghost predicate GroupStats(r: Row, onesShare: string, zerosShare: string, onesCount: string, zerosCount: string,
                             ones: nat, zeros: nat, size: nat)
  {
    && onesShare in r && zerosShare in r && onesCount in r && zerosCount in r
    && r[onesShare] == Ratio(ones, size) && r[zerosShare] == Ratio(zeros, size)
    && r[onesCount] == Num(ones as real) && r[zerosCount] == Num(zeros as real)
  }

  /** What one row of the augmented table holds, for the matrix row `mr`
      counted into it: over the cells of `mr` under the group of interest,
      `sensi_1` and `mutation_in_interest` for the 1s and `sensi_0` and
      `mutation_not_in_interest` for the 0s; over those under the compared
      group, `speci_0` and `mutation_in_compared` for the 1s and `speci_1`
      and `mutation_not_in_compared` for the 0s. */
  ghost predicate RowStats(r: Row, mr: MatrixRow, samples: seq<string>, interest: seq<string>, compared: seq<string>)
  {
    && |mr.cells| == |samples|
    && (forall k :: 0 <= k < |interest| ==> interest[k] in samples)
    && (forall k :: 0 <= k < |compared| ==> compared[k] in samples)
    && var ci, cc := SelectCells(mr, samples, interest), SelectCells(mr, samples, compared);
       && GroupStats(r, "sensi_1", "sensi_0", "mutation_in_interest", "mutation_not_in_interest",
                     Count(ci, 1), Count(ci, 0), |interest|)
       && GroupStats(r, "speci_0", "speci_1", "mutation_in_compared", "mutation_not_in_compared",
                     Count(cc, 1), Count(cc, 0), |compared|)
  }

  /** Row `i` of the augmented table holds the statistics of the `i`-th
      matrix row whose identifier is a GWAS variant (the assignment is
      positional). */
  lemma AugmentedValues(gwas: Table, rtab: Matrix, interest: seq<string>, compared: seq<string>)
    requires Computable(gwas, rtab, interest, compared)
    ensures forall i :: 0 <= i < |gwas.rows| ==>
              RowStats(Augmented(gwas, rtab, interest, compared).rows[i],
                       rtab.rows[Positions(rtab.rows, IdIn(VariantSet(gwas)))[i]], rtab.samples, interest, compared)
  {
    forall i | 0 <= i < |gwas.rows|
      ensures RowStats(Augmented(gwas, rtab, interest, compared).rows[i],
                       rtab.rows[Positions(rtab.rows, IdIn(VariantSet(gwas)))[i]], rtab.samples, interest, compared)
    {
      AugmentedRow(gwas, rtab, interest, compared, i);
    }
  }

  /** `AugmentedValues` at one row. */
  lemma AugmentedRow(gwas: Table, rtab: Matrix, interest: seq<string>, compared: seq<string>, i: nat)
    requires Computable(gwas, rtab, interest, compared) && i < |gwas.rows|
    ensures RowStats(Augmented(gwas, rtab, interest, compared).rows[i],
                     rtab.rows[Positions(rtab.rows, IdIn(VariantSet(gwas)))[i]], rtab.samples, interest, compared)
  {
    var v := VariantSet(gwas);
    var pres, abs := SelectColumns(rtab, interest), SelectColumns(rtab, compared);
    var in1, in0 := MutationCount(pres, v, 1), MutationCount(pres, v, 0);
    var cmp1, cmp0 := MutationCount(abs, v, 1), MutationCount(abs, v, 0);
    SelectKeepsPositions(rtab, interest, v);
    SelectKeepsPositions(rtab, compared, v);
    var cols := Assignments(in1, in0, cmp1, cmp0, |interest|, |compared|);
    assert cols == StatColumns(v, rtab, interest, compared);
    AssignedRow(gwas, cols, i);
    AssignmentsAt(in1, in0, cmp1, cmp0, |interest|, |compared|, i);
    GroupCountAt(rtab, interest, v, i, 1);
    GroupCountAt(rtab, interest, v, i, 0);
    GroupCountAt(rtab, compared, v, i, 1);
    GroupCountAt(rtab, compared, v, i, 0);
  }

  /** Row `i` after the eight assignments holds the i-th value of each. */
  lemma AssignedRow(t: Table, cols: seq<(string, seq<Cell>)>, i: nat)
    requires Fits(t, cols) && Names(cols) == StatNames && i < |t.rows|
    ensures HasStatColumns(AssignAll(t, cols).rows[i])
    ensures forall j :: 0 <= j < 8 ==> AssignAll(t, cols).rows[i][StatNames[j]] == cols[j].1[i]
  {
    StatNamesDistinct();
    AssignAllValues(t, cols);
    var row := AssignAll(t, cols).rows[i];
    forall j | 0 <= j < 8
      ensures StatNames[j] in row && row[StatNames[j]] == cols[j].1[i]
    {
      assert Names(cols)[j] == cols[j].0;
      assert cols[j].0 in row && row[cols[j].0] == cols[j].1[i];
    }
    assert StatNames[0] in row && StatNames[1] in row && StatNames[2] in row && StatNames[3] in row;
    assert StatNames[4] in row && StatNames[5] in row && StatNames[6] in row && StatNames[7] in row;
  }

  /** The third and fourth of the eight assignments. */
  lemma StatColumnsSpeci(v: set<string>, rtab: Matrix, presence: seq<string>, absence: seq<string>)
    requires Rectangular(rtab) && InMatrix(rtab, presence) && InMatrix(rtab, absence)
    ensures var cols, abs := StatColumns(v, rtab, presence, absence), SelectColumns(rtab, absence);
            && |cols| == 8
            && cols[2] == ("speci_1", Ratios(MutationCount(abs, v, 0), |absence|))
            && cols[3] == ("speci_0", Ratios(MutationCount(abs, v, 1), |absence|))
  {
    SelectKeepsPositions(rtab, presence, v);
    SelectKeepsPositions(rtab, absence, v);
  }

  /** The last four of the eight assignments. */
  lemma StatColumnsCounts(v: set<string>, rtab: Matrix, presence: seq<string>, absence: seq<string>)
    requires Rectangular(rtab) && InMatrix(rtab, presence) && InMatrix(rtab, absence)
    ensures var cols, pres, abs := StatColumns(v, rtab, presence, absence), SelectColumns(rtab, presence), SelectColumns(rtab, absence);
            && |cols| == 8
            && cols[4] == ("mutation_in_interest", Counts(MutationCount(pres, v, 1)))
            && cols[5] == ("mutation_not_in_interest", Counts(MutationCount(pres, v, 0)))
            && cols[6] == ("mutation_in_compared", Counts(MutationCount(abs, v, 1)))
            && cols[7] == ("mutation_not_in_compared", Counts(MutationCount(abs, v, 0)))
  {
    SelectKeepsPositions(rtab, presence, v);
    SelectKeepsPositions(rtab, absence, v);
  }

  /** The i-th value of each of the eight assignments. */
  lemma AssignmentsAt(in1: seq<nat>, in0: seq<nat>, cmp1: seq<nat>, cmp0: seq<nat>, nI: nat, nC: nat, i: nat)
    requires |in0| == |in1| && |cmp1| == |in1| && |cmp0| == |in1| && i < |in1|
    ensures Assignments(in1, in0, cmp1, cmp0, nI, nC)[0].1[i] == Ratio(in1[i], nI)
    ensures Assignments(in1, in0, cmp1, cmp0, nI, nC)[1].1[i] == Ratio(in0[i], nI)
    ensures Assignments(in1, in0, cmp1, cmp0, nI, nC)[2].1[i] == Ratio(cmp0[i], nC)
    ensures Assignments(in1, in0, cmp1, cmp0, nI, nC)[3].1[i] == Ratio(cmp1[i], nC)
    ensures Assignments(in1, in0, cmp1, cmp0, nI, nC)[4].1[i] == Num(in1[i] as real)
    ensures Assignments(in1, in0, cmp1, cmp0, nI, nC)[5].1[i] == Num(in0[i] as real)
    ensures Assignments(in1, in0, cmp1, cmp0, nI, nC)[6].1[i] == Num(cmp1[i] as real)
    ensures Assignments(in1, in0, cmp1, cmp0, nI, nC)[7].1[i] == Num(cmp0[i] as real)
  {
  }

  /** The i-th count over a group is the count over the cells of the i-th
      kept matrix row under the group's columns. */
  lemma GroupCountAt(rtab: Matrix, group: seq<string>, v: set<string>, i: nat, mutation: int)
    requires Rectangular(rtab) && InMatrix(rtab, group) && i < |Positions(rtab.rows, IdIn(v))|
    ensures i < |MutationCount(SelectColumns(rtab, group), v, mutation)|
    ensures MutationCount(SelectColumns(rtab, group), v, mutation)[i]
            == Count(SelectCells(rtab.rows[Positions(rtab.rows, IdIn(v))[i]], rtab.samples, group), mutation)
  {
    SelectKeepsPositions(rtab, group, v);
    var ix := Positions(rtab.rows, IdIn(v));
    assert SelectColumns(rtab, group).rows[ix[i]].cells == SelectCells(rtab.rows[ix[i]], rtab.samples, group);
  }

  /** A share of at most the whole lies in [0, 1] and times the whole gives
      back the part; shares of parts that make up the whole add up to 1. */
  lemma ShareFacts(a: nat, b: nat, n: nat)
    requires a <= n && b <= n && n > 0
    ensures 0.0 <= Share(a, n) <= 1.0
    ensures Share(a, n) * n as real == a as real
    ensures a + b == n ==> Share(a, n) + Share(b, n) == 1.0
  {
    DivSub(n as real, b as real, n as real);
  }

  /** A ratio cell holding a number in [0, 1]. */
  ghost predicate InUnit(c: Cell)
  {
    c.Num? && 0.0 <= c.x <= 1.0
  }

  /** The count cell holds the ratio cell's number times the group size. */
  ghost predicate Scaled(count: Cell, ratio: Cell, size: nat)
  {
    ratio.Num? && count == Num(ratio.x * size as real)
  }

  /** Two ratio cells whose numbers add up to 1. */
  ghost predicate Complementary(a: Cell, b: Cell)
  {
    a.Num? && b.Num? && a.x + b.x == 1.0
  }

  /** The properties of each row over non-empty groups:
      every ratio is a number in [0, 1]; each raw count is its ratio times
      the group size (speci_1 and speci_0 count 0s and 1s of the compared
      group); and on a 0/1 matrix the two sensitivities, and the two
      specificities, add up to 1, so the complement form
      `1 - count1 / size` of the comment gives the same speci_1. */
  lemma RowStatsFacts(r: Row, mr: MatrixRow, samples: seq<string>, interest: seq<string>, compared: seq<string>)
    requires RowStats(r, mr, samples, interest, compared) && |interest| > 0 && |compared| > 0
    ensures InUnit(r["sensi_1"]) && InUnit(r["sensi_0"]) && InUnit(r["speci_1"]) && InUnit(r["speci_0"])
    ensures Scaled(r["mutation_in_interest"], r["sensi_1"], |interest|)
    ensures Scaled(r["mutation_not_in_interest"], r["sensi_0"], |interest|)
    ensures Scaled(r["mutation_not_in_compared"], r["speci_1"], |compared|)
    ensures Scaled(r["mutation_in_compared"], r["speci_0"], |compared|)
    ensures Binary(mr.cells) ==> Complementary(r["sensi_1"], r["sensi_0"]) && Complementary(r["speci_1"], r["speci_0"])
  {
    var ci, cc := SelectCells(mr, samples, interest), SelectCells(mr, samples, compared);
    CountBound(ci, 1);
    CountBound(ci, 0);
    CountBound(cc, 1);
    CountBound(cc, 0);
    if Binary(mr.cells) {
      SelectedBinary(mr, samples, interest);
      SelectedBinary(mr, samples, compared);
      CountBinary(ci);
      CountBinary(cc);
    }
    GroupStatsFacts(r, "sensi_1", "sensi_0", "mutation_in_interest", "mutation_not_in_interest",
                    Count(ci, 1), Count(ci, 0), |interest|);
    GroupStatsFacts(r, "speci_0", "speci_1", "mutation_in_compared", "mutation_not_in_compared",
                    Count(cc, 1), Count(cc, 0), |compared|);
  }

  /** `RowStatsFacts` for one non-empty group. */
  lemma GroupStatsFacts(r: Row, onesShare: string, zerosShare: string, onesCount: string, zerosCount: string,
                        ones: nat, zeros: nat, size: nat)
    requires GroupStats(r, onesShare, zerosShare, onesCount, zerosCount, ones, zeros, size)
    requires ones <= size && zeros <= size && size > 0
    ensures InUnit(r[onesShare]) && InUnit(r[zerosShare])
    ensures Scaled(r[onesCount], r[onesShare], size) && Scaled(r[zerosCount], r[zerosShare], size)
    ensures ones + zeros == size ==> Complementary(r[zerosShare], r[onesShare]) && Complementary(r[onesShare], r[zerosShare])
  {
    RatioFacts(ones, zeros, size);
    CellScale(r[onesCount], r[onesShare], ones, size);
    CellScale(r[zerosCount], r[zerosShare], zeros, size);
  }

  /** A count cell is its ratio cell times the group size. */
  lemma CellScale(count: Cell, ratio: Cell, part: nat, n: nat)
    requires n > 0 && ratio == Ratio(part, n) && count == Num(part as real)
    ensures ratio.Num? && count == Num(ratio.x * n as real)
  {
    ShareScale(part, n);
  }

  /** The cells of a 0/1 row under a group are 0/1. */
  lemma SelectedBinary(mr: MatrixRow, samples: seq<string>, group: seq<string>)
    requires |mr.cells| == |samples| && forall k :: 0 <= k < |group| ==> group[k] in samples
    requires Binary(mr.cells)
    ensures Binary(SelectCells(mr, samples, group))
  {
    var c := SelectCells(mr, samples, group);
    forall k | 0 <= k < |c| ensures c[k] == 0 || c[k] == 1 {
      assert c[k] == mr.cells[IndexOf(samples, group[k])];
    }
  }

  /** The two ratios of one group, for `a` and `b` cells out of `n`. */
  lemma RatioFacts(a: nat, b: nat, n: nat)
    requires a <= n && b <= n && n > 0
    ensures Ratio(a, n).Num? && Ratio(b, n).Num?
    ensures 0.0 <= Ratio(a, n).x <= 1.0 && 0.0 <= Ratio(b, n).x <= 1.0
    ensures Num(a as real) == Num(Ratio(a, n).x * n as real) && Num(b as real) == Num(Ratio(b, n).x * n as real)
    ensures a + b == n ==> Ratio(a, n).x + Ratio(b, n).x == 1.0
  {
    ShareFacts(a, b, n);
    ShareFacts(b, a, n);
    assert Ratio(a, n).x == Share(a, n) && Ratio(b, n).x == Share(b, n);
    assert Ratio(a, n).x * n as real == a as real;
    assert Ratio(b, n).x * n as real == b as real;
  }

  /** Over an empty group both ratios are NaN and both counts are 0. */
  lemma EmptyGroupStats(r: Row, mr: MatrixRow, samples: seq<string>, interest: seq<string>, compared: seq<string>)
    requires RowStats(r, mr, samples, interest, compared)
    ensures |interest| == 0 ==> r["sensi_1"] == NaN && r["sensi_0"] == NaN
                                && r["mutation_in_interest"] == Num(0.0) && r["mutation_not_in_interest"] == Num(0.0)
    ensures |compared| == 0 ==> r["speci_1"] == NaN && r["speci_0"] == NaN
                                && r["mutation_in_compared"] == Num(0.0) && r["mutation_not_in_compared"] == Num(0.0)
  {
  }

  /** When the kept matrix rows are, in order, the rows of the GWAS
      variants and matrix identifiers are unique, every GWAS row holds the
      statistics of the matrix row of its own variant. */
  lemma AlignedRowsDescribeOwnVariant(gwas: Table, rtab: Matrix, interest: seq<string>, compared: seq<string>)
    requires Computable(gwas, rtab, interest, compared)
    requires forall j, l :: 0 <= j < l < |rtab.rows| ==> rtab.rows[j].id != rtab.rows[l].id
    requires forall i :: 0 <= i < |gwas.rows| ==>
               "variant" in gwas.rows[i] && gwas.rows[i]["variant"] == Str(KeptRows(rtab, VariantSet(gwas))[i].id)
    ensures forall i, j :: 0 <= i < |gwas.rows| && 0 <= j < |rtab.rows| && gwas.rows[i]["variant"] == Str(rtab.rows[j].id) ==>
              RowStats(Augmented(gwas, rtab, interest, compared).rows[i], rtab.rows[j], rtab.samples, interest, compared)
  {
    var ix := Positions(rtab.rows, IdIn(VariantSet(gwas)));
    AugmentedValues(gwas, rtab, interest, compared);
    forall i, j | 0 <= i < |gwas.rows| && 0 <= j < |rtab.rows| && gwas.rows[i]["variant"] == Str(rtab.rows[j].id)
      ensures RowStats(Augmented(gwas, rtab, interest, compared).rows[i], rtab.rows[j], rtab.samples, interest, compared)
    {
      assert rtab.rows[ix[i]].id == rtab.rows[j].id;
      assert j == ix[i];
    }
  }

  /** Computing the columns again on the augmented table reproduces it: the
      variants are untouched, so the same matrix rows are counted and every
      one of the eight columns is reassigned the values it holds. */
  lemma {:induction false} AugmentedIdempotent(gwas: Table, rtab: Matrix, interest: seq<string>, compared: seq<string>)
    requires WellFormed(gwas) && Computable(gwas, rtab, interest, compared)
    ensures VariantSet(Augmented(gwas, rtab, interest, compared)) == VariantSet(gwas)
    ensures Computable(Augmented(gwas, rtab, interest, compared), rtab, interest, compared)
    ensures Augmented(Augmented(gwas, rtab, interest, compared), rtab, interest, compared)
            == Augmented(gwas, rtab, interest, compared)
  {
    var out := Augmented(gwas, rtab, interest, compared);
    var cols := StatColumns(VariantSet(gwas), rtab, interest, compared);
    AugmentedShape(gwas, rtab, interest, compared);
    StatNamesDistinct();
    VariantSetAgree(gwas, out);
    AssignAllValues(gwas, cols);
    forall j | 0 <= j < |cols|
      ensures cols[j].0 in out.columns
    {
      assert Names(cols)[j] == cols[j].0 == StatNames[j];
      assert cols[j].0 in ColumnSet(out);
    }
    AssignAllSameValues(out, cols);
  }

  // ---------------------------------------------------------------------
  // The run
  // ---------------------------------------------------------------------

  datatype GroupName = InterestGroup | ComparedGroup

  /** Why the script stops: the phenotype column is missing (it prints the
      columns it found and exits); or it fails with an exception in one of
      the assignments: a group sample that is no column of the matrix or a
      missing `variant` column (`KeyError`), or a different number of
      computed values and GWAS rows (`ValueError`). */
  datatype StatsError =
    | PhenotypeColumnNotFound(column: string, found: seq<string>)
    | SamplesNotInMatrix(group: GroupName, missing: seq<string>)
    | VariantColumnNotFound
    | LengthMismatch(values: nat, rows: nat)

  /** The samples of `group` that are not columns of the matrix, in the
      order of `group`: none exactly when the group is in the matrix. */
  function MissingSamples(m: Matrix, group: seq<string>): (r: seq<string>)
    ensures forall k :: 0 <= k < |r| ==> r[k] in group && r[k] !in m.samples
    ensures r == [] <==> InMatrix(m, group)
  {
    var r := Filter(group, (s: string) => s !in m.samples);
    assert InMatrix(m, group) ==> r == [] by {
      if r != [] {
        var k :| 0 <= k < |group| && group[k] == r[0];
      }
    }
    r
  }

  /** The whole computation, in the order the source meets its failures:
      the phenotype column check (`pyseer_sensi_speci.py`, line 112), then at the first
      assignment (line 130) the interest columns of the matrix, the `variant`
      column and the number of values, then at the third (line 133) the compared
      columns; otherwise the augmented table. */
  function ComputeStats(gwas: Table, pheno: PhenoTable, rtab: Matrix, col: string): (r: Result<Table, StatsError>)
    requires Rectangular(rtab)
    ensures r.Ok? <==> && col in pheno.columns && "variant" in gwas.columns
                       && InMatrix(rtab, Interest(pheno, col)) && InMatrix(rtab, Compared(pheno, col))
                       && LengthsMatch(gwas, rtab)
    ensures r.Ok? ==> r.value == Augmented(gwas, rtab, Interest(pheno, col), Compared(pheno, col))
    ensures r.Ok? ==> |r.value.rows| == |gwas.rows|
    ensures r == Err(PhenotypeColumnNotFound(col, pheno.columns)) <==> col !in pheno.columns
    ensures r.Err? && r.error.SamplesNotInMatrix? ==> col in pheno.columns
    ensures r.Err? && r.error.SamplesNotInMatrix? && r.error.group == ComparedGroup ==>
              && InMatrix(rtab, Interest(pheno, col)) && "variant" in gwas.columns && LengthsMatch(gwas, rtab)
              && r.error.missing != [] && r.error.missing == MissingSamples(rtab, Compared(pheno, col))
  {
    if col !in pheno.columns then Err(PhenotypeColumnNotFound(col, pheno.columns))
    else
      var interest, compared := Interest(pheno, col), Compared(pheno, col);
      var kept := |Positions(rtab.rows, IdIn(VariantSet(gwas)))|;
      if MissingSamples(rtab, interest) != [] then Err(SamplesNotInMatrix(InterestGroup, MissingSamples(rtab, interest)))
      else if "variant" !in gwas.columns then Err(VariantColumnNotFound)
      else if kept != |gwas.rows| then Err(LengthMismatch(kept, |gwas.rows|))
      else if MissingSamples(rtab, compared) != [] then Err(SamplesNotInMatrix(ComparedGroup, MissingSamples(rtab, compared)))
      else Ok(Augmented(gwas, rtab, interest, compared))
  }

  /** Running the computation on its own output gives the output again. */
  lemma ComputeStatsIdempotent(gwas: Table, pheno: PhenoTable, rtab: Matrix, col: string)
    requires WellFormed(gwas) && Rectangular(rtab) && ComputeStats(gwas, pheno, rtab, col).Ok?
    ensures ComputeStats(ComputeStats(gwas, pheno, rtab, col).value, pheno, rtab, col)
            == ComputeStats(gwas, pheno, rtab, col)
  {
    var interest, compared := Interest(pheno, col), Compared(pheno, col);
    AugmentedIdempotent(gwas, rtab, interest, compared);
    AugmentedShape(gwas, rtab, interest, compared);
    assert "variant" in ColumnSet(Augmented(gwas, rtab, interest, compared));
  }

  /** What the script reports at the end. */
  datatype Status = Written | Stopped(error: StatsError)

  /** The `__main__` block of `pyseer_sensi_speci.py` from line 112 on: `tmp` is the GWAS frame itself,
      so every assignment reads the variant column of the frame as it then
      stands and extends it in place. On success the frame holds the
      augmented table; on a failure nothing has been assigned, except when
      the compared samples are missing, which the script meets after the
      two sensitivity columns are already in place. */
  method Run(tmp: Frame, pheno: PhenoTable, rtab: Matrix, col: string) returns (status: Status)
    requires tmp.Valid() && Rectangular(rtab)
    modifies tmp
    ensures tmp.Valid()
    ensures var r := ComputeStats(old(tmp.Value()), pheno, rtab, col);
            && (r.Ok? ==> status == Written && tmp.Value() == r.value)
            && (r.Err? ==> status == Stopped(r.error))
            && (r.Err? && !(r.error.SamplesNotInMatrix? && r.error.group == ComparedGroup) ==>
                  tmp.Value() == old(tmp.Value()))
            && (r.Err? && r.error.SamplesNotInMatrix? && r.error.group == ComparedGroup ==>
                  tmp.Value() == AssignAll(old(tmp.Value()), SensiColumns(VariantSet(old(tmp.Value())), rtab, Interest(pheno, col))))
  {
    ghost var t0 := tmp.Value();
    if col !in pheno.columns {
      return Stopped(PhenotypeColumnNotFound(col, pheno.columns));
    }
    var presence, absence := Interest(pheno, col), Compared(pheno, col);
    var missing := MissingSamples(rtab, presence);
    if missing != [] {
      return Stopped(SamplesNotInMatrix(InterestGroup, missing));
    }
    if "variant" !in tmp.columns {
      return Stopped(VariantColumnNotFound);
    }
    var ones := MutationCount(SelectColumns(rtab, presence), VariantSet(tmp.Value()), 1);
    SelectKeepsPositions(rtab, presence, VariantSet(tmp.Value()));
    if |ones| != |tmp.rows| {
      return Stopped(LengthMismatch(|ones|, |tmp.rows|));
    }
    AssignSensi(tmp, rtab, presence);
    missing := MissingSamples(rtab, absence);
    if missing != [] {
      return Stopped(SamplesNotInMatrix(ComparedGroup, missing));
    }
    AssignRest(tmp, t0, rtab, presence, absence);
    return Written;
  }

  /** `pyseer_sensi_speci.py`, lines 130-131: the two sensitivity columns. */
  method AssignSensi(tmp: Frame, rtab: Matrix, presence: seq<string>)
    requires tmp.Valid() && Rectangular(rtab) && InMatrix(rtab, presence) && LengthsMatch(tmp.Value(), rtab)
    modifies tmp
    ensures tmp.Valid() && VariantSet(tmp.Value()) == VariantSet(old(tmp.Value()))
    ensures tmp.Value() == AssignAll(old(tmp.Value()), SensiColumns(VariantSet(old(tmp.Value())), rtab, presence))
  {
    ghost var t0 := tmp.Value();
    ghost var sensi := SensiColumns(VariantSet(t0), rtab, presence);
    var pres := SelectColumns(rtab, presence);
    assert sensi[..0] == [];
    var variants := VariantSet(tmp.Value());
    AssignThrough(tmp, t0, sensi, 0, "sensi_1", Ratios(MutationCount(pres, variants, 1), |presence|));
    variants := VariantSet(tmp.Value());
    AssignThrough(tmp, t0, sensi, 1, "sensi_0", Ratios(MutationCount(pres, variants, 0), |presence|));
    assert sensi[..2] == sensi;
  }

  /** `pyseer_sensi_speci.py`, lines 133-143: the two specificity columns and the four counts, after
      the sensitivity columns. */
  method AssignRest(tmp: Frame, ghost t0: Table, rtab: Matrix, presence: seq<string>, absence: seq<string>)
    requires Computable(t0, rtab, presence, absence)
    requires tmp.Valid() && tmp.Value() == AssignAll(t0, SensiColumns(VariantSet(t0), rtab, presence))
    requires VariantSet(tmp.Value()) == VariantSet(t0)
    modifies tmp
    ensures tmp.Valid() && tmp.Value() == Augmented(t0, rtab, presence, absence)
  {
    ghost var cols := StatColumns(VariantSet(t0), rtab, presence, absence);
    SensiColumnsPrefix(VariantSet(t0), rtab, presence, absence);
    StatColumnsSpeci(VariantSet(t0), rtab, presence, absence);
    StatColumnsCounts(VariantSet(t0), rtab, presence, absence);
    var pres, abs := SelectColumns(rtab, presence), SelectColumns(rtab, absence);
    AssignSpeci(tmp, t0, cols, abs, |absence|);
    AssignCounts(tmp, t0, cols, pres, abs);
    assert cols[..8] == cols;
  }

  /** `pyseer_sensi_speci.py`, lines 133-135: the two specificity columns over the compared group's
      matrix columns `abs` and its size, the third and fourth of the
      assignments `cols` made from `t0`. */
  method AssignSpeci(tmp: Frame, ghost t0: Table, ghost cols: seq<(string, seq<Cell>)>, abs: Matrix, size: nat)
    requires Fits(t0, cols) && |cols| == 8
    requires cols[2] == ("speci_1", Ratios(MutationCount(abs, VariantSet(t0), 0), size))
    requires cols[3] == ("speci_0", Ratios(MutationCount(abs, VariantSet(t0), 1), size))
    requires tmp.Valid() && tmp.Value() == AssignAll(t0, cols[..2]) && VariantSet(tmp.Value()) == VariantSet(t0)
    modifies tmp
    ensures tmp.Valid() && tmp.Value() == AssignAll(t0, cols[..4]) && VariantSet(tmp.Value()) == VariantSet(t0)
  {
    var variants := VariantSet(tmp.Value());
    AssignThrough(tmp, t0, cols, 2, "speci_1", Ratios(MutationCount(abs, variants, 0), size));
    variants := VariantSet(tmp.Value());
    AssignThrough(tmp, t0, cols, 3, "speci_0", Ratios(MutationCount(abs, variants, 1), size));
  }

  /** `pyseer_sensi_speci.py`, lines 139-143: the four counts over the matrix columns `pres` of the
      group of interest and `abs` of the compared group, the fifth to
      eighth of the assignments `cols` made from `t0`. */
  method AssignCounts(tmp: Frame, ghost t0: Table, ghost cols: seq<(string, seq<Cell>)>, pres: Matrix, abs: Matrix)
    requires Fits(t0, cols) && |cols| == 8
    requires cols[4] == ("mutation_in_interest", Counts(MutationCount(pres, VariantSet(t0), 1)))
    requires cols[5] == ("mutation_not_in_interest", Counts(MutationCount(pres, VariantSet(t0), 0)))
    requires cols[6] == ("mutation_in_compared", Counts(MutationCount(abs, VariantSet(t0), 1)))
    requires cols[7] == ("mutation_not_in_compared", Counts(MutationCount(abs, VariantSet(t0), 0)))
    requires tmp.Valid() && tmp.Value() == AssignAll(t0, cols[..4]) && VariantSet(tmp.Value()) == VariantSet(t0)
    modifies tmp
    ensures tmp.Valid() && tmp.Value() == AssignAll(t0, cols[..8])
  {
    var variants := VariantSet(tmp.Value());
    AssignThrough(tmp, t0, cols, 4, "mutation_in_interest", Counts(MutationCount(pres, variants, 1)));
    variants := VariantSet(tmp.Value());
    AssignThrough(tmp, t0, cols, 5, "mutation_not_in_interest", Counts(MutationCount(pres, variants, 0)));
    variants := VariantSet(tmp.Value());
    AssignThrough(tmp, t0, cols, 6, "mutation_in_compared", Counts(MutationCount(abs, variants, 1)));
    variants := VariantSet(tmp.Value());
    AssignThrough(tmp, t0, cols, 7, "mutation_not_in_compared", Counts(MutationCount(abs, variants, 0)));
  }

  /** `tmp[name] = values` as the `k`-th of the assignments `cols` made
      from `t0`: the frame holds the first `k + 1` of them afterwards, and
      the variants are unchanged. */
  method AssignThrough(tmp: Frame, ghost t0: Table, ghost cols: seq<(string, seq<Cell>)>, ghost k: nat,
                       name: string, values: seq<Cell>)
    requires tmp.Valid() && Fits(t0, cols) && k < |cols| && tmp.Value() == AssignAll(t0, cols[..k])
    requires cols[k] == (name, values) && name != "variant"
    modifies tmp
    ensures tmp.Valid() && tmp.Value() == AssignAll(t0, cols[..k + 1])
    ensures VariantSet(tmp.Value()) == VariantSet(old(tmp.Value()))
  {
    AssignStep(t0, cols, k);
    WithColumnKeepsVariants(tmp.Value(), name, values);
    tmp.Assign(name, values);
  }
}
