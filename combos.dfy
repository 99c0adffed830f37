/** The 2x2 contingency table of two variants over the clusters of a variant-combinations
    table: each cluster row lists the variants it carries and the number of sequences in it. */
module Combos {
  import opened Outcomes
  import opened Text

  /** One cluster row: its `Variants` text (missing for the reference cluster) and `Cluster_Size`. */
  datatype ClusterRow = ClusterRow(variants: Option<string>, size: int)

  /** `fillna(" ")`: a missing `Variants` entry reads as a single space. */
  function Filled(row: ClusterRow): (text: string)
    ensures row.variants.Some? ==> text == row.variants.value
    ensures row.variants.None? ==> text == " "
  {
    match row.variants
    case None => " "
    case Some(text) => text
  }

  /** The four cells of the table. */
  datatype Combo = AandB | AnotB | BnotA | Neither

  /** The row filter of each cell, decided by substring containment of both variant codes. */
  predicate InCell(cell: Combo, text: string, a: string, b: string) {
    match cell
    case AnotB => Contains(text, a) && !Contains(text, b)
    case BnotA => !Contains(text, a) && Contains(text, b)
    case AandB => Contains(text, a) && Contains(text, b)
    case Neither => !Contains(text, a) && !Contains(text, b)
  }

  /** The cell a row falls in. */
  function CellOf(text: string, a: string, b: string): (cell: Combo)
    ensures InCell(cell, text, a, b)
    ensures forall other: Combo :: InCell(other, text, a, b) ==> other == cell
  {
    if Contains(text, a) then (if Contains(text, b) then AandB else AnotB)
    else (if Contains(text, b) then BnotA else Neither)
  }

  /** `combos["Cluster_Size"].sum()`. */
  function TotalSize(rows: seq<ClusterRow>): int {
    if rows == [] then 0 else TotalSize(rows[..|rows| - 1]) + rows[|rows| - 1].size
  }

  /** The sum of `Cluster_Size` over the rows a cell's filter keeps. */
  function CellTotal(rows: seq<ClusterRow>, cell: Combo, a: string, b: string): (total: int)
    ensures (forall k :: 0 <= k < |rows| ==> rows[k].size >= 0) ==> 0 <= total <= TotalSize(rows)
  {
    if rows == [] then 0
    else
      var last := rows[|rows| - 1];
      CellTotal(rows[..|rows| - 1], cell, a, b) + (if InCell(cell, Filled(last), a, b) then last.size else 0)
  }

  /** The sum of `Cluster_Size` over the rows whose `Variants` contain `code` (the verbose totals). */
  function WithVariant(rows: seq<ClusterRow>, code: string): int {
    if rows == [] then 0
    else
      var last := rows[|rows| - 1];
      WithVariant(rows[..|rows| - 1], code) + (if Contains(Filled(last), code) then last.size else 0)
  }

  /** Every row is counted in exactly one cell, so the four cells add up to the total size
      (the identity the function checks in verbose mode). */
  lemma {:induction false} CellsPartition(rows: seq<ClusterRow>, a: string, b: string)
    ensures CellTotal(rows, AandB, a, b) + CellTotal(rows, AnotB, a, b)
          + CellTotal(rows, BnotA, a, b) + CellTotal(rows, Neither, a, b) == TotalSize(rows)
  {
    if rows != [] {
      CellsPartition(rows[..|rows| - 1], a, b);
    }
  }

  /** The reference cluster has no `Variants` entry; filled with a space, it carries no variant
      code other than the empty one and the space itself, so it is counted as having neither. */
  lemma ReferenceClusterNeither(row: ClusterRow, a: string, b: string)
    requires row.variants.None?
    requires a != "" && a != " " && b != "" && b != " "
    ensures CellOf(Filled(row), a, b) == Neither
  {
    assert Filled(row) == " ";
    assert !Contains(" ", a) && !Contains(" ", b) by {
      assert " "[1..] == "";
      assert !IsPrefix(a, "") && !IsPrefix(b, "");
      assert !IsPrefix(a, " ") by {
        if |a| <= 1 { assert |a| == 1 && " "[..1] == " "; }
      }
      assert !IsPrefix(b, " ") by {
        if |b| <= 1 { assert |b| == 1 && " "[..1] == " "; }
      }
    }
  }

  /** A row of the table is the split of one variant's total by the presence of the other. */
  lemma {:induction false} MarginTotals(rows: seq<ClusterRow>, a: string, b: string)
    ensures CellTotal(rows, AandB, a, b) + CellTotal(rows, AnotB, a, b) == WithVariant(rows, a)
    ensures CellTotal(rows, AandB, a, b) + CellTotal(rows, BnotA, a, b) == WithVariant(rows, b)
  {
    if rows != [] {
      MarginTotals(rows[..|rows| - 1], a, b);
    }
  }

  /** Exchanging the two variants transposes the table: both-cells and neither-cells stay, the
      two one-sided cells swap. */
  lemma {:induction false} SwapVariants(rows: seq<ClusterRow>, a: string, b: string)
    ensures CellTotal(rows, AandB, b, a) == CellTotal(rows, AandB, a, b)
    ensures CellTotal(rows, AnotB, b, a) == CellTotal(rows, BnotA, a, b)
    ensures CellTotal(rows, BnotA, b, a) == CellTotal(rows, AnotB, a, b)
    ensures CellTotal(rows, Neither, b, a) == CellTotal(rows, Neither, a, b)
  {
    if rows != [] {
      SwapVariants(rows[..|rows| - 1], a, b);
    }
  }

  /** A variant compared with itself leaves both one-sided cells empty. */
  lemma {:induction false} SameVariant(rows: seq<ClusterRow>, a: string)
    ensures CellTotal(rows, AnotB, a, a) == 0 && CellTotal(rows, BnotA, a, a) == 0
  {
    if rows != [] {
      SameVariant(rows[..|rows| - 1], a);
    }
  }

  /** The empty code occurs in every text, so with it as the first variant no row lacks it. */
  lemma {:induction false} EmptyFirstVariant(rows: seq<ClusterRow>, b: string)
    ensures CellTotal(rows, BnotA, "", b) == 0 && CellTotal(rows, Neither, "", b) == 0
  {
    if rows != [] {
      EmptyFirstVariant(rows[..|rows| - 1], b);
      assert IsPrefix("", Filled(rows[|rows| - 1]));
    }
  }

  /** The table `variant_combos` returns: cells by row (`{A} present`, `{A} absent`) and by
      column (`{B} present`, `{B} absent`). */
  datatype Table = Table(rowLabels: seq<string>, columnLabels: seq<string>, cells: seq<seq<int>>)

  /** `variant_combos` on the rows of the combinations file. */
  function VariantCombos(rows: seq<ClusterRow>, a: string, b: string): (t: Table)
    ensures t.rowLabels == [a + " present", a + " absent"]
    ensures t.columnLabels == [b + " present", b + " absent"]
    ensures |t.cells| == 2 && |t.cells[0]| == 2 && |t.cells[1]| == 2
    ensures t.cells[0][0] == CellTotal(rows, AandB, a, b)
    ensures t.cells[0][0] + t.cells[0][1] + t.cells[1][0] + t.cells[1][1] == TotalSize(rows)
    ensures t.cells[0][0] + t.cells[0][1] == WithVariant(rows, a)
    ensures t.cells[0][0] + t.cells[1][0] == WithVariant(rows, b)
  {
    CellsPartition(rows, a, b);
    MarginTotals(rows, a, b);
    Table([a + " present", a + " absent"], [b + " present", b + " absent"],
      [[CellTotal(rows, AandB, a, b), CellTotal(rows, AnotB, a, b)],
       [CellTotal(rows, BnotA, a, b), CellTotal(rows, Neither, a, b)]])
  }

  /** Exchanging the variants transposes the numbers of the table. */
  lemma VariantCombosTranspose(rows: seq<ClusterRow>, a: string, b: string)
    ensures var t := VariantCombos(rows, a, b);
      var u := VariantCombos(rows, b, a);
      forall i, j :: 0 <= i < 2 && 0 <= j < 2 ==> u.cells[i][j] == t.cells[j][i]
  {
    SwapVariants(rows, a, b);
  }
}
