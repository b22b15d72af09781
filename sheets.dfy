/**
 * One measurement sheet of a subject's workbook, seen as a grid of cells,
 * and what the conversion derives from it: the region key of each row and
 * the flattened vector of the designated measurement columns, or a
 * substitute vector when the sheet does not read or does not match.
 */
module Sheets {
  import opened Text

  /** A spreadsheet cell: empty (NaN), text, or a number. */
  datatype Cell = Blank | Text(text: string) | Num(value: int)

  /** A sheet as read: its number of columns and its rows; a row shorter than `width` reads Blank beyond its end. */
  datatype Sheet = Sheet(width: nat, rows: seq<seq<Cell>>)

  /** An attempt to read one named sheet of a workbook. */
  datatype SheetResult = Missing | Read(sheet: Sheet)

  /** The value standing for "this sheet did not read". */
  const Sentinel: int := 999

  /** Separator between the parts of a region key. */
  const KeySeparator: string := "-"

  /** The cell of `row` in column `c`. */
  function At(row: seq<Cell>, c: nat): Cell
  {
    if c < |row| then row[c] else Blank
  }

  /** The key columns of a row: columns 1, 2 and 3 (hemisphere, label, abbreviation), as far as the sheet has them. */
  function KeyCells(s: Sheet, row: seq<Cell>): (r: seq<Cell>)
    ensures |r| == if s.width <= 1 then 0 else if s.width < 4 then s.width - 1 else 3
    ensures forall j :: 0 <= j < |r| ==> r[j] == At(row, j + 1)
  {
    var hi := if s.width < 4 then s.width else 4;
    if hi <= 1 then [] else seq(hi - 1, j requires 0 <= j < hi - 1 => At(row, j + 1))
  }

  /** `str()` of a non-empty cell. */
  function CellText(c: Cell): string
    requires c != Blank
  {
    if c.Text? then c.text else IntText(c.value)
  }

  /** The texts of the non-empty cells, in column order (`dropna().astype(str)`). */
  function Present(cells: seq<Cell>): seq<string>
  {
    if |cells| == 0 then []
    else (if cells[0] == Blank then [] else [CellText(cells[0])]) + Present(cells[1..])
  }

  /** The region key of a row's key cells: the `-`-join of the non-empty ones. */
  function RegionKey(cells: seq<Cell>): string
  {
    Join(Present(cells), KeySeparator)
  }

  /** The region key of every row of a sheet, in row order. */
  function Keys(s: Sheet): (r: seq<string>)
    ensures |r| == |s.rows|
  {
    seq(|s.rows|, i requires 0 <= i < |s.rows| => RegionKey(KeyCells(s, s.rows[i])))
  }

  lemma {:induction false} PresentAppend(a: seq<Cell>, b: seq<Cell>)
    ensures Present(a + b) == Present(a) + Present(b)
  {
    if |a| > 0 {
      PresentAppend(a[1..], b);
      assert (a + b)[1..] == a[1..] + b;
    } else {
      assert a + b == b;
    }
  }

  /** A missing cell contributes neither text nor a separator to the key. */
  lemma BlankContributesNothing(a: seq<Cell>, b: seq<Cell>)
    ensures RegionKey(a + [Blank] + b) == RegionKey(a + b)
  {
    PresentAppend(a + [Blank], b);
    PresentAppend(a, [Blank]);
    PresentAppend(a, b);
    assert Present([Blank]) == [] + Present([]);
    assert Present(a + [Blank] + b) == Present(a + b);
  }

  /**
   * When the present parts contain no separator, the key splits back into
   * exactly those parts, in column order: the key determines them.
   */
  lemma RegionKeySplits(cells: seq<Cell>)
    requires |Present(cells)| >= 1
    requires forall i :: 0 <= i < |Present(cells)| ==> '-' !in Present(cells)[i]
    ensures Split(RegionKey(cells), '-') == Present(cells)
  {
    SplitJoin(Present(cells), '-');
  }

  /** With all three key cells present as text, the key is hemisphere-label-abbreviation. */
  lemma RegionKeyOfThree(h: string, l: string, a: string)
    ensures RegionKey([Text(h), Text(l), Text(a)]) == h + "-" + l + "-" + a
  {
    var cs := [Text(h), Text(l), Text(a)];
    assert cs[1..] == [Text(l), Text(a)];
    assert cs[1..][1..] == [Text(a)];
    assert Present([Text(a)]) == [a];
    assert Present([Text(l), Text(a)]) == [l] + Present([Text(a)]);
    assert Present(cs) == [h] + Present(cs[1..]) == [h, l, a];
    assert [h, l, a][1..] == [l, a];
    assert [l, a][1..] == [a];
    assert Join([l, a], "-") == l + "-" + a;
    assert Join([h, l, a], "-") == h + "-" + (l + "-" + a);
  }

  /** The cells of column `c`, top to bottom. */
  function Column(s: Sheet, c: nat): (r: seq<Cell>)
    ensures |r| == |s.rows|
  {
    seq(|s.rows|, i requires 0 <= i < |s.rows| => At(s.rows[i], c))
  }

  /** The designated columns concatenated column by column (`np.concatenate([s.iloc[:, c] ...])`). */
  function Flatten(s: Sheet, cols: seq<nat>): seq<Cell>
  {
    if |cols| == 0 then [] else Column(s, cols[0]) + Flatten(s, cols[1..])
  }

  lemma {:induction false} FlattenLength(s: Sheet, cols: seq<nat>)
    ensures |Flatten(s, cols)| == |cols| * |s.rows|
  {
    if |cols| > 0 {
      FlattenLength(s, cols[1..]);
      assert |cols| * |s.rows| == |s.rows| + (|cols| - 1) * |s.rows|;
    }
  }

  /** Position `k * n + r`: region `r` of block `k` in a vector of blocks `n` long. */
  function Slot(k: nat, n: nat, r: nat): nat
  {
    k * n + r
  }

  /** Position `k * n + r` with `r < n` lies in block `k` of `m` blocks of `n` (the index bound of `FlattenAt` and `NamesAt`). */
  lemma BlockBound(k: nat, m: nat, n: nat, r: nat)
    requires k < m && r < n
    ensures k * n + r < m * n
  {
    var d := m - (k + 1);
    assert (k + 1) * n == k * n + n;
    assert m * n == (k + 1) * n + d * n;
  }

  /** Block `k` starts one block after block `k - 1` (the inductive step of `FlattenAt`, `NamesLength` and `NamesAt`). */
  lemma BlockStep(k: nat, n: nat)
    requires k > 0
    ensures k * n == n + (k - 1) * n
  {
  }

  /** The flattened vector is column-major: position `k * n + r` holds row `r` of the `k`-th designated column. */
  lemma {:induction false} FlattenAt(s: Sheet, cols: seq<nat>, k: nat, r: nat)
    requires k < |cols| && r < |s.rows|
    ensures Slot(k, |s.rows|, r) < |Flatten(s, cols)|
    ensures Flatten(s, cols)[Slot(k, |s.rows|, r)] == At(s.rows[r], cols[k])
  {
    var n := |s.rows|;
    FlattenLength(s, cols);
    BlockBound(k, |cols|, n, r);
    var flat := Flatten(s, cols);
    assert flat == Column(s, cols[0]) + Flatten(s, cols[1..]);
    if k > 0 {
      FlattenAt(s, cols[1..], k - 1, r);
      BlockStep(k, n);
      var j := (k - 1) * n + r;
      assert k * n + r == n + j;
      assert flat[n + j] == Flatten(s, cols[1..])[j];
      assert cols[1..][k - 1] == cols[k];
    } else {
      assert k * n + r == r;
    }
  }

  /** Designated columns and fallback widths for one sheet of a modality. */
  datatype SheetPlan = SheetPlan(cols: seq<nat>, suffixes: seq<string>, zeroWidth: nat, missingWidth: nat)

  /** How a sheet read came out against the reference layout. */
  datatype Outcome = Matched | Mismatched | Unreadable

  /**
   * Classification done by the `try` block: a missing sheet, a key sequence
   * of a different length (the element-wise comparison raises) or an absent
   * designated column (positional indexing raises) are all caught as
   * unreadable; equal keys match; equal-length unequal keys mismatch.
   */
  function Classify(res: SheetResult, reference: seq<string>, cols: seq<nat>): (o: Outcome)
    ensures o == Matched <==>
              res.Read? && Keys(res.sheet) == reference && forall k :: 0 <= k < |cols| ==> cols[k] < res.sheet.width
    ensures o == Mismatched <==> res.Read? && |res.sheet.rows| == |reference| && Keys(res.sheet) != reference
  {
    match res
    case Missing => Unreadable
    case Read(s) =>
      var keys := Keys(s);
      if |keys| != |reference| then Unreadable
      else if keys == reference then
        (if forall k :: 0 <= k < |cols| ==> cols[k] < s.width then Matched else Unreadable)
      else Mismatched
  }

  /** `width` copies of the number `v`. */
  function Fill(width: nat, v: int): (r: seq<Cell>)
    ensures |r| == width && forall i :: 0 <= i < width ==> r[i] == Num(v)
  {
    seq(width, _ => Num(v))
  }

  /**
   * The vector one sheet contributes to its subject's row: the flattened
   * designated columns when it matches (see `MatchedVectorAt`), otherwise a
   * run of zeros or of sentinels of the plan's fallback width.
   */
  function SheetVector(res: SheetResult, reference: seq<string>, plan: SheetPlan): (v: seq<Cell>)
    ensures Classify(res, reference, plan.cols) == Mismatched ==>
              |v| == plan.zeroWidth && forall i :: 0 <= i < |v| ==> v[i] == Num(0)
    ensures Classify(res, reference, plan.cols) == Unreadable ==>
              |v| == plan.missingWidth && forall i :: 0 <= i < |v| ==> v[i] == Num(Sentinel)
  {
    match Classify(res, reference, plan.cols)
    case Matched => Flatten(res.sheet, plan.cols)
    case Mismatched => Fill(plan.zeroWidth, 0)
    case Unreadable => Fill(plan.missingWidth, Sentinel)
  }

  /** A matched sheet contributes one value per designated column and region. */
  lemma MatchedVectorLength(res: SheetResult, reference: seq<string>, plan: SheetPlan)
    requires Classify(res, reference, plan.cols) == Matched
    ensures |SheetVector(res, reference, plan)| == |plan.cols| * |reference|
  {
    assert |res.sheet.rows| == |Keys(res.sheet)| == |reference|;
    FlattenLength(res.sheet, plan.cols);
  }

  /**
   * A matched sheet contributes its measurements aligned with the
   * reference: position `k * n + r` holds column `cols[k]` of the row whose
   * key is `reference[r]`.
   */
  lemma MatchedVectorAt(res: SheetResult, reference: seq<string>, plan: SheetPlan, k: nat, r: nat)
    requires Classify(res, reference, plan.cols) == Matched
    requires k < |plan.cols| && r < |reference|
    ensures res.Read? && |res.sheet.rows| == |reference|
    ensures RegionKey(KeyCells(res.sheet, res.sheet.rows[r])) == reference[r]
    ensures Slot(k, |reference|, r) < |SheetVector(res, reference, plan)|
    ensures SheetVector(res, reference, plan)[Slot(k, |reference|, r)] == At(res.sheet.rows[r], plan.cols[k])
  {
    var s := res.sheet;
    assert Keys(s) == reference;
    assert |s.rows| == |reference|;
    assert Keys(s)[r] == reference[r];
    FlattenAt(s, plan.cols, k, r);
  }
}
