/**
 * The regional variable table builder, run once per acquisition modality:
 * the reference layout, the output column names, the per-subject loop over
 * workbooks, the assembly of one wide table, the sort by identifier and the
 * replacement of the 999 sentinel by null.
 */
module Variables {
  import opened Base
  import opened Text
  import opened Sheets
  import opened SubjectIds

  /** Which file-name rule identifies the subjects of a modality. */
  datatype Naming = InvivoNaming | ExvivoNaming

  /** A modality: its naming rule and the plans of its two measurement sheets. */
  datatype Modality = Modality(naming: Naming, first: SheetPlan, second: SheetPlan)

  const DtiColumns: seq<nat> := [5, 6, 7, 8, 9]
  const DtiSuffixes: seq<string> := ["_DWI-Volume", "_AD-mean", "_FA-mean", "_MD-mean", "_RD-mean"]

  /** In vivo: sheet `T1&2w contrasts (all)` then `DTI contrasts (all)`, with the script's fixed fallback widths. */
  const InvivoAsWritten: Modality :=
    Modality(InvivoNaming,
             SheetPlan([5, 6, 7, 8], ["_Anat-Volume", "_T1w-mean", "_T2w-mean", "_T1T2-mean"], 1784, 1784),
             SheetPlan(DtiColumns, DtiSuffixes, 2230, 2230))

  /** Ex vivo: sheet `T2w contrast (all)` then `DTI contrasts (all)`, with the script's fixed fallback widths. */
  const ExvivoAsWritten: Modality :=
    Modality(ExvivoNaming,
             SheetPlan([5, 6], ["_Anat-Volume", "_T2w-mean"], 892, 2230),
             SheetPlan(DtiColumns, DtiSuffixes, 892, 2230))

  /** Fallback widths equal to the matched width for `n` regions. */
  function Sized(plan: SheetPlan, n: nat): (r: SheetPlan)
    ensures r.cols == plan.cols && r.suffixes == plan.suffixes
    ensures r.zeroWidth == r.missingWidth == |plan.cols| * n
  {
    plan.(zeroWidth := |plan.cols| * n, missingWidth := |plan.cols| * n)
  }

  /** The modality with both sheets' fallbacks sized for `n` regions. */
  function Corrected(m: Modality, n: nat): Modality
  {
    m.(first := Sized(m.first, n), second := Sized(m.second, n))
  }

  /** One name per designated column. */
  predicate WellFormed(m: Modality)
  {
    |m.first.cols| == |m.first.suffixes| && |m.second.cols| == |m.second.suffixes|
  }

  // ---------------------------------------------------------------- layout

  /** Why a modality's table cannot be produced (the script stops there). */
  datatype Error =
    | ReferenceUnreadable          // a reference sheet does not read
    | ReferenceShapeDiffers        // the reference sheets have different row counts
    | ReferenceUndefined           // the reference sheets disagree and there is no earlier layout
    | UnnamedWorkbook(stem: string)      // an in-vivo stem without a second `_`-token
    | ColumnCountMismatch(expected: nat, found: nat)

  /**
   * The reference key sequence (`row2col`) from the two sheets of the
   * reference workbook: set only when the two key sequences agree element
   * by element; otherwise the earlier layout, if any, is kept.
   */
  function ReferenceLayout(first: SheetResult, second: SheetResult, previous: Option<seq<string>>)
    : (r: Result<seq<string>, Error>)
    ensures first.Read? && second.Read? && Keys(first.sheet) == Keys(second.sheet)
            ==> r == Success(Keys(first.sheet))
    ensures r.Success? ==>
              (first.Read? && second.Read? && Keys(first.sheet) == Keys(second.sheet) == r.value)
              || (previous == Some(r.value) && first.Read? && second.Read?
                  && |first.sheet.rows| == |second.sheet.rows| && Keys(first.sheet) != Keys(second.sheet))
    ensures r.Failure? <==> first.Missing? || second.Missing? || |first.sheet.rows| != |second.sheet.rows|
                            || (Keys(first.sheet) != Keys(second.sheet) && previous.None?)
  {
    if first.Missing? || second.Missing? then Failure(ReferenceUnreadable)
    else
      var k1 := Keys(first.sheet);
      var k2 := Keys(second.sheet);
      if |k1| != |k2| then Failure(ReferenceShapeDiffers)
      else if k1 == k2 then Success(k1)
      else if previous.Some? then Success(previous.value)
      else Failure(ReferenceUndefined)
  }

  // ---------------------------------------------------------------- names

  /** `list(row2col + suffix)`: every region key with one suffix appended. */
  function Suffixed(reference: seq<string>, suffix: string): (r: seq<string>)
    ensures |r| == |reference|
  {
    seq(|reference|, i requires 0 <= i < |reference| => reference[i] + suffix)
  }

  /** `Suffixed` for each suffix in turn, concatenated. */
  function Names(reference: seq<string>, suffixes: seq<string>): seq<string>
  {
    if |suffixes| == 0 then []
    else Suffixed(reference, suffixes[0]) + Names(reference, suffixes[1..])
  }

  lemma {:induction false} NamesLength(reference: seq<string>, suffixes: seq<string>)
    ensures |Names(reference, suffixes)| == |suffixes| * |reference|
  {
    if |suffixes| > 0 {
      NamesLength(reference, suffixes[1..]);
      BlockStep(|suffixes|, |reference|);
    }
  }

  /** Names are type-major: position `k * n + r` names region `r` with suffix `k`. */
  lemma {:induction false} NamesAt(reference: seq<string>, suffixes: seq<string>, k: nat, r: nat)
    requires k < |suffixes| && r < |reference|
    ensures Slot(k, |reference|, r) < |Names(reference, suffixes)|
    ensures Names(reference, suffixes)[Slot(k, |reference|, r)] == reference[r] + suffixes[k]
  {
    var n := |reference|;
    NamesLength(reference, suffixes);
    BlockBound(k, |suffixes|, n, r);
    if k > 0 {
      NamesAt(reference, suffixes[1..], k - 1, r);
      BlockStep(k, n);
      assert k * n + r == n + ((k - 1) * n + r);
      assert suffixes[1..][k - 1] == suffixes[k];
    } else {
      assert k * n + r == r;
      assert Suffixed(reference, suffixes[0])[r] == reference[r] + suffixes[0];
    }
  }

  lemma {:induction false} NamesAppend(reference: seq<string>, a: seq<string>, b: seq<string>)
    ensures Names(reference, a + b) == Names(reference, a) + Names(reference, b)
  {
    if |a| == 0 {
      assert a + b == b;
    } else {
      NamesAppend(reference, a[1..], b);
      assert (a + b)[1..] == a[1..] + b;
      assert (a + b)[0] == a[0];
      var head := Suffixed(reference, a[0]);
      assert Names(reference, a + b) == head + (Names(reference, a[1..]) + Names(reference, b));
    }
  }

  /** The output columns of a modality: the first sheet's names, then the second's. */
  function OutColumns(reference: seq<string>, m: Modality): (r: seq<string>)
    ensures |r| == (|m.first.suffixes| + |m.second.suffixes|) * |reference|
  {
    NamesLength(reference, m.first.suffixes + m.second.suffixes);
    Names(reference, m.first.suffixes + m.second.suffixes)
  }

  /** In vivo nine measurement types per region, ex vivo seven. */
  lemma OutColumnCounts(reference: seq<string>)
    ensures |OutColumns(reference, InvivoAsWritten)| == 9 * |reference|
    ensures |OutColumns(reference, ExvivoAsWritten)| == 7 * |reference|
  {
  }

  // ---------------------------------------------------------------- rows

  /** One subject's workbook: its file stem and the attempts to read its two sheets. */
  datatype Workbook = Workbook(stem: string, first: SheetResult, second: SheetResult)

  /** The two sheets' vectors, concatenated into the subject's row. */
  function SubjectRow(m: Modality, reference: seq<string>, b: Workbook): seq<Cell>
  {
    SheetVector(b.first, reference, m.first) + SheetVector(b.second, reference, m.second)
  }

  /** A sheet whose fallbacks are sized for the layout contributes `|cols| * n` values, whatever its outcome. */
  lemma SizedVectorLength(res: SheetResult, reference: seq<string>, plan: SheetPlan)
    ensures |SheetVector(res, reference, Sized(plan, |reference|))| == |plan.cols| * |reference|
  {
    if Classify(res, reference, plan.cols) == Matched {
      MatchedVectorLength(res, reference, Sized(plan, |reference|));
    }
  }

  /** With fallbacks sized for the layout, every subject's row is exactly as wide as the column list. */
  lemma CorrectedRowWidth(m: Modality, reference: seq<string>, b: Workbook)
    requires WellFormed(m)
    ensures |SubjectRow(Corrected(m, |reference|), reference, b)| == |OutColumns(reference, m)|
  {
    var n := |reference|;
    SizedVectorLength(b.first, reference, m.first);
    SizedVectorLength(b.second, reference, m.second);
    BlockSum(|m.first.cols|, |m.second.cols|, n);
  }

  /** Block `k` lies `c` blocks past block `k - c`: used by `SecondBlock`. */
  lemma BlockShift(k: nat, c: nat, n: nat)
    requires c <= k
    ensures k * n == c * n + (k - c) * n
  {
  }

  /** The two sheets' blocks add up to the row's: used by `CorrectedRowWidth`. */
  lemma BlockSum(a: nat, b: nat, n: nat)
    ensures (a + b) * n == a * n + b * n
  {
  }

  /**
   * A subject's row lines up with the column names: for measurement type
   * `k` of the modality (the first sheet's types, then the second's) and
   * region `r`, position `k * n + r` is named `reference[r] + suffix k`, and
   * when the sheet holding type `k` matches, that position holds type `k`'s
   * column of the row whose key is `reference[r]`, whatever the other sheet
   * did.
   */
  lemma MatchedRowAligned(m: Modality, reference: seq<string>, b: Workbook, k: nat, r: nat)
    requires WellFormed(m)
    requires k < |m.first.cols| + |m.second.cols| && r < |reference|
    requires k < |m.first.cols| ==> Classify(b.first, reference, m.first.cols) == Matched
    requires k >= |m.first.cols| ==> Classify(b.second, reference, m.second.cols) == Matched
    ensures |SubjectRow(Corrected(m, |reference|), reference, b)| == |OutColumns(reference, m)|
    ensures Slot(k, |reference|, r) < |OutColumns(reference, m)|
    ensures OutColumns(reference, m)[Slot(k, |reference|, r)] == reference[r] + (m.first.suffixes + m.second.suffixes)[k]
    ensures k < |m.first.cols| ==>
              b.first.Read? && |b.first.sheet.rows| == |reference|
              && RegionKey(KeyCells(b.first.sheet, b.first.sheet.rows[r])) == reference[r]
              && SubjectRow(Corrected(m, |reference|), reference, b)[Slot(k, |reference|, r)]
                 == At(b.first.sheet.rows[r], m.first.cols[k])
    ensures k >= |m.first.cols| ==>
              b.second.Read? && |b.second.sheet.rows| == |reference|
              && RegionKey(KeyCells(b.second.sheet, b.second.sheet.rows[r])) == reference[r]
              && SubjectRow(Corrected(m, |reference|), reference, b)[Slot(k, |reference|, r)]
                 == At(b.second.sheet.rows[r], m.second.cols[k - |m.first.cols|])
  {
    var n := |reference|;
    var c := Corrected(m, n);
    assert c.first == Sized(m.first, n) && c.second == Sized(m.second, n);
    CorrectedRowWidth(m, reference, b);
    NamesAt(reference, m.first.suffixes + m.second.suffixes, k, r);
    if k < |m.first.cols| {
      MatchedRowFirst(c, reference, b, k, r);
    } else {
      SizedVectorLength(b.first, reference, m.first);
      assert |SheetVector(b.first, reference, c.first)| == |c.first.cols| * n;
      MatchedRowSecond(c, reference, b, k, r);
      assert SubjectRow(c, reference, b)[Slot(k, n, r)]
             == At(b.second.sheet.rows[r], c.second.cols[k - |c.first.cols|]);
    }
  }

  /** The first sheet's part of a row: when that sheet matches, its block `k` holds column `k` of the first sheet. */
  lemma MatchedRowFirst(m: Modality, reference: seq<string>, b: Workbook, k: nat, r: nat)
    requires Classify(b.first, reference, m.first.cols) == Matched
    requires k < |m.first.cols| && r < |reference|
    ensures Slot(k, |reference|, r) < |SubjectRow(m, reference, b)|
    ensures b.first.Read? && |b.first.sheet.rows| == |reference|
    ensures RegionKey(KeyCells(b.first.sheet, b.first.sheet.rows[r])) == reference[r]
    ensures SubjectRow(m, reference, b)[Slot(k, |reference|, r)] == At(b.first.sheet.rows[r], m.first.cols[k])
  {
    var v1 := SheetVector(b.first, reference, m.first);
    var v2 := SheetVector(b.second, reference, m.second);
    MatchedVectorAt(b.first, reference, m.first, k, r);
    assert SubjectRow(m, reference, b) == v1 + v2;
  }

  /**
   * The second sheet's part of a row: when the first sheet's vector has its
   * full width and the second sheet matches, block `c1 + k2` holds column
   * `k2` of the second sheet.
   */
  lemma MatchedRowSecond(m: Modality, reference: seq<string>, b: Workbook, k: nat, r: nat)
    requires |SheetVector(b.first, reference, m.first)| == |m.first.cols| * |reference|
    requires Classify(b.second, reference, m.second.cols) == Matched
    requires |m.first.cols| <= k < |m.first.cols| + |m.second.cols| && r < |reference|
    ensures Slot(k, |reference|, r) < |SubjectRow(m, reference, b)|
    ensures b.second.Read? && |b.second.sheet.rows| == |reference|
    ensures RegionKey(KeyCells(b.second.sheet, b.second.sheet.rows[r])) == reference[r]
    ensures SubjectRow(m, reference, b)[Slot(k, |reference|, r)]
            == At(b.second.sheet.rows[r], m.second.cols[k - |m.first.cols|])
  {
    var n := |reference|;
    var c1 := |m.first.cols|;
    var k2 := k - c1;
    var v1 := SheetVector(b.first, reference, m.first);
    var v2 := SheetVector(b.second, reference, m.second);
    var j := Slot(k2, n, r);
    MatchedVectorAt(b.second, reference, m.second, k2, r);
    assert j < |v2| && v2[j] == At(b.second.sheet.rows[r], m.second.cols[k2]);
    SecondBlock(k, c1, n, r);
    assert Slot(k, n, r) == |v1| + j;
    AppendAt(v1, v2, j);
    assert SubjectRow(m, reference, b) == v1 + v2;
  }

  /** The second sheet's block `k - c` starts after the first sheet's `c` blocks: the index step of `MatchedRowSecond`. */
  lemma SecondBlock(k: nat, c: nat, n: nat, r: nat)
    requires c <= k
    ensures Slot(k, n, r) == c * n + Slot(k - c, n, r)
  {
    BlockShift(k, c, n);
  }

  /** Indexing past the first vector reads the second: the cell step of `MatchedRowSecond`. */
  lemma AppendAt(v1: seq<Cell>, v2: seq<Cell>, j: nat)
    requires j < |v2|
    ensures (v1 + v2)[|v1| + j] == v2[j]
  {
  }

  // ---------------------------------------------------------------- the subject loop

  /** The identifier a workbook's stem yields under a naming rule. */
  function NameOf(naming: Naming, stem: string): FileId
  {
    match naming
    case InvivoNaming => (match InvivoFileId(stem) case Some(id) => Identified(id) case None => Skipped)
    case ExvivoNaming => ExvivoFileId(stem)
  }

  /** An in-vivo stem without a second token stops the script: in vivo no workbook is skipped. */
  predicate Fatal(naming: Naming, stem: string)
  {
    naming == InvivoNaming && InvivoFileId(stem).None?
  }

  /** The workbooks that contribute a subject, in enumeration order. */
  function Recognised(naming: Naming, books: seq<Workbook>): (r: seq<Workbook>)
    ensures |r| <= |books|
    ensures forall i :: 0 <= i < |r| ==> NameOf(naming, r[i].stem).Identified?
  {
    if |books| == 0 then []
    else
      var last := books[|books| - 1];
      Recognised(naming, books[..|books| - 1]) + (if NameOf(naming, last.stem).Identified? then [last] else [])
  }

  /** A workbook contributes exactly when its name identifies a subject. */
  lemma {:induction false} RecognisedMembers(naming: Naming, books: seq<Workbook>, b: Workbook)
    ensures b in Recognised(naming, books) <==> b in books && NameOf(naming, b.stem).Identified?
  {
    if |books| > 0 {
      var init := books[..|books| - 1];
      RecognisedMembers(naming, init, b);
      assert books == init + [books[|books| - 1]];
    }
  }

  /**
   * Skipping is the only filtering: an identified workbook is kept exactly
   * as often as it was enumerated, any other not at all.
   */
  lemma {:induction false} RecognisedCount(naming: Naming, books: seq<Workbook>, b: Workbook)
    ensures multiset(Recognised(naming, books))[b]
            == if NameOf(naming, b.stem).Identified? then multiset(books)[b] else 0
  {
    if |books| > 0 {
      var init := books[..|books| - 1];
      var last := books[|books| - 1];
      var rest := Recognised(naming, init);
      RecognisedCount(naming, init, b);
      CountLast(books, b);
      if NameOf(naming, last.stem).Identified? {
        assert Recognised(naming, books) == rest + [last];
        CountLast(rest + [last], b);
        assert (rest + [last])[..|rest|] == rest;
      } else {
        assert Recognised(naming, books) == rest + [];
        assert rest + [] == rest;
      }
    }
  }

  /** Dropping the last element takes one occurrence of it out of the multiset. */
  lemma CountLast<T>(s: seq<T>, x: T)
    requires |s| > 0
    ensures multiset(s)[x] == multiset(s[..|s| - 1])[x] + (if s[|s| - 1] == x then 1 else 0)
  {
    assert s == s[..|s| - 1] + [s[|s| - 1]];
  }

  /** The kept workbooks of two runs of the enumeration are the kept workbooks of each, in order. */
  lemma {:induction false} RecognisedAppend(naming: Naming, a: seq<Workbook>, b: seq<Workbook>)
    ensures Recognised(naming, a + b) == Recognised(naming, a) + Recognised(naming, b)
  {
    if |b| == 0 {
      assert a + b == a;
    } else {
      var init := b[..|b| - 1];
      RecognisedAppend(naming, a, init);
      assert (a + b)[..|a + b| - 1] == a + init;
      assert (a + b)[|a + b| - 1] == b[|b| - 1];
    }
  }

  /** With no fatal name, the in-vivo loop keeps every workbook: one identifier per workbook. */
  lemma {:induction false} InvivoKeepsAll(books: seq<Workbook>)
    requires forall i :: 0 <= i < |books| ==> !Fatal(InvivoNaming, books[i].stem)
    ensures Recognised(InvivoNaming, books) == books
  {
    if |books| > 0 {
      var init := books[..|books| - 1];
      InvivoKeepsAll(init);
      assert books == init + [books[|books| - 1]];
    }
  }

  /** The identifier list and the row list the loop accumulates. */
  datatype Collected = Collected(ids: seq<string>, rows: seq<seq<Cell>>)

  /** `c` pairs each workbook of `rec`, in order, with its identifier and its row. */
  predicate Pairs(m: Modality, reference: seq<string>, rec: seq<Workbook>, c: Collected)
  {
    && |c.ids| == |c.rows| == |rec|
    && forall j :: 0 <= j < |rec| ==>
         && NameOf(m.naming, rec[j].stem).Identified?
         && c.ids[j] == NameOf(m.naming, rec[j].stem).id
         && c.rows[j] == SubjectRow(m, reference, rec[j])
  }

  /** Appending one contributing workbook with its identifier and row keeps the pairing. */
  lemma PairsAppend(m: Modality, reference: seq<string>, rec: seq<Workbook>, c: Collected, b: Workbook)
    requires Pairs(m, reference, rec, c) && NameOf(m.naming, b.stem).Identified?
    ensures Pairs(m, reference, rec + [b],
                  Collected(c.ids + [NameOf(m.naming, b.stem).id], c.rows + [SubjectRow(m, reference, b)]))
  {
  }

  /**
   * The per-subject loop: for each workbook in order, its identifier and its
   * row are appended together; an ex-vivo name of the wrong shape is
   * skipped with neither; an in-vivo stem without a second token aborts.
   */
  method Collect(m: Modality, reference: seq<string>, books: seq<Workbook>) returns (r: Result<Collected, Error>)
    ensures r.Failure? <==> exists i :: 0 <= i < |books| && Fatal(m.naming, books[i].stem)
    ensures r.Failure? ==> exists i :: 0 <= i < |books| && Fatal(m.naming, books[i].stem)
                                       && (forall j :: 0 <= j < i ==> !Fatal(m.naming, books[j].stem))
                                       && r.error == UnnamedWorkbook(books[i].stem)
    ensures r.Success? ==> Pairs(m, reference, Recognised(m.naming, books), r.value)
  {
    var c := Collected([], []);
    var i := 0;
    while i < |books|
      invariant 0 <= i <= |books|
      invariant forall j :: 0 <= j < i ==> !Fatal(m.naming, books[j].stem)
      invariant Pairs(m, reference, Recognised(m.naming, books[..i]), c)
    {
      var b := books[i];
      assert books[..i + 1][..i] == books[..i];
      assert books[..i + 1][i] == b;
      if Fatal(m.naming, b.stem) {
        return Failure(UnnamedWorkbook(b.stem));
      }
      var name := NameOf(m.naming, b.stem);
      ghost var rec := Recognised(m.naming, books[..i]);
      assert Recognised(m.naming, books[..i + 1]) == rec + (if name.Identified? then [b] else []);
      if name.Identified? {
        PairsAppend(m, reference, rec, c, b);
        c := Collected(c.ids + [name.id], c.rows + [SubjectRow(m, reference, b)]);
      }
      i := i + 1;
    }
    assert books[..i] == books;
    r := Success(c);
  }

  /** Every workbook of the sequence has an identifying name. */
  predicate AllIdentified(naming: Naming, ws: seq<Workbook>)
  {
    forall i :: 0 <= i < |ws| ==> NameOf(naming, ws[i].stem).Identified?
  }

  /** The record an identified workbook yields: its identifier and its row. */
  function RecordOf(m: Modality, reference: seq<string>, w: Workbook): Record
    requires NameOf(m.naming, w.stem).Identified?
  {
    Record(NameOf(m.naming, w.stem).id, SubjectRow(m, reference, w))
  }

  /** The records of identified workbooks, one each, in order. */
  function RecordsOf(m: Modality, reference: seq<string>, ws: seq<Workbook>): (rs: seq<Record>)
    requires AllIdentified(m.naming, ws)
    ensures |rs| == |ws| && forall i :: 0 <= i < |ws| ==> rs[i] == RecordOf(m, reference, ws[i])
  {
    seq(|ws|, i requires 0 <= i < |ws| => RecordOf(m, reference, ws[i]))
  }

  /** The record each contributing workbook yields, in enumeration order. */
  function SubjectRecords(m: Modality, reference: seq<string>, books: seq<Workbook>): (rs: seq<Record>)
    ensures |rs| == |Recognised(m.naming, books)|
  {
    RecordsOf(m, reference, Recognised(m.naming, books))
  }

  /** Taking out position `j` takes one occurrence of `s[j]` out of the multiset. */
  lemma RemoveAt<T>(s: seq<T>, j: nat)
    requires j < |s|
    ensures multiset(s) == multiset(s[..j] + s[j + 1..]) + multiset{s[j]}
  {
    assert s == s[..j] + [s[j]] + s[j + 1..];
  }

  /** `f` applied element by element. */
  function Map<A, B>(f: A --> B, xs: seq<A>): (ys: seq<B>)
    requires forall i :: 0 <= i < |xs| ==> f.requires(xs[i])
    ensures |ys| == |xs| && forall i :: 0 <= i < |xs| ==> ys[i] == f(xs[i])
  {
    seq(|xs|, i requires 0 <= i < |xs| => f(xs[i]))
  }

  /** Rearranging the arguments rearranges the images: equal multisets map to equal multisets. */
  lemma {:induction false} MapPermute<A, B>(f: A --> B, xs: seq<A>, ys: seq<A>)
    requires forall i :: 0 <= i < |xs| ==> f.requires(xs[i])
    requires forall i :: 0 <= i < |ys| ==> f.requires(ys[i])
    requires multiset(xs) == multiset(ys)
    ensures multiset(Map(f, xs)) == multiset(Map(f, ys))
    decreases |xs|
  {
    if |xs| == 0 {
      assert |ys| == |multiset(ys)| == 0;
    } else {
      var x := xs[0];
      assert x in multiset(ys);
      var j :| 0 <= j < |ys| && ys[j] == x;
      var xs' := xs[..0] + xs[1..];
      var ys' := ys[..j] + ys[j + 1..];
      RemoveAt(xs, 0);
      RemoveAt(ys, j);
      Cancel(multiset(xs'), multiset(ys'), x);
      MapRemove(f, xs, 0, xs');
      MapRemove(f, ys, j, ys');
      MapPermute(f, xs', ys');
    }
  }

  /** Taking out one argument takes its image out of the images. */
  lemma MapRemove<A, B>(f: A --> B, xs: seq<A>, j: nat, rest: seq<A>)
    requires forall i :: 0 <= i < |xs| ==> f.requires(xs[i])
    requires j < |xs| && rest == xs[..j] + xs[j + 1..]
    ensures forall i :: 0 <= i < |rest| ==> f.requires(rest[i])
    ensures multiset(Map(f, xs)) == multiset(Map(f, rest)) + multiset{f(xs[j])}
  {
    assert forall i :: 0 <= i < |rest| ==> rest[i] == if i < j then xs[i] else xs[i + 1];
    var fx := Map(f, xs);
    assert Map(f, rest) == fx[..j] + fx[j + 1..];
    RemoveAt(fx, j);
  }

  /** One occurrence added to both sides cancels. */
  lemma Cancel<T>(a: multiset<T>, b: multiset<T>, x: T)
    requires a + multiset{x} == b + multiset{x}
    ensures a == b
  {
    assert a == a + multiset{x} - multiset{x};
    assert b == b + multiset{x} - multiset{x};
  }

  /** Records of two arrangements of the same identified workbooks are arrangements of the same records. */
  lemma RecordsOfPermute(m: Modality, reference: seq<string>, xs: seq<Workbook>, ys: seq<Workbook>)
    requires AllIdentified(m.naming, xs) && AllIdentified(m.naming, ys)
    requires multiset(xs) == multiset(ys)
    ensures multiset(RecordsOf(m, reference, xs)) == multiset(RecordsOf(m, reference, ys))
  {
    var f := (w: Workbook) requires NameOf(m.naming, w.stem).Identified? => RecordOf(m, reference, w);
    MapPermute(f, xs, ys);
    assert RecordsOf(m, reference, xs) == Map(f, xs);
    assert RecordsOf(m, reference, ys) == Map(f, ys);
  }

  /**
   * The file listing's order does not change which records there are: two
   * enumerations of the same workbooks give the same multiset of subject
   * records.
   */
  lemma SubjectRecordsPermute(m: Modality, reference: seq<string>, a: seq<Workbook>, b: seq<Workbook>)
    requires multiset(a) == multiset(b)
    ensures multiset(SubjectRecords(m, reference, a)) == multiset(SubjectRecords(m, reference, b))
  {
    var ra := Recognised(m.naming, a);
    var rb := Recognised(m.naming, b);
    forall w | true ensures multiset(ra)[w] == multiset(rb)[w] {
      RecognisedCount(m.naming, a, w);
      RecognisedCount(m.naming, b, w);
    }
    assert multiset(ra) == multiset(rb);
    RecordsOfPermute(m, reference, ra, rb);
  }

  // ---------------------------------------------------------------- assembly

  /** The widest row. */
  function MaxWidth(rows: seq<seq<Cell>>): (w: nat)
    ensures forall i :: 0 <= i < |rows| ==> |rows[i]| <= w
    ensures |rows| > 0 ==> exists i :: 0 <= i < |rows| && |rows[i]| == w
    ensures |rows| == 0 ==> w == 0
  {
    if |rows| == 0 then 0
    else
      var w := MaxWidth(rows[1..]);
      assert forall i :: 1 <= i < |rows| ==> rows[i] == rows[1..][i - 1];
      if |rows[0]| >= w then |rows[0]| else w
  }

  /** One row of the assembled table: the subject identifier and the measurement cells. */
  datatype Record = Record(id: string, cells: seq<Cell>)

  /** A row padded with empty cells up to `width`. */
  function Pad(row: seq<Cell>, width: nat): (r: seq<Cell>)
    requires |row| <= width
    ensures |r| == width && r[..|row|] == row
    ensures forall j :: |row| <= j < width ==> r[j] == Blank
  {
    row + seq(width - |row|, _ => Blank)
  }

  /**
   * `pd.DataFrame(rows, columns = names)` with the identifiers attached: the
   * rows are padded with empty cells to the widest one, which must be as
   * wide as the name list unless there are no rows at all.
   */
  function Assemble(names: seq<string>, c: Collected): (r: Result<seq<Record>, Error>)
    requires |c.ids| == |c.rows|
    ensures r.Success? <==> |c.rows| == 0 || MaxWidth(c.rows) == |names|
    ensures r.Failure? ==> r.error == ColumnCountMismatch(|names|, MaxWidth(c.rows))
    ensures r.Success? ==>
              && |r.value| == |c.ids|
              && forall i :: 0 <= i < |c.ids| ==>
                   && r.value[i].id == c.ids[i]
                   && |r.value[i].cells| == |names|
                   && r.value[i].cells[..|c.rows[i]|] == c.rows[i]
                   && forall j :: |c.rows[i]| <= j < |names| ==> r.value[i].cells[j] == Blank
  {
    var w := MaxWidth(c.rows);
    if |c.rows| > 0 && w != |names| then Failure(ColumnCountMismatch(|names|, w))
    else Success(seq(|c.ids|, i requires 0 <= i < |c.ids| => Record(c.ids[i], Pad(c.rows[i], |names|))))
  }

  /** Rows all of the column list's width are taken as they are, without padding. */
  lemma AssembleExact(names: seq<string>, c: Collected)
    requires |c.ids| == |c.rows|
    requires forall i :: 0 <= i < |c.rows| ==> |c.rows[i]| == |names|
    ensures Assemble(names, c).Success?
    ensures forall i :: 0 <= i < |c.ids| ==> Assemble(names, c).value[i] == Record(c.ids[i], c.rows[i])
  {
    var r := Assemble(names, c);
    forall i | 0 <= i < |c.ids| ensures r.value[i] == Record(c.ids[i], c.rows[i]) {
      assert r.value[i].cells == r.value[i].cells[..|c.rows[i]|];
    }
  }

  // ---------------------------------------------------------------- sorting

  /** Records in ascending order of identifier. */
  predicate SortedById(rs: seq<Record>)
  {
    forall i, j :: 0 <= i < j < |rs| ==> LessEq(rs[i].id, rs[j].id)
  }

  /** `sort_values(by = 'participant_id', inplace = True)`: ascending by identifier, a permutation. */
  method SortById(a: array<Record>)
    modifies a
    ensures SortedById(a[..])
    ensures multiset(a[..]) == multiset(old(a[..]))
  {
    var i := 0;
    while i < a.Length
      invariant 0 <= i <= a.Length
      invariant SortedById(a[..i])
      invariant multiset(a[..]) == multiset(old(a[..]))
    {
      InsertAt(a, i);
      i := i + 1;
    }
    assert a[..a.Length] == a[..];
  }

  /** No two records share an identifier. */
  predicate DistinctIds(rs: seq<Record>)
  {
    forall i, j :: 0 <= i < j < |rs| ==> rs[i].id != rs[j].id
  }

  /**
   * With distinct identifiers there is only one sorted arrangement of a set
   * of records: the sorted table does not depend on the order in which the
   * workbooks were enumerated, although the sort itself is not stable.
   */
  lemma {:induction false} SortedPermutationUnique(xs: seq<Record>, ys: seq<Record>)
    requires SortedById(xs) && SortedById(ys) && DistinctIds(xs)
    requires multiset(xs) == multiset(ys)
    ensures xs == ys
    decreases |xs|
  {
    if |xs| == 0 {
      assert |multiset(ys)| == 0;
    } else {
      SameHead(xs, ys);
      var xt, yt := xs[1..], ys[1..];
      assert xs == [xs[0]] + xt;
      assert ys == [ys[0]] + yt;
      assert multiset(xt) == multiset(yt) by {
        assert multiset(xt) == multiset(xs) - multiset{xs[0]};
        assert multiset(yt) == multiset(ys) - multiset{ys[0]};
      }
      TailSorted(xs);
      TailSorted(ys);
      SortedPermutationUnique(xt, yt);
    }
  }

  /** Two sorted arrangements of the same records with distinct identifiers start alike. */
  lemma SameHead(xs: seq<Record>, ys: seq<Record>)
    requires |xs| > 0
    requires SortedById(xs) && SortedById(ys) && DistinctIds(xs)
    requires multiset(xs) == multiset(ys)
    ensures |ys| == |xs| && xs[0] == ys[0]
  {
    assert |ys| == |xs| by {
      assert |multiset(xs)| == |multiset(ys)|;
    }
    var x, y := xs[0], ys[0];
    assert x in multiset(ys);
    assert y in multiset(xs);
    var i :| 0 <= i < |ys| && ys[i] == x;
    var j :| 0 <= j < |xs| && xs[j] == y;
    if i > 0 {
      assert LessEq(y.id, x.id);
    } else {
      LessEqReflexive(y.id);
    }
    if j > 0 {
      assert LessEq(x.id, y.id);
    } else {
      LessEqReflexive(x.id);
    }
    LessEqAntisymmetric(x.id, y.id);
  }

  /** Dropping the first record keeps order and distinctness. */
  lemma TailSorted(xs: seq<Record>)
    requires |xs| > 0
    ensures SortedById(xs) ==> SortedById(xs[1..])
    ensures DistinctIds(xs) ==> DistinctIds(xs[1..])
  {
    var t := xs[1..];
    assert forall p :: 0 <= p < |t| ==> t[p] == xs[p + 1];
  }

  /** Exchanges `a[i]` and `a[j]`. */
  method Swap(a: array<Record>, i: nat, j: nat)
    requires i < j < a.Length
    modifies a
    ensures a[..] == old(a[..])[i := old(a[j])][j := old(a[i])]
    ensures multiset(a[..]) == multiset(old(a[..]))
  {
    a[i], a[j] := a[j], a[i];
  }

  /**
   * Insertion of `s[j]` under way in `s[..i + 1]`: every other pair in that
   * range is in order, and `s[j]` is ordered before everything after it.
   */
  predicate Settling(s: seq<Record>, i: nat, j: nat)
    requires j <= i < |s|
  {
    && (forall p, q :: 0 <= p < q <= i && p != j && q != j ==> LessEq(s[p].id, s[q].id))
    && (forall q :: j < q <= i ==> LessEq(s[j].id, s[q].id))
  }

  /** A sorted prefix `s[..i]` is a start of the insertion of `s[i]`. */
  lemma SettlingStart(s: seq<Record>, i: nat)
    requires i < |s| && SortedById(s[..i])
    ensures Settling(s, i, i)
  {
    assert forall p :: 0 <= p < i ==> s[..i][p] == s[p];
  }

  /** Swapping an out-of-order `s[j - 1]` and `s[j]` moves the insertion one place down. */
  lemma SettlingStep(s: seq<Record>, i: nat, j: nat)
    requires 0 < j <= i < |s| && Settling(s, i, j) && !LessEq(s[j - 1].id, s[j].id)
    ensures Settling(s[j - 1 := s[j]][j := s[j - 1]], i, j - 1)
  {
    LessEqTotal(s[j - 1].id, s[j].id);
  }

  /** Once `s[j]` is no smaller than its predecessor, `s[..i + 1]` is sorted. */
  lemma SettlingDone(s: seq<Record>, i: nat, j: nat)
    requires j <= i < |s| && Settling(s, i, j) && (j == 0 || LessEq(s[j - 1].id, s[j].id))
    ensures SortedById(s[..i + 1])
  {
    forall p, q | 0 <= p < q <= i ensures LessEq(s[p].id, s[q].id) {
      if q == j && p < j - 1 {
        LessEqTransitive(s[p].id, s[j - 1].id, s[j].id);
      }
    }
    assert forall p :: 0 <= p < i + 1 ==> s[..i + 1][p] == s[p];
  }

  /** Moves `a[i]` down into the sorted prefix `a[..i]`. */
  method InsertAt(a: array<Record>, i: nat)
    requires i < a.Length
    requires SortedById(a[..i])
    modifies a
    ensures SortedById(a[..i + 1])
    ensures multiset(a[..]) == multiset(old(a[..]))
    ensures a[i + 1..] == old(a[i + 1..])
  {
    var j := i;
    SettlingStart(a[..], i);
    while j > 0 && !LessEq(a[j - 1].id, a[j].id)
      invariant 0 <= j <= i
      invariant multiset(a[..]) == multiset(old(a[..]))
      invariant Settling(a[..], i, j)
      invariant a[i + 1..] == old(a[i + 1..])
      decreases j
    {
      SettlingStep(a[..], i, j);
      Swap(a, j - 1, j);
      j := j - 1;
    }
    SettlingDone(a[..], i, j);
  }

  // ---------------------------------------------------------------- sentinel replacement

  /** `replace(999, nan)` on one cell: exactly the sentinel number becomes empty. */
  function NullSentinel(c: Cell): (d: Cell)
    ensures d == Blank <==> c == Num(Sentinel) || c == Blank
    ensures c != Num(Sentinel) ==> d == c
  {
    if c == Num(Sentinel) then Blank else c
  }

  function NullRecord(r: Record): (s: Record)
    ensures s.id == r.id && |s.cells| == |r.cells|
    ensures forall j :: 0 <= j < |r.cells| ==> s.cells[j] == NullSentinel(r.cells[j])
  {
    Record(r.id, seq(|r.cells|, j requires 0 <= j < |r.cells| => NullSentinel(r.cells[j])))
  }

  /** The whole table after `replace(999, nan)`. */
  function Nulled(rs: seq<Record>): (s: seq<Record>)
    ensures |s| == |rs|
    ensures forall i :: 0 <= i < |rs| ==> s[i] == NullRecord(rs[i])
  {
    seq(|rs|, i requires 0 <= i < |rs| => NullRecord(rs[i]))
  }

  /** Replacement keeps the row count, each row's width, the identifiers and every non-sentinel cell, and is idempotent. */
  lemma NulledShape(rs: seq<Record>)
    ensures |Nulled(rs)| == |rs|
    ensures forall i :: 0 <= i < |rs| ==> Nulled(rs)[i].id == rs[i].id && |Nulled(rs)[i].cells| == |rs[i].cells|
    ensures forall i, j :: 0 <= i < |rs| && 0 <= j < |rs[i].cells| ==>
              (Nulled(rs)[i].cells[j] == Blank <==> rs[i].cells[j] in {Num(Sentinel), Blank})
    ensures forall i, j :: 0 <= i < |rs| && 0 <= j < |rs[i].cells| && rs[i].cells[j] != Num(Sentinel) ==>
              Nulled(rs)[i].cells[j] == rs[i].cells[j]
    ensures SortedById(rs) ==> SortedById(Nulled(rs))
    ensures Nulled(Nulled(rs)) == Nulled(rs)
  {
    var once := Nulled(rs);
    forall i | 0 <= i < |rs| ensures Nulled(once)[i] == once[i] {
      assert Nulled(once)[i].cells == once[i].cells;
    }
  }

  /** `replace(999, nan, inplace = True)` over the records. */
  method NullSentinels(a: array<Record>)
    modifies a
    ensures a[..] == Nulled(old(a[..]))
  {
    for i := 0 to a.Length
      invariant forall k :: 0 <= k < i ==> a[k] == NullRecord(old(a[k]))
      invariant forall k :: i <= k < a.Length ==> a[k] == old(a[k])
    {
      a[i] := NullRecord(a[i]);
    }
  }

  // ---------------------------------------------------------------- the table

  /** Name of the identifier column. */
  const IdColumn: string := "participant_id"

  /** A finished table: its header and its records. */
  datatype Table = Table(columns: seq<string>, records: seq<Record>)

  /**
   * Build the frame, move the identifier to the first column, sort by it in
   * place and null every sentinel in place.
   */
  method BuildTable(names: seq<string>, c: Collected) returns (r: Result<Table, Error>, ghost sorted: seq<Record>)
    requires |c.ids| == |c.rows|
    ensures r.Failure? <==> Assemble(names, c).Failure?
    ensures r.Failure? ==> r.error == Assemble(names, c).error
    ensures r.Success? ==>
              && r.value.columns == [IdColumn] + names
              && SortedById(sorted)
              && multiset(sorted) == multiset(Assemble(names, c).value)
              && r.value.records == Nulled(sorted)
              && SortedById(r.value.records)
              && |r.value.records| == |c.ids|
              && forall i :: 0 <= i < |r.value.records| ==> |r.value.records[i].cells| == |names|
  {
    var assembled := Assemble(names, c);
    if assembled.Failure? {
      return Failure(assembled.error), [];
    }
    var rs := assembled.value;
    var a := new Record[|rs|](i requires 0 <= i < |rs| => rs[i]);
    assert a[..] == rs;
    SortById(a);
    sorted := a[..];
    assert |sorted| == |rs| by {
      assert |multiset(sorted)| == |multiset(rs)|;
    }
    NullSentinels(a);
    NulledShape(sorted);
    PermutationKeepsWidth(sorted, rs, |names|);
    r := Success(Table([IdColumn] + names, a[..]));
  }

  /** Reordering records keeps a common row width. */
  lemma PermutationKeepsWidth(xs: seq<Record>, ys: seq<Record>, w: nat)
    requires multiset(xs) == multiset(ys)
    requires forall i :: 0 <= i < |ys| ==> |ys[i].cells| == w
    ensures forall i :: 0 <= i < |xs| ==> |xs[i].cells| == w
  {
    forall i | 0 <= i < |xs| ensures |xs[i].cells| == w {
      assert xs[i] in multiset(ys);
      var j :| 0 <= j < |ys| && ys[j] == xs[i];
    }
  }

  /** A modality's result: its reference layout and its table. */
  datatype Output = Output(layout: seq<string>, table: Table)

  /**
   * What a modality's table holds for its layout: the identifier column and
   * then the output columns; one record per contributing workbook, each as
   * wide as the output columns; in identifier order; and, before sentinel
   * replacement (`sorted`), a permutation of the subject records.
   */
  ghost predicate Produced(m: Modality, books: seq<Workbook>, o: Output, sorted: seq<Record>)
  {
    && o.table.columns == [IdColumn] + OutColumns(o.layout, m)
    && |o.table.records| == |Recognised(m.naming, books)|
    && SortedById(o.table.records)
    && (forall i :: 0 <= i < |o.table.records| ==> |o.table.records[i].cells| == |OutColumns(o.layout, m)|)
    && SortedById(sorted)
    && multiset(sorted) == multiset(SubjectRecords(Corrected(m, |o.layout|), o.layout, books))
    && o.table.records == Nulled(sorted)
  }

  /**
   * The table does not depend on the order in which the workbooks were
   * listed: two enumerations of the same workbooks under the same layout
   * give the same table, once identifiers are distinct (the sort is not
   * stable, so with repeated identifiers the order between them is open).
   */
  lemma ProducedOrderFree(m: Modality, a: seq<Workbook>, b: seq<Workbook>, o1: Output, o2: Output,
                          s1: seq<Record>, s2: seq<Record>)
    requires Produced(m, a, o1, s1) && Produced(m, b, o2, s2)
    requires o1.layout == o2.layout && multiset(a) == multiset(b)
    requires DistinctIds(o1.table.records)
    ensures o1.table == o2.table
  {
    SubjectRecordsPermute(Corrected(m, |o1.layout|), o1.layout, a, b);
    assert DistinctIds(s1) by {
      assert forall i :: 0 <= i < |s1| ==> o1.table.records[i].id == s1[i].id;
    }
    SortedPermutationUnique(s1, s2);
  }

  /**
   * One modality end to end: the reference layout from the reference
   * workbook, its column names, the subject loop and the table, with each
   * sheet's fallbacks sized for the layout. The table holds, sorted by
   * identifier, one record per contributing workbook with every sentinel
   * nulled.
   */
  method VariableTable(m: Modality, refFirst: SheetResult, refSecond: SheetResult,
                       previous: Option<seq<string>>, books: seq<Workbook>)
    returns (r: Result<Output, Error>, ghost sorted: seq<Record>)
    requires WellFormed(m)
    ensures r.Failure? <==> ReferenceLayout(refFirst, refSecond, previous).Failure?
                            || exists i :: 0 <= i < |books| && Fatal(m.naming, books[i].stem)
    ensures r.Success? ==> ReferenceLayout(refFirst, refSecond, previous) == Success(r.value.layout)
    ensures r.Success? ==> Produced(m, books, r.value, sorted)
    ensures r.Success? ==> |r.value.table.columns| == 1 + |OutColumns(r.value.layout, m)|
  {
    sorted := [];
    var layout := ReferenceLayout(refFirst, refSecond, previous);
    if layout.Failure? {
      return Failure(layout.error), sorted;
    }
    var reference := layout.value;
    var plan := Corrected(m, |reference|);
    var names := OutColumns(reference, m);
    var collected := Collect(plan, reference, books);
    if collected.Failure? {
      return Failure(collected.error), sorted;
    }
    var c := collected.value;
    CollectedAssembles(m, reference, books, c);
    var table;
    table, sorted := BuildTable(names, c);
    assert table.Success?;
    r := Success(Output(reference, table.value));
  }

  /** The rows the loop collects under corrected widths all fit, so the frame holds exactly the subject records. */
  lemma CollectedAssembles(m: Modality, reference: seq<string>, books: seq<Workbook>, c: Collected)
    requires WellFormed(m)
    requires Pairs(Corrected(m, |reference|), reference, Recognised(m.naming, books), c)
    ensures Assemble(OutColumns(reference, m), c) == Success(SubjectRecords(Corrected(m, |reference|), reference, books))
  {
    var plan := Corrected(m, |reference|);
    var names := OutColumns(reference, m);
    var rec := Recognised(m.naming, books);
    assert plan.naming == m.naming;
    forall i | 0 <= i < |c.rows| ensures |c.rows[i]| == |names| {
      CorrectedRowWidth(m, reference, rec[i]);
    }
    AssembleExact(names, c);
    assert Assemble(names, c).value == SubjectRecords(plan, reference, books);
  }

  /** Whether both sheets of a reference workbook could be read. */
  predicate ReferenceRead(first: SheetResult, second: SheetResult)
  {
    first.Read? && second.Read?
  }

  /**
   * The script's two runs. All four reference sheets are read first, so an
   * unreadable one stops everything. Then the in-vivo table is built, with
   * no earlier layout; a failure there stops the script before the
   * ex-vivo run. Then the ex-vivo table, which keeps the in-vivo layout when
   * its own reference sheets disagree; a failure there leaves the in-vivo
   * table already written.
   */
  method VariableTables(invivoFirst: SheetResult, invivoSecond: SheetResult, invivoBooks: seq<Workbook>,
                        exvivoFirst: SheetResult, exvivoSecond: SheetResult, exvivoBooks: seq<Workbook>)
    returns (iv: Result<Output, Error>, ev: Result<Output, Error>, ghost ivSorted: seq<Record>, ghost evSorted: seq<Record>)
    ensures iv.Failure? <==>
              || !ReferenceRead(invivoFirst, invivoSecond) || !ReferenceRead(exvivoFirst, exvivoSecond)
              || ReferenceLayout(invivoFirst, invivoSecond, None).Failure?
              || exists i :: 0 <= i < |invivoBooks| && Fatal(InvivoNaming, invivoBooks[i].stem)
    ensures iv.Success? ==> ReferenceLayout(invivoFirst, invivoSecond, None) == Success(iv.value.layout)
    ensures iv.Success? ==> Produced(InvivoAsWritten, invivoBooks, iv.value, ivSorted)
    ensures iv.Success? ==> |iv.value.table.columns| == 1 + 9 * |iv.value.layout|
    ensures iv.Success? ==> |iv.value.table.records| == |invivoBooks|
    ensures ev.Failure? <==> iv.Failure? || ReferenceLayout(exvivoFirst, exvivoSecond, Some(iv.value.layout)).Failure?
    ensures ev.Success? ==> ReferenceLayout(exvivoFirst, exvivoSecond, Some(iv.value.layout)) == Success(ev.value.layout)
    ensures ev.Success? ==> Produced(ExvivoAsWritten, exvivoBooks, ev.value, evSorted)
    ensures ev.Success? ==> |ev.value.table.columns| == 1 + 7 * |ev.value.layout|
  {
    ivSorted, evSorted := [], [];
    if !ReferenceRead(invivoFirst, invivoSecond) || !ReferenceRead(exvivoFirst, exvivoSecond) {
      return Failure(ReferenceUnreadable), Failure(ReferenceUnreadable), ivSorted, evSorted;
    }
    iv, ivSorted := VariableTable(InvivoAsWritten, invivoFirst, invivoSecond, None, invivoBooks);
    if iv.Failure? {
      return iv, Failure(iv.error), ivSorted, evSorted;
    }
    InvivoKeepsAll(invivoBooks);
    OutColumnCounts(iv.value.layout);
    ev, evSorted := VariableTable(ExvivoAsWritten, exvivoFirst, exvivoSecond, Some(iv.value.layout), exvivoBooks);
    if ev.Success? {
      OutColumnCounts(ev.value.layout);
    }
  }

  // ---------------------------------------------------------------- sentinel outcomes

  /**
   * After replacement, a sheet that did not read leaves null in every one of
   * its columns, and a sheet whose keys differ leaves zero, not null: the two
   * failures stay distinguishable.
   */
  lemma FailedSheetsAfterReplacement(m: Modality, reference: seq<string>, b: Workbook, id: string)
    requires WellFormed(m)
    ensures var c := Corrected(m, |reference|);
            var n := |reference|;
            var w1 := |m.first.cols| * n;
            var w2 := |m.second.cols| * n;
            var cells := NullRecord(Record(id, SubjectRow(c, reference, b))).cells;
            && |cells| == w1 + w2
            && (Classify(b.first, reference, m.first.cols) == Unreadable ==> forall j :: 0 <= j < w1 ==> cells[j] == Blank)
            && (Classify(b.first, reference, m.first.cols) == Mismatched ==> forall j :: 0 <= j < w1 ==> cells[j] == Num(0))
            && (Classify(b.second, reference, m.second.cols) == Unreadable ==> forall j :: w1 <= j < w1 + w2 ==> cells[j] == Blank)
            && (Classify(b.second, reference, m.second.cols) == Mismatched ==> forall j :: w1 <= j < w1 + w2 ==> cells[j] == Num(0))
  {
    var c := Corrected(m, |reference|);
    var n := |reference|;
    var v1 := SheetVector(b.first, reference, c.first);
    var v2 := SheetVector(b.second, reference, c.second);
    if Classify(b.first, reference, c.first.cols) == Matched {
      MatchedVectorLength(b.first, reference, c.first);
    }
    if Classify(b.second, reference, c.second.cols) == Matched {
      MatchedVectorLength(b.second, reference, c.second);
    }
    assert SubjectRow(c, reference, b) == v1 + v2;
  }

  // ---------------------------------------------------------------- fixed fallback widths

  /** The in-vivo fallback widths are the matched widths exactly for 446 regions. */
  lemma InvivoFallbacksFitOnly446(n: nat)
    ensures Corrected(InvivoAsWritten, n) == InvivoAsWritten <==> n == 446
  {
  }

  /** The ex-vivo fallback widths equal the matched widths for no region count. */
  lemma ExvivoFallbacksNeverFit(n: nat)
    ensures Corrected(ExvivoAsWritten, n) != ExvivoAsWritten
  {
    assert Corrected(ExvivoAsWritten, n).first.missingWidth == 2 * n;
    assert Corrected(ExvivoAsWritten, n).first.zeroWidth == 2 * n;
  }

  /**
   * As written, an ex-vivo subject whose two sheets both fail to read gets a
   * row of 2230 + 2230 cells, which is wider than the seven names per
   * region for every layout, so the frame cannot be built and the ex-vivo
   * table is lost.
   */
  lemma ExvivoUnreadableSubjectBreaksTable(reference: seq<string>, stem: string)
    requires ExvivoFileId(stem).Identified?
    ensures var b := Workbook(stem, Missing, Missing);
            var row := SubjectRow(ExvivoAsWritten, reference, b);
            && |row| == 4460
            && Assemble(OutColumns(reference, ExvivoAsWritten), Collected([ExvivoFileId(stem).id], [row])).Failure?
  {
    var b := Workbook(stem, Missing, Missing);
    var row := SubjectRow(ExvivoAsWritten, reference, b);
    assert |row| == 2230 + 2230;
    assert MaxWidth([row]) == 4460;
    assert |OutColumns(reference, ExvivoAsWritten)| == 7 * |reference|;
  }

  /**
   * With the corrected widths that subject's row fits and the frame is built;
   * its cells are all null after replacement.
   */
  lemma ExvivoUnreadableSubjectCorrected(reference: seq<string>, stem: string)
    requires ExvivoFileId(stem).Identified?
    ensures var c := Corrected(ExvivoAsWritten, |reference|);
            var row := SubjectRow(c, reference, Workbook(stem, Missing, Missing));
            var asm := Assemble(OutColumns(reference, ExvivoAsWritten), Collected([ExvivoFileId(stem).id], [row]));
            && asm.Success?
            && forall j :: 0 <= j < |row| ==> NullSentinel(asm.value[0].cells[j]) == Blank
  {
    var c := Corrected(ExvivoAsWritten, |reference|);
    var b := Workbook(stem, Missing, Missing);
    var row := SubjectRow(c, reference, b);
    CorrectedRowWidth(ExvivoAsWritten, reference, b);
    var coll := Collected([ExvivoFileId(stem).id], [row]);
    AssembleExact(OutColumns(reference, ExvivoAsWritten), coll);
  }

  /**
   * As written, for every layout of fewer than 638 regions, one ex-vivo
   * subject whose two sheets both fail to read makes the frame fail,
   * whatever the other subjects' rows are: its 4460 cells exceed the `7n`
   * names.
   */
  lemma ExvivoUnreadableRowBreaksAnyTable(reference: seq<string>, c: Collected, i: nat, stem: string)
    requires |c.ids| == |c.rows| && i < |c.rows| && |reference| <= 637
    requires c.rows[i] == SubjectRow(ExvivoAsWritten, reference, Workbook(stem, Missing, Missing))
    ensures Assemble(OutColumns(reference, ExvivoAsWritten), c).Failure?
  {
    assert |c.rows[i]| == 4460;
    assert |OutColumns(reference, ExvivoAsWritten)| == 7 * |reference|;
  }

  /**
   * As written, at 446 regions: a subject whose T2w sheet matches but whose
   * DTI sheet has other keys gets 892 + 892 cells. Next to a fully matched
   * subject (892 + 2230 cells) the frame is built by padding, so the last
   * three DTI measures of that subject come out null instead of zero.
   */
  lemma ExvivoDtiMismatchPadded(reference: seq<string>, full: Workbook, partial: Workbook, idFull: string, idPartial: string)
    requires |reference| == 446
    requires Classify(full.first, reference, ExvivoAsWritten.first.cols) == Matched
    requires Classify(full.second, reference, ExvivoAsWritten.second.cols) == Matched
    requires Classify(partial.first, reference, ExvivoAsWritten.first.cols) == Matched
    requires Classify(partial.second, reference, ExvivoAsWritten.second.cols) == Mismatched
    ensures var rowFull := SubjectRow(ExvivoAsWritten, reference, full);
            var rowPartial := SubjectRow(ExvivoAsWritten, reference, partial);
            var asm := Assemble(OutColumns(reference, ExvivoAsWritten), Collected([idFull, idPartial], [rowFull, rowPartial]));
            && |rowPartial| == 1784
            && asm.Success? && |asm.value| == 2 && |asm.value[1].cells| == 3122
            && (forall j :: 892 <= j < 1784 ==> asm.value[1].cells[j] == Num(0))
            && (forall j :: 1784 <= j < 3122 ==> asm.value[1].cells[j] == Blank)
  {
    var m := ExvivoAsWritten;
    var rowFull := SubjectRow(m, reference, full);
    var rowPartial := SubjectRow(m, reference, partial);
    MatchedVectorLength(full.first, reference, m.first);
    MatchedVectorLength(full.second, reference, m.second);
    MatchedVectorLength(partial.first, reference, m.first);
    var v1 := SheetVector(partial.first, reference, m.first);
    var v2 := SheetVector(partial.second, reference, m.second);
    assert rowPartial == v1 + v2 && |v1| == 892 && |v2| == 892;
    assert |rowFull| == 3122;
    var rows := [rowFull, rowPartial];
    assert MaxWidth(rows) == 3122;
    assert |OutColumns(reference, m)| == 3122;
    var asm := Assemble(OutColumns(reference, m), Collected([idFull, idPartial], rows));
    assert asm.value[1].cells[..1784] == rowPartial;
    forall j | 892 <= j < 1784 ensures asm.value[1].cells[j] == Num(0) {
      assert asm.value[1].cells[j] == asm.value[1].cells[..1784][j] == rowPartial[j] == v2[j - 892];
    }
  }

  /**
   * As written, at 446 regions: a subject whose T2w sheet fails to read and
   * whose DTI sheet has other keys gets 2230 + 892 = 3122 cells, exactly
   * `7n`. The frame accepts the row without padding, but misaligned: the
   * DWI-volume, AD and FA columns (positions 892..2229) come out null, and
   * only the MD and RD columns hold the zeros of the mismatched DTI sheet.
   */
  lemma ExvivoT2wMissingDtiMismatchMisaligned(reference: seq<string>, b: Workbook, id: string)
    requires |reference| == 446
    requires Classify(b.first, reference, ExvivoAsWritten.first.cols) == Unreadable
    requires Classify(b.second, reference, ExvivoAsWritten.second.cols) == Mismatched
    ensures var row := SubjectRow(ExvivoAsWritten, reference, b);
            var asm := Assemble(OutColumns(reference, ExvivoAsWritten), Collected([id], [row]));
            && |row| == 3122
            && asm.Success? && |asm.value| == 1 && |asm.value[0].cells| == 3122
            && (forall j :: 892 <= j < 2230 ==> NullSentinel(asm.value[0].cells[j]) == Blank)
            && (forall j :: 2230 <= j < 3122 ==> asm.value[0].cells[j] == Num(0))
  {
    var m := ExvivoAsWritten;
    var v1 := SheetVector(b.first, reference, m.first);
    var v2 := SheetVector(b.second, reference, m.second);
    var row := SubjectRow(m, reference, b);
    assert row == v1 + v2 && |v1| == 2230 && |v2| == 892;
    OutColumnCounts(reference);
    var coll := Collected([id], [row]);
    AssembleExact(OutColumns(reference, m), coll);
    var cells := Assemble(OutColumns(reference, m), coll).value[0].cells;
    assert cells == row;
    forall j | 892 <= j < 2230 ensures NullSentinel(cells[j]) == Blank {
      assert cells[j] == v1[j];
    }
    forall j | 2230 <= j < 3122 ensures cells[j] == Num(0) {
      assert cells[j] == v2[j - 2230];
    }
  }

  /** With corrected widths the same two subjects give a frame in which the mismatched DTI block is zero throughout. */
  lemma ExvivoDtiMismatchCorrected(reference: seq<string>, full: Workbook, partial: Workbook, idFull: string, idPartial: string)
    requires Classify(partial.second, reference, ExvivoAsWritten.second.cols) == Mismatched
    ensures var c := Corrected(ExvivoAsWritten, |reference|);
            var rowFull := SubjectRow(c, reference, full);
            var rowPartial := SubjectRow(c, reference, partial);
            var asm := Assemble(OutColumns(reference, ExvivoAsWritten), Collected([idFull, idPartial], [rowFull, rowPartial]));
            && asm.Success? && |asm.value| == 2
            && |asm.value[1].cells| == 7 * |reference|
            && forall j :: 2 * |reference| <= j < 7 * |reference| ==> asm.value[1].cells[j] == Num(0)
  {
    var m := ExvivoAsWritten;
    var c := Corrected(m, |reference|);
    var n := |reference|;
    CorrectedRowWidth(m, reference, full);
    CorrectedRowWidth(m, reference, partial);
    OutColumnCounts(reference);
    var rows := [SubjectRow(c, reference, full), SubjectRow(c, reference, partial)];
    AssembleExact(OutColumns(reference, m), Collected([idFull, idPartial], rows));
    SizedVectorLength(partial.first, reference, m.first);
    var v1 := SheetVector(partial.first, reference, c.first);
    var v2 := SheetVector(partial.second, reference, c.second);
    assert rows[1] == v1 + v2 && |v1| == 2 * n;
    forall j | 2 * n <= j < 7 * n ensures rows[1][j] == Num(0) {
      assert rows[1][j] == v2[j - 2 * n];
    }
  }

  /** For 446 regions the corrected in-vivo rows are the script's rows, whatever each sheet does. */
  lemma InvivoCorrectedAgrees(reference: seq<string>, b: Workbook)
    requires |reference| == 446
    ensures SubjectRow(Corrected(InvivoAsWritten, |reference|), reference, b) == SubjectRow(InvivoAsWritten, reference, b)
  {
    InvivoFallbacksFitOnly446(446);
  }
}
