/**
 * Canonical subject identifiers: the roster columns rewritten into
 * `sub-###` / `sub-ex###` form, and the identifiers read off the file names
 * of the per-subject measurement workbooks.
 */
module SubjectIds {
  import opened Base
  import opened Text

  /** Prefix of every canonical identifier. */
  const SubPrefix: string := "sub-"

  /** Marker of the ex-vivo roster meaning "this animal has no in-vivo data". */
  const Placeholder: string := "-"

  /** `f"sub-{x:03d}"`: zero padding to width 3, the sign counting towards the width. */
  function InvivoId(x: int): (r: string)
    ensures StartsWith(r, SubPrefix)
  {
    SubPrefix + (if x < 0 then "-" + PadLeft(Decimal(-x), 2) else PadLeft(Decimal(x), 3))
  }

  /** The in-vivo roster's first column, rewritten element by element. */
  function InvivoIds(xs: seq<int>): (r: seq<string>)
    ensures |r| == |xs| && forall i :: 0 <= i < |xs| ==> r[i] == InvivoId(xs[i])
  {
    seq(|xs|, i requires 0 <= i < |xs| => InvivoId(xs[i]))
  }

  /**
   * A non-negative roster number becomes `sub-` and at least three digits,
   * exactly three below 1000, with no leading zero beyond the padding, and
   * the digits read back as the number.
   */
  lemma InvivoIdDigits(x: int)
    requires 0 <= x
    ensures |InvivoId(x)| >= 7 && (x < 1000 <==> |InvivoId(x)| == 7)
    ensures |InvivoId(x)| > 7 ==> InvivoId(x)[4] != '0'
    ensures AllDigits(InvivoId(x)[4..]) && ValueOf(InvivoId(x)[4..]) == x
  {
    var p := PadLeft(Decimal(x), 3);
    PaddedNumber(x, 3);
    ThousandIsPow10();
    var id := InvivoId(x);
    assert id == SubPrefix + p;
    assert |id| == 4 + |p| && id[4..] == p;
    if |p| > 3 {
      assert id[4] == p[0];
    }
  }

  /**
   * A negative roster number keeps its minus sign after the prefix, and the
   * sign takes one of the three places: two digits at least, exactly two
   * above -100, with no leading zero beyond the padding.
   */
  lemma InvivoIdNegative(x: int)
    requires x < 0
    ensures InvivoId(x)[4] == '-' && |InvivoId(x)| >= 7
    ensures x > -100 <==> |InvivoId(x)| == 7
    ensures |InvivoId(x)| > 7 ==> InvivoId(x)[5] != '0'
    ensures AllDigits(InvivoId(x)[5..]) && ValueOf(InvivoId(x)[5..]) == -x
  {
    var n: nat := -x;
    var p := PadLeft(Decimal(n), 2);
    PaddedNumber(n, 2);
    HundredIsPow10();
    var id := InvivoId(x);
    assert id == SubPrefix + "-" + p;
    assert |id| == 5 + |p| && id[4] == '-' && id[5..] == p;
    if |p| > 2 {
      assert id[5] == p[0];
    }
  }

  /** Different roster numbers give different identifiers: the merge key stays unique. */
  lemma InvivoIdInjective(x: int, y: int)
    ensures InvivoId(x) == InvivoId(y) ==> x == y
  {
    if InvivoId(x) == InvivoId(y) {
      if x >= 0 && y >= 0 {
        InvivoIdDigits(x);
        InvivoIdDigits(y);
      } else if x < 0 && y < 0 {
        InvivoIdNegative(x);
        InvivoIdNegative(y);
      } else if x >= 0 {
        InvivoIdDigits(x);
        InvivoIdNegative(y);
      } else {
        InvivoIdNegative(x);
        InvivoIdDigits(y);
      }
    }
  }

  /** Distinct roster numbers give a column of distinct identifiers. */
  lemma InvivoIdsDistinct(xs: seq<int>)
    requires forall i, j :: 0 <= i < j < |xs| ==> xs[i] != xs[j]
    ensures forall i, j :: 0 <= i < j < |xs| ==> InvivoIds(xs)[i] != InvivoIds(xs)[j]
  {
    forall i, j | 0 <= i < j < |xs| ensures InvivoIds(xs)[i] != InvivoIds(xs)[j] {
      InvivoIdInjective(xs[i], xs[j]);
    }
  }

  /**
   * The ex-vivo roster's in-vivo cross-reference after the three column
   * rewrites: every `i` becomes `sub-`; a placeholder is then replaced by the
   * animal's ex-vivo database number; finally every `ex` becomes `sub-ex`.
   */
  function CrossReference(inVivoData: string, dbNumber: string): string
  {
    ReplaceAll(Filled(inVivoData, dbNumber), "ex", "sub-ex")
  }

  /** The cross-reference after the first rewrite. */
  function Renamed(inVivoData: string): string
  {
    ReplaceAll(inVivoData, "i", SubPrefix)
  }

  /** The cross-reference after the second rewrite. */
  function Filled(inVivoData: string, dbNumber: string): string
  {
    var renamed := Renamed(inVivoData);
    if renamed == Placeholder then dbNumber else renamed
  }

  /**
   * An `i`-prefixed in-vivo number written the roster's way becomes exactly
   * the in-vivo roster's identifier for that number, so the two rosters meet
   * on the merge key.
   */
  lemma CrossReferenceMatchesInvivoId(x: nat, dbNumber: string)
    ensures CrossReference("i" + PadLeft(Decimal(x), 3), dbNumber) == InvivoId(x)
  {
    var digits := PadLeft(Decimal(x), 3);
    assert 'i' !in digits by {
      assert AllDigits(digits);
    }
    ReplaceCharIsMapChar("i" + digits, 'i', SubPrefix);
    assert ("i" + digits)[1..] == digits;
    MapCharAbsent(digits, 'i', SubPrefix);
    var renamed := SubPrefix + digits;
    assert ReplaceAll("i" + digits, "i", SubPrefix) == renamed;
    assert 'e' !in renamed by {
      assert AllDigits(digits);
      assert forall j :: 4 <= j < |renamed| ==> renamed[j] == digits[j - 4];
    }
    NoOccurrenceWithoutHead(renamed, "ex");
    ReplaceAbsent(renamed, "ex", "sub-ex");
  }

  /** A placeholder row ends up under its own ex-vivo number, rewritten to `sub-ex…`. */
  lemma PlaceholderTakesExvivoNumber(digits: string)
    requires AllDigits(digits)
    ensures CrossReference(Placeholder, "ex" + digits) == "sub-ex" + digits
  {
    assert ReplaceAll(Placeholder, "i", SubPrefix) == Placeholder;
    var filled := "ex" + digits;
    assert filled[..2] == "ex";
    assert filled[2..] == digits;
    assert 'e' !in digits by {
      assert forall j :: 0 <= j < |digits| ==> IsDigit(digits[j]);
    }
    NoOccurrenceWithoutHead(digits, "ex");
    ReplaceAbsent(digits, "ex", "sub-ex");
  }

  /**
   * The column assignments applied to the ex-vivo roster, in place and in
   * the script's order: three passes over the cross-reference column.
   */
  method CanonicaliseCrossReferences(inVivoData: array<string>, dbNumbers: seq<string>)
    requires inVivoData.Length == |dbNumbers|
    modifies inVivoData
    ensures forall k :: 0 <= k < inVivoData.Length ==>
              inVivoData[k] == CrossReference(old(inVivoData[k]), dbNumbers[k])
  {
    RenameMarkers(inVivoData);
    FillPlaceholders(inVivoData, dbNumbers);
    PrefixExvivoNumbers(inVivoData);
  }

  /** First pass: every `i` becomes `sub-`. */
  method RenameMarkers(inVivoData: array<string>)
    modifies inVivoData
    ensures forall k :: 0 <= k < inVivoData.Length ==> inVivoData[k] == Renamed(old(inVivoData[k]))
  {
    for k := 0 to inVivoData.Length
      invariant forall j :: 0 <= j < k ==> inVivoData[j] == Renamed(old(inVivoData[j]))
      invariant forall j :: k <= j < inVivoData.Length ==> inVivoData[j] == old(inVivoData[j])
    {
      inVivoData[k] := Renamed(inVivoData[k]);
    }
  }

  /** Second pass: a placeholder takes the animal's ex-vivo database number. */
  method FillPlaceholders(inVivoData: array<string>, dbNumbers: seq<string>)
    requires inVivoData.Length == |dbNumbers|
    modifies inVivoData
    ensures forall k :: 0 <= k < inVivoData.Length ==>
              inVivoData[k] == (if old(inVivoData[k]) == Placeholder then dbNumbers[k] else old(inVivoData[k]))
  {
    for k := 0 to inVivoData.Length
      invariant forall j :: 0 <= j < k ==>
                  inVivoData[j] == (if old(inVivoData[j]) == Placeholder then dbNumbers[j] else old(inVivoData[j]))
      invariant forall j :: k <= j < inVivoData.Length ==> inVivoData[j] == old(inVivoData[j])
    {
      if inVivoData[k] == Placeholder {
        inVivoData[k] := dbNumbers[k];
      }
    }
  }

  /** Third pass: every `ex` becomes `sub-ex`. */
  method PrefixExvivoNumbers(inVivoData: array<string>)
    modifies inVivoData
    ensures forall k :: 0 <= k < inVivoData.Length ==> inVivoData[k] == ReplaceAll(old(inVivoData[k]), "ex", "sub-ex")
  {
    for k := 0 to inVivoData.Length
      invariant forall j :: 0 <= j < k ==> inVivoData[j] == ReplaceAll(old(inVivoData[j]), "ex", "sub-ex")
      invariant forall j :: k <= j < inVivoData.Length ==> inVivoData[j] == old(inVivoData[j])
    {
      inVivoData[k] := ReplaceAll(inVivoData[k], "ex", "sub-ex");
    }
  }

  /** How a workbook file name yields a subject. */
  datatype FileId = Identified(id: string) | Skipped

  /**
   * In-vivo workbooks: `sub-` plus the second `_`-token of the stem. A stem
   * without a second token has no such token and stops the script (None).
   */
  function InvivoFileId(stem: string): (r: Option<string>)
    ensures r.Some? <==> Count(stem, '_') >= 1
  {
    SplitPieces(stem, '_');
    var tokens := Split(stem, '_');
    if |tokens| < 2 then None else Some(SubPrefix + tokens[1])
  }

  /**
   * Ex-vivo workbooks: three tokens give `sub-` plus the second; four give
   * `sub-` plus the third with every `i` removed; any other count is skipped.
   */
  function ExvivoFileId(stem: string): (r: FileId)
    ensures r.Identified? <==> Count(stem, '_') == 2 || Count(stem, '_') == 3
    ensures r.Identified? ==> StartsWith(r.id, SubPrefix)
  {
    SplitPieces(stem, '_');
    var tokens := Split(stem, '_');
    if |tokens| == 3 then Identified(SubPrefix + tokens[1])
    else if |tokens| == 4 then Identified(SubPrefix + ReplaceAll(tokens[2], "i", ""))
    else Skipped
  }

  /** The stem built from `_`-free tokens: the in-vivo identifier is its second token. */
  lemma InvivoFileIdOfTokens(tokens: seq<string>)
    requires |tokens| >= 2
    requires forall i :: 0 <= i < |tokens| ==> '_' !in tokens[i]
    ensures InvivoFileId(Join(tokens, "_")) == Some(SubPrefix + tokens[1])
  {
    SplitJoin(tokens, '_');
  }

  /** Three `_`-free tokens: the ex-vivo identifier is the second. */
  lemma ExvivoFileIdThreeTokens(a: string, b: string, c: string)
    requires '_' !in a && '_' !in b && '_' !in c
    ensures ExvivoFileId(a + "_" + b + "_" + c) == Identified(SubPrefix + b)
  {
    assert Join([a, b, c], "_") == a + "_" + b + "_" + c by {
      assert [a, b, c][1..] == [b, c];
      assert [b, c][1..] == [c];
      assert Join([b, c], "_") == b + "_" + c;
    }
    SplitJoin([a, b, c], '_');
  }

  /** Four `_`-free tokens: the identifier is the third with no `i` left in it. */
  lemma ExvivoFileIdFourTokens(a: string, b: string, c: string, d: string)
    requires '_' !in a && '_' !in b && '_' !in c && '_' !in d
    ensures ExvivoFileId(a + "_" + b + "_" + c + "_" + d) == Identified(SubPrefix + ReplaceAll(c, "i", ""))
    ensures 'i' !in ReplaceAll(c, "i", "")
  {
    assert Join([a, b, c, d], "_") == a + "_" + b + "_" + c + "_" + d by {
      assert [a, b, c, d][1..] == [b, c, d];
      assert [b, c, d][1..] == [c, d];
      assert [c, d][1..] == [d];
      assert Join([c, d], "_") == c + "_" + d;
      assert Join([b, c, d], "_") == b + "_" + (c + "_" + d);
    }
    SplitJoin([a, b, c, d], '_');
    RemoveChar(c, 'i');
  }
}
