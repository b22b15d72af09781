/**
 * String operations the conversion script relies on, written out with
 * Python's semantics: `str.join`, `str.split` on a one-character separator,
 * `str.replace` (all non-overlapping occurrences, scanning left to right) and
 * decimal rendering of integers.
 */
module Text {

  /** `sep.join(parts)`: the parts in order, one separator between neighbours. */
  function Join(parts: seq<string>, sep: string): string
  {
    if |parts| == 0 then ""
    else if |parts| == 1 then parts[0]
    else parts[0] + sep + Join(parts[1..], sep)
  }

  /** `s.split(c)`: the maximal pieces between occurrences of `c`; never empty. */
  function Split(s: string, c: char): (r: seq<string>)
    ensures |r| >= 1
  {
    if |s| == 0 then [""]
    else
      var rest := Split(s[1..], c);
      if s[0] == c then [""] + rest
      else [[s[0]] + rest[0]] + rest[1..]
  }

  /** Number of occurrences of `c` in `s`. */
  function Count(s: string, c: char): nat
  {
    if |s| == 0 then 0 else (if s[0] == c then 1 else 0) + Count(s[1..], c)
  }

  /** Joining the pieces of a split with the separator gives the string back. */
  lemma {:induction false} JoinSplit(s: string, c: char)
    ensures Join(Split(s, c), [c]) == s
  {
    if |s| > 0 {
      JoinSplit(s[1..], c);
      var rest := Split(s[1..], c);
      if s[0] != c {
        if |rest| > 1 {
          assert rest == [rest[0]] + rest[1..];
          assert Join(rest, [c]) == rest[0] + [c] + Join(rest[1..], [c]);
        }
        assert s == [s[0]] + s[1..];
      } else {
        assert s == [c] + s[1..];
      }
    }
  }

  /** No piece of a split contains the separator, and there is one piece more than separators. */
  lemma {:induction false} SplitPieces(s: string, c: char)
    ensures forall i :: 0 <= i < |Split(s, c)| ==> c !in Split(s, c)[i]
    ensures |Split(s, c)| == Count(s, c) + 1
  {
    if |s| > 0 {
      SplitPieces(s[1..], c);
      var rest := Split(s[1..], c);
      if s[0] != c {
        var r := Split(s, c);
        forall i | 0 <= i < |r| ensures c !in r[i] {
          if i == 0 {
            assert r[0] == [s[0]] + rest[0];
          } else {
            assert r[i] == rest[i];
          }
        }
      }
    }
  }

  /** Splitting a join of separator-free parts recovers the parts. */
  lemma {:induction false} SplitJoin(parts: seq<string>, c: char)
    requires |parts| >= 1
    requires forall i :: 0 <= i < |parts| ==> c !in parts[i]
    ensures Split(Join(parts, [c]), c) == parts
  {
    if |parts| == 1 {
      SplitFree(parts[0], c);
    } else {
      SplitJoin(parts[1..], c);
      SplitAfterPiece(parts[0], c, Join(parts[1..], [c]));
      assert parts == [parts[0]] + parts[1..];
    }
  }

  /** A string without the separator splits into itself. */
  lemma {:induction false} SplitFree(s: string, c: char)
    requires c !in s
    ensures Split(s, c) == [s]
  {
    if |s| > 0 {
      SplitFree(s[1..], c);
      assert s == [s[0]] + s[1..];
    }
  }

  /** A separator-free head followed by the separator splits off as one piece. */
  lemma {:induction false} SplitAfterPiece(p: string, c: char, t: string)
    requires c !in p
    ensures Split(p + [c] + t, c) == [p] + Split(t, c)
  {
    if |p| == 0 {
      assert p + [c] + t == [c] + t;
      assert ([c] + t)[1..] == t;
    } else {
      SplitAfterPiece(p[1..], c, t);
      assert (p + [c] + t)[1..] == p[1..] + [c] + t;
      assert p == [p[0]] + p[1..];
    }
  }

  /** `s.replace(pat, rep)`: every non-overlapping occurrence, leftmost first. */
  function ReplaceAll(s: string, pat: string, rep: string): string
    requires |pat| > 0
    decreases |s|
  {
    if |s| < |pat| then s
    else if s[..|pat|] == pat then rep + ReplaceAll(s[|pat|..], pat, rep)
    else [s[0]] + ReplaceAll(s[1..], pat, rep)
  }

  /** Reference definition for a one-character pattern: each character maps on its own. */
  function MapChar(s: string, c: char, rep: string): string
  {
    if |s| == 0 then "" else (if s[0] == c then rep else [s[0]]) + MapChar(s[1..], c, rep)
  }

  /** With a one-character pattern, `replace` is the character-wise substitution. */
  lemma {:induction false} ReplaceCharIsMapChar(s: string, c: char, rep: string)
    ensures ReplaceAll(s, [c], rep) == MapChar(s, c, rep)
  {
    if |s| > 0 {
      ReplaceCharIsMapChar(s[1..], c, rep);
      assert s[..1] == [s[0]];
    }
  }

  /** Removing a character (`s.replace(c, '')`) leaves none of it and keeps a string free of it as is. */
  lemma {:induction false} RemoveChar(s: string, c: char)
    ensures c !in ReplaceAll(s, [c], "")
    ensures c !in s ==> ReplaceAll(s, [c], "") == s
  {
    ReplaceCharIsMapChar(s, c, "");
    MapCharRemoves(s, c);
  }

  lemma {:induction false} MapCharRemoves(s: string, c: char)
    ensures c !in MapChar(s, c, "")
    ensures c !in s ==> MapChar(s, c, "") == s
  {
    if |s| > 0 {
      MapCharRemoves(s[1..], c);
      if c !in s {
        assert c !in s[1..];
        assert s == [s[0]] + s[1..];
      }
    }
  }

  /** `pat` occurs in `s` starting at position `i`. */
  predicate OccursAt(s: string, pat: string, i: int)
  {
    0 <= i && i + |pat| <= |s| && s[i..i + |pat|] == pat
  }

  /** A string in which the pattern never occurs is left unchanged by `replace`. */
  lemma {:induction false} ReplaceAbsent(s: string, pat: string, rep: string)
    requires |pat| > 0
    requires forall i :: !OccursAt(s, pat, i)
    ensures ReplaceAll(s, pat, rep) == s
    decreases |s|
  {
    if |s| >= |pat| {
      assert !OccursAt(s, pat, 0);
      forall i ensures !OccursAt(s[1..], pat, i) {
        if OccursAt(s[1..], pat, i) {
          assert s[1..][i..i + |pat|] == s[i + 1..i + 1 + |pat|];
          assert OccursAt(s, pat, i + 1);
        }
      }
      ReplaceAbsent(s[1..], pat, rep);
      assert s == [s[0]] + s[1..];
    }
  }


  /** A character-wise substitution of a character that does not occur changes nothing. */
  lemma {:induction false} MapCharAbsent(s: string, c: char, rep: string)
    requires c !in s
    ensures MapChar(s, c, rep) == s
  {
    if |s| > 0 {
      assert c !in s[1..];
      MapCharAbsent(s[1..], c, rep);
      assert s == [s[0]] + s[1..];
    }
  }

  /** A pattern whose first character is absent from `s` occurs nowhere in `s`. */
  lemma NoOccurrenceWithoutHead(s: string, pat: string)
    requires |pat| > 0 && pat[0] !in s
    ensures forall i :: !OccursAt(s, pat, i)
  {
  }

  predicate IsDigit(ch: char)
  {
    '0' <= ch <= '9'
  }

  predicate AllDigits(s: string)
  {
    forall i :: 0 <= i < |s| ==> IsDigit(s[i])
  }

  function DigitChar(d: nat): (ch: char)
    requires d < 10
    ensures IsDigit(ch)
  {
    ('0' as int + d) as char
  }

  /** `str(n)` for a natural number: its decimal digits, most significant first, no leading zero. */
  function Decimal(n: nat): (r: string)
    ensures |r| >= 1 && AllDigits(r)
    ensures |r| > 1 ==> r[0] != '0'
  {
    if n < 10 then [DigitChar(n)] else Decimal(n / 10) + [DigitChar(n % 10)]
  }

  /** The number a string of decimal digits denotes. */
  function ValueOf(s: string): nat
    requires AllDigits(s)
  {
    if |s| == 0 then 0 else ValueOf(s[..|s| - 1]) * 10 + (s[|s| - 1] as int - '0' as int)
  }

  /** `10` to the power `k`. */
  function Pow10(k: nat): (r: nat)
    ensures r >= 1
  {
    if k == 0 then 1 else 10 * Pow10(k - 1)
  }

  /** `str(n)` has at most `k` digits exactly when `n < 10^k`. */
  lemma {:induction false} DecimalFits(n: nat, k: nat)
    requires k >= 1
    ensures |Decimal(n)| <= k <==> n < Pow10(k)
  {
    if n >= 10 {
      if k == 1 {
        assert Pow10(1) == 10;
      } else {
        DecimalFits(n / 10, k - 1);
        assert n / 10 < Pow10(k - 1) <==> n < Pow10(k);
      }
    } else {
      PowAtLeastTen(k);
    }
  }

  /** `10^2`: the width bound of a negative roster number in `InvivoIdNegative`. */
  lemma HundredIsPow10()
    ensures Pow10(2) == 100
  {
    assert Pow10(1) == 10;
  }

  /** `10^3`: the width bound of a non-negative roster number in `InvivoIdDigits`. */
  lemma ThousandIsPow10()
    ensures Pow10(3) == 1000
  {
    HundredIsPow10();
  }

  /** A positive power of ten is at least ten: the step case of `DecimalFits`. */
  lemma {:induction false} PowAtLeastTen(k: nat)
    requires k >= 1
    ensures Pow10(k) >= 10
  {
    if k > 1 {
      PowAtLeastTen(k - 1);
    }
  }

  /** Reading back the decimal text of `n` gives `n`. */
  lemma {:induction false} ValueOfDecimal(n: nat)
    ensures ValueOf(Decimal(n)) == n
  {
    if n >= 10 {
      ValueOfDecimal(n / 10);
      var d := Decimal(n / 10);
      assert (d + [DigitChar(n % 10)])[..|d|] == d;
    }
  }

  /** `k` zero characters. */
  function Zeros(k: nat): (r: string)
    ensures |r| == k && AllDigits(r)
  {
    if k == 0 then "" else Zeros(k - 1) + "0"
  }

  /** Leading zeros do not change the value of a digit string. */
  lemma {:induction false} ValueOfZeros(k: nat, s: string)
    requires AllDigits(s)
    ensures AllDigits(Zeros(k) + s) && ValueOf(Zeros(k) + s) == ValueOf(s)
    decreases |s|, k
  {
    if |s| == 0 {
      assert Zeros(k) + s == Zeros(k);
      if k > 0 {
        ValueOfZeros(k - 1, s);
        assert Zeros(k)[..k - 1] == Zeros(k - 1) + s;
      }
    } else {
      var init := s[..|s| - 1];
      ValueOfZeros(k, init);
      assert (Zeros(k) + s)[..|Zeros(k) + s| - 1] == Zeros(k) + init;
    }
  }

  /** `s` left-padded with zeros to at least `w` characters (`zfill`). */
  function PadLeft(s: string, w: nat): (r: string)
    ensures |r| == if |s| >= w then |s| else w
  {
    Zeros(if |s| >= w then 0 else w - |s|) + s
  }

  /** Zero padding keeps a digit string a digit string of the same value, and leaves one already wide enough alone. */
  lemma PadLeftValue(s: string, w: nat)
    requires AllDigits(s)
    ensures AllDigits(PadLeft(s, w)) && ValueOf(PadLeft(s, w)) == ValueOf(s)
    ensures |s| >= w ==> PadLeft(s, w) == s
  {
    ValueOfZeros(if |s| >= w then 0 else w - |s|, s);
    assert Zeros(0) + s == s;
  }

  /**
   * `f"{n:0{w}d}"` for a natural number: at least `w` characters, exactly
   * `w` below `10^w`, no leading zero beyond the padding, and reading back
   * as `n`.
   */
  lemma PaddedNumber(n: nat, w: nat)
    requires w >= 1
    ensures |PadLeft(Decimal(n), w)| >= w
    ensures |PadLeft(Decimal(n), w)| == w <==> n < Pow10(w)
    ensures |PadLeft(Decimal(n), w)| > w ==> PadLeft(Decimal(n), w)[0] != '0'
    ensures AllDigits(PadLeft(Decimal(n), w)) && ValueOf(PadLeft(Decimal(n), w)) == n
  {
    var d := Decimal(n);
    ValueOfDecimal(n);
    PadLeftValue(d, w);
    DecimalFits(n, w);
  }

  /** `str(v)` for an integer: a minus sign before the digits of a negative number. */
  function IntText(v: int): string
  {
    if v < 0 then "-" + Decimal(-v) else Decimal(v)
  }

  /** Python's `str.startswith`. */
  predicate StartsWith(s: string, prefix: string)
  {
    |prefix| <= |s| && s[..|prefix|] == prefix
  }

  /** Python's string order: lexicographic by code point, a proper prefix first. */
  predicate LessEq(a: string, b: string)
  {
    if |a| == 0 then true
    else if |b| == 0 then false
    else if a[0] != b[0] then a[0] < b[0]
    else LessEq(a[1..], b[1..])
  }

  lemma {:induction false} LessEqReflexive(a: string)
    ensures LessEq(a, a)
  {
    if |a| > 0 {
      LessEqReflexive(a[1..]);
    }
  }

  /** Any two strings are ordered one way or the other. */
  lemma {:induction false} LessEqTotal(a: string, b: string)
    ensures LessEq(a, b) || LessEq(b, a)
  {
    if |a| > 0 && |b| > 0 && a[0] == b[0] {
      LessEqTotal(a[1..], b[1..]);
    }
  }

  lemma {:induction false} LessEqTransitive(a: string, b: string, c: string)
    requires LessEq(a, b) && LessEq(b, c)
    ensures LessEq(a, c)
  {
    if |a| > 0 && |b| > 0 && |c| > 0 && a[0] == b[0] && b[0] == c[0] {
      LessEqTransitive(a[1..], b[1..], c[1..]);
    }
  }

  lemma {:induction false} LessEqAntisymmetric(a: string, b: string)
    requires LessEq(a, b) && LessEq(b, a)
    ensures a == b
  {
    if |a| > 0 && |b| > 0 {
      LessEqAntisymmetric(a[1..], b[1..]);
      assert a == [a[0]] + a[1..];
      assert b == [b[0]] + b[1..];
    }
  }
}
