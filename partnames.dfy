/**
 * Names of the partial edge tables: `str(i).zfill(3)` plus the `.pickle`
 * extension (pairwise_correlations.py, line 63), with `int(...)` as the
 * parsing partner of `str(...)`.
 *
 * With width 3 the names sort in worker order only while every worker index
 * is below 1000; `NameWidth` widens the padding to the largest index, which
 * keeps width 3 for every run of at most 1001 processes.
 */
module PartNames {
  import opened PyStrings

  predicate IsDigit(c: char)
  {
    '0' <= c <= '9'
  }

  predicate AllDigits(s: string)
  {
    forall k :: 0 <= k < |s| ==> IsDigit(s[k])
  }

  function DigitValue(c: char): (d: nat)
    requires IsDigit(c)
    ensures d < 10
  {
    c as int - '0' as int
  }

  function DigitChar(d: nat): (c: char)
    requires d < 10
    ensures IsDigit(c) && DigitValue(c) == d
  {
    ('0' as int + d) as char
  }

  function Pow10(k: nat): (p: nat)
    ensures p >= 1
  {
    if k == 0 then 1 else 10 * Pow10(k - 1)
  }

  /** `str(i)` for i >= 0: decimal digits, most significant first, no leading zero. */
  function DecimalString(i: nat): (s: string)
    ensures |s| >= 1 && AllDigits(s)
    ensures i > 0 ==> s[0] != '0'
  {
    if i < 10 then [DigitChar(i)] else DecimalString(i / 10) + [DigitChar(i % 10)]
  }

  /** `int(s)` for a string of decimal digits. */
  function Value(s: string): (v: nat)
    requires AllDigits(s)
    ensures v < Pow10(|s|)
  {
    if s == [] then 0 else 10 * Value(s[..|s| - 1]) + DigitValue(s[|s| - 1])
  }

  /** `int(str(i)) == i`. */
  lemma {:induction false} ValueOfDecimal(i: nat)
    ensures Value(DecimalString(i)) == i
  {
    if i >= 10 {
      var s := DecimalString(i);
      assert s[..|s| - 1] == DecimalString(i / 10);
      ValueOfDecimal(i / 10);
    }
  }

  /** The decimal form of i has at most w digits when i < 10^w. */
  lemma {:induction false} DecimalLength(i: nat, w: nat)
    requires w >= 1 && i < Pow10(w)
    ensures |DecimalString(i)| <= w
  {
    if i >= 10 {
      assert i / 10 < Pow10(w - 1);
      DecimalLength(i / 10, w - 1);
    }
  }

  /** A larger number never has fewer digits. */
  lemma {:induction false} DecimalLengthMonotone(i: nat, j: nat)
    requires i <= j
    ensures |DecimalString(i)| <= |DecimalString(j)|
  {
    if i >= 10 {
      DecimalLengthMonotone(i / 10, j / 10);
    }
  }

  function Zeros(k: nat): (z: string)
    ensures |z| == k && forall n :: 0 <= n < k ==> z[n] == '0'
  {
    seq(k, _ => '0')
  }

  /** `s.zfill(width)`: pad with '0' on the left up to width, after a leading sign if there is one. */
  function ZFill(s: string, width: nat): (r: string)
    ensures |r| == if |s| < width then width else |s|
  {
    if |s| >= width then s
    else if |s| > 0 && (s[0] == '+' || s[0] == '-') then [s[0]] + Zeros(width - |s|) + s[1..]
    else Zeros(width - |s|) + s
  }

  lemma {:induction false} ValueOfZeros(k: nat)
    ensures AllDigits(Zeros(k)) && Value(Zeros(k)) == 0
  {
    if k > 0 {
      assert Zeros(k)[..k - 1] == Zeros(k - 1);
      ValueOfZeros(k - 1);
    }
  }

  /** Leading zeros do not change the number a digit string denotes. */
  lemma {:induction false} ValueLeadingZeros(k: nat, s: string)
    requires AllDigits(s)
    ensures AllDigits(Zeros(k) + s) && Value(Zeros(k) + s) == Value(s)
  {
    var z := Zeros(k) + s;
    assert forall n :: 0 <= n < |z| ==> z[n] == if n < k then '0' else s[n - k];
    if s == [] {
      assert z == Zeros(k);
      ValueOfZeros(k);
    } else {
      assert z[..|z| - 1] == Zeros(k) + s[..|s| - 1];
      ValueLeadingZeros(k, s[..|s| - 1]);
    }
  }

  /** Padding a digit string keeps it a digit string for the same number. */
  lemma ZFillDigits(s: string, width: nat)
    requires AllDigits(s)
    ensures AllDigits(ZFill(s, width)) && Value(ZFill(s, width)) == Value(s)
  {
    if |s| < width {
      assert |s| > 0 ==> IsDigit(s[0]);
      ValueLeadingZeros(width - |s|, s);
    }
  }

  lemma Regroup(d: nat, q: nat, v: nat, l: nat)
    ensures 10 * (d * q + v) + l == d * (10 * q) + (10 * v + l)
  {
  }

  /** Reading a digit string from its first digit. */
  lemma {:induction false} ValueCons(c: char, s: string)
    requires IsDigit(c) && AllDigits(s)
    ensures AllDigits([c] + s) && Value([c] + s) == DigitValue(c) * Pow10(|s|) + Value(s)
  {
    var t := [c] + s;
    AllDigitsCons(c, s);
    if s != [] {
      var s', l := s[..|s| - 1], DigitValue(s[|s| - 1]);
      assert t[..|t| - 1] == [c] + s';
      assert t[|t| - 1] == s[|s| - 1];
      ValueCons(c, s');
      Regroup(DigitValue(c), Pow10(|s'|), Value(s'), l);
    }
  }

  lemma AllDigitsCons(c: char, s: string)
    requires IsDigit(c) && AllDigits(s)
    ensures AllDigits([c] + s)
  {
    var t := [c] + s;
    assert forall n :: 0 < n < |t| ==> t[n] == s[n - 1];
  }

  lemma MulStep(d: nat, e: nat, p: nat)
    requires d < e
    ensures d * p + p <= e * p
  {
    var k := e - d;
    assert e * p == d * p + k * p;
    assert k * p == p + (k - 1) * p;
  }

  /** For digit strings of one length, Python's string order is numeric order. */
  lemma {:induction false} DigitStringOrder(a: string, b: string)
    requires AllDigits(a) && AllDigits(b) && |a| == |b|
    ensures LexLess(a, b) <==> Value(a) < Value(b)
  {
    if a != [] {
      var n := |a| - 1;
      assert a == [a[0]] + a[1..] && b == [b[0]] + b[1..];
      ValueCons(a[0], a[1..]);
      ValueCons(b[0], b[1..]);
      var p := Pow10(n);
      if a[0] == b[0] {
        DigitStringOrder(a[1..], b[1..]);
      } else if a[0] < b[0] {
        MulStep(DigitValue(a[0]), DigitValue(b[0]), p);
      } else {
        MulStep(DigitValue(b[0]), DigitValue(a[0]), p);
      }
    }
  }

  /** `str(i).zfill(width)`. */
  function PaddedName(i: nat, width: nat): (s: string)
    ensures |s| >= 1
    ensures AllDigits(s) && Value(s) == i
  {
    ZFillDigits(DecimalString(i), width);
    ValueOfDecimal(i);
    ZFill(DecimalString(i), width)
  }

  /** A padded name is exactly as wide as asked when i fits. */
  lemma PaddedNameShape(i: nat, width: nat)
    ensures |DecimalString(i)| <= width ==> |PaddedName(i, width)| == width
  {
  }

  /** Padded names of indices that fit the width sort in numeric order. */
  lemma PaddedNamesOrdered(i: nat, j: nat, width: nat)
    requires |DecimalString(i)| <= width && |DecimalString(j)| <= width
    ensures LexLess(PaddedName(i, width), PaddedName(j, width)) <==> i < j
  {
    PaddedNameShape(i, width);
    PaddedNameShape(j, width);
    DigitStringOrder(PaddedName(i, width), PaddedName(j, width));
  }

  /** `str(i).zfill(3)` for i < 1000 is three digits that parse back to i. */
  lemma SourceNameShape(i: nat)
    requires i < 1000
    ensures |PaddedName(i, 3)| == 3 && AllDigits(PaddedName(i, 3)) && Value(PaddedName(i, 3)) == i
  {
    assert Pow10(3) == 1000;
    DecimalLength(i, 3);
    PaddedNameShape(i, 3);
  }

  /** Below 1000, `str(i).zfill(3)` sorts as the numbers do. */
  lemma SourceNamesOrdered(i: nat, j: nat)
    requires i < 1000 && j < 1000
    ensures LexLess(PaddedName(i, 3), PaddedName(j, 3)) <==> i < j
  {
    assert Pow10(3) == 1000;
    DecimalLength(i, 3);
    DecimalLength(j, 3);
    PaddedNamesOrdered(i, j, 3);
  }

  /** name is a ".pickle" file whose stem is a digit string denoting i. */
  ghost predicate NamesPartOf(name: string, i: nat)
  {
    |name| > 7 && name[|name| - 7..] == ".pickle" &&
    AllDigits(name[..|name| - 7]) && Value(name[..|name| - 7]) == i
  }

  /** The file a worker writes: the padded index with the `.pickle` extension. */
  function PartFileName(i: nat, width: nat): string
  {
    PaddedName(i, width) + ".pickle"
  }

  /** A worker's file name reads back as its index: digits, then `.pickle`. */
  lemma PartFileNameParses(i: nat, width: nat)
    ensures NamesPartOf(PartFileName(i, width), i)
  {
    var stem := PaddedName(i, width);
    assert (stem + ".pickle")[..|stem|] == stem;
  }

  /** Different workers never write the same file. */
  lemma PartFileNameInjective(i: nat, j: nat, width: nat)
    requires PartFileName(i, width) == PartFileName(j, width)
    ensures i == j
  {
    PartFileNameParses(i, width);
    PartFileNameParses(j, width);
  }

  /** File names of indices that fit the width sort in numeric order. */
  lemma PartFileNamesOrdered(i: nat, j: nat, width: nat)
    requires |DecimalString(i)| <= width && |DecimalString(j)| <= width
    ensures LexLess(PartFileName(i, width), PartFileName(j, width)) <==> i < j
  {
    PaddedNameShape(i, width);
    PaddedNameShape(j, width);
    LexLessCommonSuffix(PaddedName(i, width), PaddedName(j, width), ".pickle");
    PaddedNamesOrdered(i, j, width);
  }

  /**
   * As written the width is always 3: once a run has a worker 1000, its file
   * sorts before that of worker 101.
   */
  lemma WidthThreeMisordersAt1000()
    ensures 101 < 1000 && LexLess(PartFileName(1000, 3), PartFileName(101, 3))
  {
    assert DecimalString(1) == "1";
    assert DecimalString(10) == "10";
    assert DecimalString(100) == "100";
    assert DecimalString(1000) == "1000";
    assert DecimalString(101) == "101";
    assert PartFileName(1000, 3) == "1000.pickle";
    assert PartFileName(101, 3) == "101.pickle";
    assert LexLess("0.pickle", "1.pickle");
    assert LexLess("00.pickle", "01.pickle");
    assert LexLess("000.pickle", "01.pickle");
  }

  /**
   * The padding width for a run of nProcesses processes: 3, or the digit count
   * of the largest worker index (nProcesses - 2) when that is larger.
   */
  function NameWidth(nProcesses: nat): (w: nat)
    ensures w >= 3
    ensures forall i: nat :: i + 1 < nProcesses ==> |DecimalString(i)| <= w
  {
    if nProcesses < 2 then 3
    else
      var widest := |DecimalString(nProcesses - 2)|;
      assert forall i: nat :: i + 1 < nProcesses ==> |DecimalString(i)| <= widest by {
        forall i: nat | i + 1 < nProcesses ensures |DecimalString(i)| <= widest {
          DecimalLengthMonotone(i, nProcesses - 2);
        }
      }
      if widest > 3 then widest else 3
  }

  /** For at most 1001 processes the width is the 3 of the source, so the names are the same. */
  lemma NameWidthMatchesSource(nProcesses: nat)
    requires nProcesses <= 1001
    ensures NameWidth(nProcesses) == 3
    ensures forall i: nat :: PartFileName(i, NameWidth(nProcesses)) == PartFileName(i, 3)
  {
    if nProcesses >= 2 {
      assert Pow10(3) == 1000;
      DecimalLength(nProcesses - 2, 3);
    }
  }
}
