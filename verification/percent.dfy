/**
  Extraction of one coverage percentage from a table cell: the leftmost
  substring of the form `digits '.' digits '%'` (the regular expression
  `(\d+\.\d+)%`), read as an exact decimal number. A cell without such a
  substring reads as 0.
 */
module Percent {
  import opened Wrappers

  predicate IsDigit(c: char) {
    '0' <= c <= '9'
  }

  /** Every character of `s[lo..hi]` is a digit. */
  predicate DigitsIn(s: string, lo: nat, hi: nat) {
    forall k :: lo <= k < hi && k < |s| ==> IsDigit(s[k])
  }

  predicate AllDigits(s: string) {
    forall k :: 0 <= k < |s| ==> IsDigit(s[k])
  }

  /**
    The pattern matches `s` from `start`: digits up to the `.` at `dot`,
    at least one digit after it, and the `%` at `pct`.
   */
  predicate PercentAt(s: string, start: nat, dot: nat, pct: nat) {
    && start < dot && dot + 1 < pct < |s|
    && DigitsIn(s, start, dot) && s[dot] == '.'
    && DigitsIn(s, dot + 1, pct) && s[pct] == '%'
  }

  /** Where a match lies: `s[start..pct]` is the number, `s[dot]` its decimal point. */
  datatype Match = Match(start: nat, dot: nat, pct: nat)

  /** The end of the run of digits that begins at `i`. */
  function DigitRunEnd(s: string, i: nat): (j: nat)
    requires i <= |s|
    ensures i <= j <= |s|
    ensures DigitsIn(s, i, j)
    ensures j < |s| ==> !IsDigit(s[j])
    decreases |s| - i
  {
    if i < |s| && IsDigit(s[i]) then DigitRunEnd(s, i + 1) else i
  }

  /**
    The match of the pattern that starts exactly at `start`, if any. The two
    runs of digits are taken whole: neither can be followed by a digit.
   */
  function MatchAt(s: string, start: nat): (r: Option<Match>)
    requires start <= |s|
    ensures r.Some? ==> r.value.start == start && PercentAt(s, start, r.value.dot, r.value.pct)
    ensures r.None? ==> forall dot, pct :: !PercentAt(s, start, dot, pct)
  {
    if start < |s| && IsDigit(s[start]) then
      var dot := DigitRunEnd(s, start);
      if dot < |s| && s[dot] == '.' then
        var pct := DigitRunEnd(s, dot + 1);
        if dot + 1 < pct < |s| && s[pct] == '%' then Some(Match(start, dot, pct)) else None
      else None
    else None
  }

  /** At a given start the pattern can match in only one way, and `MatchAt` finds it. */
  lemma MatchAtUnique(s: string, start: nat, dot: nat, pct: nat)
    requires PercentAt(s, start, dot, pct)
    ensures MatchAt(s, start) == Some(Match(start, dot, pct))
  {
    var d := DigitRunEnd(s, start);
    assert d == dot;
    var p := DigitRunEnd(s, dot + 1);
    assert p == pct;
  }

  /** Python's `re.search(r'(\d+\.\d+)%', s)` scanning from `from`: the leftmost match. */
  function Search(s: string, from: nat): (r: Option<Match>)
    requires from <= |s|
    ensures r.Some? ==> from <= r.value.start && PercentAt(s, r.value.start, r.value.dot, r.value.pct)
    ensures r.Some? ==> forall i, dot, pct :: from <= i < r.value.start ==> !PercentAt(s, i, dot, pct)
    ensures r.None? ==> forall i, dot, pct :: from <= i ==> !PercentAt(s, i, dot, pct)
    decreases |s| - from
  {
    if from == |s| then None
    else
      match MatchAt(s, from)
      case Some(m) => Some(m)
      case None => Search(s, from + 1)
  }

  // ---------------------------------------------------------------- exact value

  function DigitValue(c: char): (d: nat)
    requires IsDigit(c)
    ensures d < 10
  {
    c as int - '0' as int
  }

  /** The number a string of decimal digits denotes; the empty string denotes 0. */
  function NatOf(ds: string): nat
    requires AllDigits(ds)
  {
    if ds == [] then 0 else NatOf(ds[..|ds| - 1]) * 10 + DigitValue(ds[|ds| - 1])
  }

  function Pow10(n: nat): (p: nat)
    ensures p >= 1
  {
    if n == 0 then 1 else 10 * Pow10(n - 1)
  }

  /** The number written `whole.frac`, exactly. */
  function Decimal(whole: string, frac: string): real
    requires AllDigits(whole) && AllDigits(frac)
  {
    NatOf(whole) as real + NatOf(frac) as real / Pow10(|frac|) as real
  }

  /** `whole` gives the integer part of `whole.frac`; the fraction digits add less than 1. */
  lemma DecimalBounds(whole: string, frac: string)
    requires AllDigits(whole) && AllDigits(frac)
    ensures NatOf(whole) as real <= Decimal(whole, frac) < NatOf(whole) as real + 1.0
  {
    NatOfBound(frac);
    FractionBelowOne(NatOf(frac), Pow10(|frac|));
  }

  lemma FractionBelowOne(f: nat, p: nat)
    requires f < p
    ensures 0.0 <= f as real / p as real < 1.0
  {
    var x := f as real / p as real;
    assert x * p as real == f as real;
  }

  /** The metric a cell yields: the leftmost match read exactly, or 0 when there is none. */
  function MetricOf(cell: string): real
  {
    match Search(cell, 0)
    case None => 0.0
    case Some(m) => Decimal(cell[m.start..m.dot], cell[m.dot + 1..m.pct])
  }

  /** No cell yields a negative metric. */
  lemma MetricNonNegative(cell: string)
    ensures 0.0 <= MetricOf(cell)
  {
    match Search(cell, 0)
    case None =>
    case Some(m) =>
      DecimalBounds(cell[m.start..m.dot], cell[m.dot + 1..m.pct]);
  }

  // ---------------------------------------------------------------- properties

  /** `n` digits denote less than `10^n`. */
  lemma {:induction false} NatOfBound(ds: string)
    requires AllDigits(ds)
    ensures NatOf(ds) < Pow10(|ds|)
  {
    if ds != [] {
      var init := ds[..|ds| - 1];
      NatOfBound(init);
      assert NatOf(init) + 1 <= Pow10(|init|);
      assert NatOf(ds) < (NatOf(init) + 1) * 10;
    }
  }

  /** Digits denote 0 exactly when every one of them is `0`. */
  lemma {:induction false} NatOfZero(ds: string)
    requires AllDigits(ds)
    ensures NatOf(ds) == 0 <==> forall k :: 0 <= k < |ds| ==> ds[k] == '0'
  {
    if ds != [] {
      var init := ds[..|ds| - 1];
      NatOfZero(init);
      assert forall k :: 0 <= k < |init| ==> init[k] == ds[k];
    }
  }

  /** Appending digits shifts the value left: `NatOf(a + b) == NatOf(a) * 10^|b| + NatOf(b)`. */
  lemma {:induction false} NatOfAppend(a: string, b: string)
    requires AllDigits(a) && AllDigits(b)
    ensures AllDigits(a + b)
    ensures NatOf(a + b) == NatOf(a) * Pow10(|b|) + NatOf(b)
  {
    if b == [] {
      assert a + b == a;
    } else {
      var bi := b[..|b| - 1];
      var ab := a + b;
      assert ab[..|ab| - 1] == a + bi;
      assert ab[|ab| - 1] == b[|b| - 1];
      NatOfAppend(a, bi);
      var d := DigitValue(b[|b| - 1]);
      assert NatOf(ab) == NatOf(a + bi) * 10 + d;
      assert NatOf(b) == NatOf(bi) * 10 + d;
      ShiftStep(NatOf(a), Pow10(|bi|), NatOf(bi), d);
    }
  }

  lemma ShiftStep(x: nat, p: nat, y: nat, d: nat)
    ensures (x * p + y) * 10 + d == x * (10 * p) + (y * 10 + d)
  {}

  /** `whole.frac` is the digits of both read as one integer, divided by `10^|frac|`. */
  lemma DecimalExact(whole: string, frac: string)
    requires AllDigits(whole) && AllDigits(frac)
    ensures AllDigits(whole + frac)
    ensures Decimal(whole, frac) == NatOf(whole + frac) as real / Pow10(|frac|) as real
  {
    NatOfAppend(whole, frac);
    var w, f, p := NatOf(whole), NatOf(frac), Pow10(|frac|);
    assert NatOf(whole + frac) == w * p + f;
    ScaleBack(w, f, p);
  }

  lemma ScaleBack(w: nat, f: nat, p: nat)
    requires p >= 1
    ensures w as real + f as real / p as real == (w * p + f) as real / p as real
  {
    var q := p as real;
    var x := f as real / q;
    assert x * q == f as real;
    var y := (w * p + f) as real / q;
    assert y * q == (w * p + f) as real;
    assert (w * p) as real == w as real * q;
    assert (w as real + x) * q == w as real * q + x * q;
    assert (w as real + x) * q == y * q;
  }

  /** An integer plus a fraction in [0, 1) is 100 only when the integer is 100 and the fraction 0. */
  lemma HundredSplit(w: nat, f: nat, p: nat)
    requires f < p
    ensures w as real + f as real / p as real == 100.0 <==> w == 100 && f == 0
  {
    var x := f as real / p as real;
    assert x * p as real == f as real;
    assert 0.0 <= x < 1.0;
  }

  /**
    The coverage policy's test `value == 100.0` on a matched number: it holds
    exactly when the integer digits denote 100 and every fraction digit is `0`
    (so `100.00` and `0100.0` pass, `99.99` and `100.01` fail).
   */
  lemma DecimalIsHundred(whole: string, frac: string)
    requires AllDigits(whole) && AllDigits(frac)
    ensures Decimal(whole, frac) == 100.0 <==>
            NatOf(whole) == 100 && forall k :: 0 <= k < |frac| ==> frac[k] == '0'
  {
    NatOfBound(frac);
    NatOfZero(frac);
    HundredSplit(NatOf(whole), NatOf(frac), Pow10(|frac|));
  }

  /** Where the pattern matches in a cell `<pre>W.F%<post>` whose `pre` has no digit. */
  lemma CellMatch(pre: string, whole: string, frac: string, post: string)
    requires forall k :: 0 <= k < |pre| ==> !IsDigit(pre[k])
    requires whole != [] && AllDigits(whole)
    requires frac != [] && AllDigits(frac)
    ensures var start := |pre|; var dot := start + |whole|;
      Search(pre + whole + "." + frac + "%" + post, 0) == Some(Match(start, dot, dot + 1 + |frac|))
  {
    var cell := pre + whole + "." + frac + "%" + post;
    var start := |pre|;
    var dot := start + |whole|;
    var pct := dot + 1 + |frac|;
    assert cell[dot] == '.' && cell[pct] == '%';
    assert forall k :: start <= k < dot ==> cell[k] == whole[k - start];
    assert forall k :: dot + 1 <= k < pct ==> cell[k] == frac[k - dot - 1];
    assert PercentAt(cell, start, dot, pct);
    assert forall i, d, p :: 0 <= i < start ==> !PercentAt(cell, i, d, p) by {
      forall i, d, p | 0 <= i < start ensures !PercentAt(cell, i, d, p) {
        assert cell[i] == pre[i];
      }
    }
    match Search(cell, 0)
    case None =>
      assert false;
    case Some(m) =>
      assert m.start == start;
      MatchAtUnique(cell, start, m.dot, m.pct);
      MatchAtUnique(cell, start, dot, pct);
  }

  /**
    A cell holding `<pre>W.F%<post>`, where `pre` has no digit, yields exactly
    the number `W.F`, whatever follows the `%` (such as ` (12/12) `).
   */
  lemma CellValue(pre: string, whole: string, frac: string, post: string)
    requires forall k :: 0 <= k < |pre| ==> !IsDigit(pre[k])
    requires whole != [] && AllDigits(whole)
    requires frac != [] && AllDigits(frac)
    ensures MetricOf(pre + whole + "." + frac + "%" + post) == Decimal(whole, frac)
  {
    var cell := pre + whole + "." + frac + "%" + post;
    var start := |pre|;
    var dot := start + |whole|;
    var pct := dot + 1 + |frac|;
    CellMatch(pre, whole, frac, post);
    assert cell == (pre + whole) + (['.'] + frac) + ("%" + post);
    assert cell[start..dot] == whole;
    assert cell[dot + 1..pct] == frac;
  }

  /** A cell without a decimal point, such as `100%`, yields 0. */
  lemma NoPointIsZero(cell: string)
    requires '.' !in cell
    ensures MetricOf(cell) == 0.0
  {
    match Search(cell, 0)
    case None =>
    case Some(m) =>
      assert false;
  }
}
