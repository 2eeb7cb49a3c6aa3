/**
  Decimal fixed point in the quantity_t shape: a 60-bit unsigned mantissa and a 4-bit exponent that
  counts decimal places, packed in a 64-bit word.
 */
module DFloats {
  import opened Words
  import opened Numerals

  const MAX_MANTISSA: nat := 0x0FFF_FFFF_FFFF_FFFF   // max<uint64_t>() >> 4
  const MAX_EXPONENT: nat := 15

  datatype Decimal = Decimal(mantissa: nat, exponent: nat) {

    predicate Valid() {
      mantissa <= MAX_MANTISSA && exponent <= MAX_EXPONENT
    }

    /** The value as a whole number of 10^-15: every valid decimal is one. */
    function Units(): nat
      requires exponent <= MAX_EXPONENT
    {
      mantissa * Pow10(MAX_EXPONENT - exponent)
    }
  }

  /** max_per_E[e]: the largest mantissa that may be multiplied by 10^e. */
  function MaxPer(e: nat): int {
    MAX_MANTISSA / Pow10(e)
  }

  lemma NoPower()
    ensures Pow10(0) == 1
  {
  }

  lemma {:induction false} Pow10Adds(m: nat, n: nat)
    ensures Pow10(m + n) == Pow10(m) * Pow10(n)
  {
    if m > 0 {
      Pow10Adds(m - 1, n);
    }
  }

  // ---- bringing two decimals to one exponent ----

  /** normalize_loss: whether it gave up, and what became of the two. */
  function Normalize(a: Decimal, b: Decimal): (bool, Decimal, Decimal) {
    if a.exponent == b.exponent then (false, a, b)
    else if a.exponent > b.exponent then
      var r := Align(a, b);
      (r.0, r.1, r.2)
    else
      var r := Align(b, a);
      (r.0, r.2, r.1)
  }

  /** The coarser of the two grows if it can; otherwise the finer shrinks if nothing is lost. */
  function Align(fine: Decimal, coarse: Decimal): (bool, Decimal, Decimal)
    requires fine.exponent > coarse.exponent
  {
    var d := fine.exponent - coarse.exponent;
    if coarse.mantissa <= MaxPer(d) then
      (false, fine, Decimal(coarse.mantissa * Pow10(d), fine.exponent))
    else if fine.mantissa % Pow10(d) != 0 then
      (true, fine, coarse)
    else
      (false, Decimal(fine.mantissa / Pow10(d), coarse.exponent), coarse)
  }

  lemma ScaleUp(m: nat, e: nat, d: nat)
    requires e + d <= MAX_EXPONENT
    ensures Decimal(m * Pow10(d), e + d).Units() == Decimal(m, e).Units()
  {
    hide Pow10;
    Pow10Adds(d, MAX_EXPONENT - e - d);
    MulAssoc(m, Pow10(d), Pow10(MAX_EXPONENT - e - d));
  }

  lemma MulAssoc(a: int, b: int, c: int)
    ensures (a * b) * c == a * (b * c)
  {
  }

  lemma DivMul(m: nat, p: nat)
    requires p >= 1
    ensures m % p == 0 ==> (m / p) * p == m
    ensures (m / p) * p <= m < (m / p) * p + p
  {
    assert m == p * (m / p) + m % p;
  }

  lemma QuotientBound(m: nat, max: nat, p: int)
    requires p >= 1 && m <= max / p
    ensures m * p <= max
  {
    DivMul(max, p);
    MulOrder(m, max / p, p);
  }

  lemma GrowCoarse(c: Decimal, d: nat)
    requires c.Valid() && c.exponent + d <= MAX_EXPONENT && c.mantissa <= MaxPer(d)
    ensures var g := Decimal(c.mantissa * Pow10(d), c.exponent + d);
            g.Valid() && g.Units() == c.Units()
  {
    QuotientBound(c.mantissa, MAX_MANTISSA, Pow10(d));
    ScaleUp(c.mantissa, c.exponent, d);
  }

  lemma ShrinkFine(f: Decimal, d: nat)
    requires f.Valid() && d <= f.exponent && f.mantissa % Pow10(d) == 0
    ensures f.mantissa / Pow10(d) >= 0
    ensures var g := Decimal(f.mantissa / Pow10(d), f.exponent - d);
            g.Valid() && g.Units() == f.Units()
  {
    var p := Pow10(d);
    var q := f.mantissa / p;
    DivMul(f.mantissa, p);
    if q < 0 {
      MulOrder(q, -1, p);
    }
    MulOrder(1, p, if q >= 0 then q else 0);
    ScaleUp(q, f.exponent - d, d);
  }

  lemma AlignIsExact(fine: Decimal, coarse: Decimal)
    requires fine.Valid() && coarse.Valid() && fine.exponent > coarse.exponent
    ensures var (loss, f, c) := Align(fine, coarse);
            && f.Valid() && c.Valid()
            && f.Units() == fine.Units() && c.Units() == coarse.Units()
            && (!loss ==> f.exponent == c.exponent)
            && (loss ==> f == fine && c == coarse)
  {
    var d := fine.exponent - coarse.exponent;
    if coarse.mantissa <= MaxPer(d) {
      GrowCoarse(coarse, d);
    } else if fine.mantissa % Pow10(d) == 0 {
      ShrinkFine(fine, d);
    }
  }

  /** Normalizing never changes a value; without loss the exponents agree, with loss nothing moves. */
  lemma NormalizeIsExact(a: Decimal, b: Decimal)
    requires a.Valid() && b.Valid()
    ensures var (loss, x, y) := Normalize(a, b);
            && x.Valid() && y.Valid()
            && x.Units() == a.Units() && y.Units() == b.Units()
            && (!loss ==> x.exponent == y.exponent)
            && (loss ==> x == a && y == b)
  {
    if a.exponent > b.exponent {
      AlignIsExact(a, b);
    } else if a.exponent < b.exponent {
      AlignIsExact(b, a);
    }
  }

  // ---- addition and subtraction ----

  /** add_loss: whether something would be lost, and what *this becomes. */
  function Add(a: Decimal, b: Decimal): (bool, Decimal) {
    var (loss, x, y) := Normalize(a, b);
    if loss then (true, x)
    else if x.mantissa + y.mantissa > MAX_MANTISSA then (true, x)
    else (false, x.(mantissa := x.mantissa + y.mantissa))
  }

  /** sub_loss: a difference below zero wraps to a number above the largest mantissa. */
  function Sub(a: Decimal, b: Decimal): (bool, Decimal) {
    var (loss, x, y) := Normalize(a, b);
    if loss then (true, x)
    else if x.mantissa < y.mantissa then (true, x)
    else (false, x.(mantissa := x.mantissa - y.mantissa))
  }

  lemma UnitsAdd(m: nat, n: nat, e: nat)
    requires e <= MAX_EXPONENT
    ensures Decimal(m + n, e).Units() == Decimal(m, e).Units() + Decimal(n, e).Units()
  {
    MulSum(m, n, Pow10(MAX_EXPONENT - e));
  }

  lemma MulSum(m: int, n: int, p: int)
    ensures (m + n) * p == m * p + n * p
  {
  }

  /** Without loss the result is exactly the sum; with loss the value of *this is what it was. */
  lemma AddIsExact(a: Decimal, b: Decimal)
    requires a.Valid() && b.Valid()
    ensures var (loss, r) := Add(a, b);
            r.Valid() && r.Units() == if loss then a.Units() else a.Units() + b.Units()
  {
    NormalizeIsExact(a, b);
    var (loss, x, y) := Normalize(a, b);
    UnitsAdd(x.mantissa, y.mantissa, x.exponent);
  }

  /** Without loss the result is exactly the difference; with loss the value of *this is what it was. */
  lemma SubIsExact(a: Decimal, b: Decimal)
    requires a.Valid() && b.Valid()
    ensures var (loss, r) := Sub(a, b);
            r.Valid() && (if loss then r.Units() == a.Units() else r.Units() + b.Units() == a.Units())
  {
    NormalizeIsExact(a, b);
    var (loss, x, y) := Normalize(a, b);
    if !loss && y.mantissa <= x.mantissa {
      UnitsAdd(x.mantissa - y.mantissa, y.mantissa, x.exponent);
    }
  }

  /** Loss can be reported for a sum that a third exponent could hold: the report is on the safe side, not exact. */
  lemma LossCanBeSpurious() returns (a: Decimal, b: Decimal, sum: Decimal)
    ensures a.Valid() && b.Valid() && sum.Valid()
    ensures Add(a, b).0 && sum.Units() == a.Units() + b.Units()
  {
    a, b := Decimal(MAX_MANTISSA / 50, 0), Decimal(50, 2);
    sum := Decimal(MAX_MANTISSA / 50 * 10 + 5, 1);
    ScaleUp(MAX_MANTISSA / 50, 0, 1);
    ScaleUp(5, 1, 1);
    assert Pow10(1) == 10 && Pow10(2) == 100;
    UnitsAdd(MAX_MANTISSA / 50 * 10, 5, 1);
  }

  /** Where the sum's exponent ends up, the second operand can be brought again. */
  lemma NormalizesAgain(a: Decimal, b: Decimal, r: Decimal)
    requires a.Valid() && b.Valid() && Add(a, b) == (false, r)
    ensures !Normalize(r, b).0
  {
    NormalizeIsExact(a, b);
  }

  /** A lossless addition is undone by subtracting the same: losslessly, and to the same value. */
  lemma SubUndoesAdd(a: Decimal, b: Decimal, r: Decimal)
    requires a.Valid() && b.Valid() && Add(a, b) == (false, r)
    ensures !Sub(r, b).0 && Sub(r, b).1.Units() == a.Units()
  {
    hide Align, Normalize, Add, Pow10;
    AddIsExact(a, b);
    NormalizesAgain(a, b, r);
    NormalizeIsExact(r, b);
    var (_, x, y) := Normalize(r, b);
    ScaledOrder(x.mantissa, y.mantissa, Pow10(MAX_EXPONENT - x.exponent));
    SubIsExact(r, b);
  }

  // ---- comparison ----

  predicate Equal(a: Decimal, b: Decimal) {
    if a.exponent > b.exponent then
      var divisor := Pow10(a.exponent - b.exponent);
      a.mantissa / divisor == b.mantissa && a.mantissa % divisor == 0
    else if a.exponent < b.exponent then
      var divisor := Pow10(b.exponent - a.exponent);
      a.mantissa == b.mantissa / divisor && b.mantissa % divisor == 0
    else a.mantissa == b.mantissa
  }

  predicate Less(a: Decimal, b: Decimal) {
    if a.exponent > b.exponent then
      a.mantissa / Pow10(a.exponent - b.exponent) < b.mantissa
    else if a.exponent < b.exponent then
      var divisor := Pow10(b.exponent - a.exponent);
      || a.mantissa < b.mantissa / divisor
      || (b.mantissa % divisor != 0 && a.mantissa == b.mantissa / divisor)
    else a.mantissa < b.mantissa
  }

  predicate LessOrEqual(a: Decimal, b: Decimal) {
    if a.exponent > b.exponent then
      var divisor := Pow10(a.exponent - b.exponent);
      || a.mantissa / divisor < b.mantissa
      || (a.mantissa / divisor == b.mantissa && a.mantissa % divisor == 0)
    else if a.exponent < b.exponent then
      a.mantissa <= b.mantissa / Pow10(b.exponent - a.exponent)
    else a.mantissa <= b.mantissa
  }

  lemma QuotientOrder(m: nat, n: nat, p: nat)
    requires p >= 1
    ensures m / p < n <==> m < n * p
    ensures n <= m / p <==> n * p <= m
    ensures m / p == n && m % p == 0 <==> m == n * p
  {
    DivMul(m, p);
    if m / p < n {
      MulOrder(m / p + 1, n, p);
    } else {
      MulOrder(n, m / p, p);
    }
    if m == n * p {
      RemainderUnique(m, p, n, 0);
    }
  }

  lemma ScaledOrder(m: nat, n: nat, p: nat)
    requires p >= 1
    ensures m < n <==> m * p < n * p
    ensures m == n <==> m * p == n * p
  {
    if m < n {
      MulOrder(m + 1, n, p);
    } else if n < m {
      MulOrder(n + 1, m, p);
    }
  }

  /** With different exponents, comparing values is comparing the finer mantissa with the coarser one scaled up. */
  lemma UnitsOrder(fine: Decimal, coarse: Decimal)
    requires coarse.exponent <= fine.exponent <= MAX_EXPONENT
    ensures var scaled := coarse.mantissa * Pow10(fine.exponent - coarse.exponent);
            && (fine.Units() < coarse.Units() <==> fine.mantissa < scaled)
            && (fine.Units() == coarse.Units() <==> fine.mantissa == scaled)
  {
    var d := fine.exponent - coarse.exponent;
    ScaleUp(coarse.mantissa, coarse.exponent, d);
    ScaledOrder(fine.mantissa, coarse.mantissa * Pow10(d), Pow10(MAX_EXPONENT - fine.exponent));
    ScaledOrder(coarse.mantissa * Pow10(d), fine.mantissa, Pow10(MAX_EXPONENT - fine.exponent));
  }

  lemma FinerFirst(a: Decimal, b: Decimal)
    requires a.Valid() && b.Valid() && a.exponent >= b.exponent
    ensures Equal(a, b) <==> a.Units() == b.Units()
    ensures Less(a, b) <==> a.Units() < b.Units()
    ensures LessOrEqual(a, b) <==> a.Units() <= b.Units()
  {
    hide Decimal.Units, Pow10;
    NoPower();
    UnitsOrder(a, b);
    QuotientOrder(a.mantissa, b.mantissa, Pow10(a.exponent - b.exponent));
  }

  lemma CoarserFirst(a: Decimal, b: Decimal)
    requires a.Valid() && b.Valid() && a.exponent < b.exponent
    ensures Equal(a, b) <==> a.Units() == b.Units()
    ensures Less(a, b) <==> a.Units() < b.Units()
    ensures LessOrEqual(a, b) <==> a.Units() <= b.Units()
  {
    hide Decimal.Units, Pow10;
    UnitsOrder(b, a);
    QuotientOrder(b.mantissa, a.mantissa, Pow10(b.exponent - a.exponent));
  }

  /** The three operators are the order of the rational values, across all exponents; so they are a total order. */
  lemma ComparisonIsRational(a: Decimal, b: Decimal)
    requires a.Valid() && b.Valid()
    ensures Equal(a, b) <==> a.Units() == b.Units()
    ensures Less(a, b) <==> a.Units() < b.Units()
    ensures LessOrEqual(a, b) <==> a.Units() <= b.Units()
  {
    hide Equal, Less, LessOrEqual, Decimal.Units;
    if a.exponent >= b.exponent {
      FinerFirst(a, b);
    } else {
      CoarserFirst(a, b);
    }
  }

  // ---- printing ----

  /** Trailing zeros among the decimals go. */
  function Strip(m: nat, e: nat): (nat, nat)
    decreases e
  {
    if e > 0 && m % 10 == 0 then Strip(m / 10, e - 1) else (m, e)
  }

  /** The e lowest digits of m, in writing order. */
  function Decimals(m: nat, e: nat): (s: string)
    ensures |s| == e
    decreases e
  {
    if e == 0 then "" else Decimals(m / 10, e - 1) + [Digit(m % 10)]
  }

  /** m without its e lowest digits. */
  function Above(m: nat, e: nat): nat
    decreases e
  {
    if e == 0 then m else Above(m / 10, e - 1)
  }

  function Text(x: Decimal): string {
    var (m, e) := Strip(x.mantissa, x.exponent);
    Whole(Above(m, e)) + (if e == 0 then "" else ".") + Decimals(m, e)
  }

  /** The value of a text with at most one point, in units of 10^-15. */
  ghost predicate Denotes(s: string, units: nat) {
    (exists whole, decimals :: |decimals| <= MAX_EXPONENT && Reads(s, whole, decimals, units))
  }

  ghost predicate Reads(s: string, whole: string, decimals: string, units: nat)
    requires |decimals| <= MAX_EXPONENT
  {
    && AllDigits(whole) && AllDigits(decimals) && whole != []
    && s == whole + (if decimals == [] then "" else ".") + decimals
    && units == Number(whole + decimals) * Pow10(MAX_EXPONENT - |decimals|)
  }

  lemma {:induction false} DecimalsRead(prefix: string, m: nat, e: nat)
    ensures AllDigits(Decimals(m, e))
    ensures Number(prefix) == Above(m, e) ==> Number(prefix + Decimals(m, e)) == m
    decreases e
  {
    if e == 0 {
      assert prefix + [] == prefix;
    } else {
      DecimalsRead(prefix, m / 10, e - 1);
      var s := prefix + Decimals(m, e);
      assert s[..|s| - 1] == prefix + Decimals(m / 10, e - 1);
    }
  }

  lemma {:induction false} StripKeepsValue(m: nat, e: nat)
    requires e <= MAX_EXPONENT
    ensures var (n, f) := Strip(m, e);
            f <= e && Decimal(n, f).Units() == Decimal(m, e).Units() && (f == 0 || n % 10 != 0)
    decreases e
  {
    if e > 0 && m % 10 == 0 {
      StripKeepsValue(m / 10, e - 1);
      assert Pow10(1) == 10;
      ScaleUp(m / 10, e - 1, 1);
      assert (m / 10) * 10 == m;
    }
  }

  /** The text denotes exactly the value. */
  lemma TextIsExact(x: Decimal)
    requires x.Valid()
    ensures Denotes(Text(x), x.Units())
  {
    var (m, e) := Strip(x.mantissa, x.exponent);
    StripKeepsValue(x.mantissa, x.exponent);
    var whole, decimals := Whole(Above(m, e)), Decimals(m, e);
    WholeReads(Above(m, e));
    DecimalsRead(whole, m, e);
    assert Reads(whole + (if decimals == [] then "" else ".") + decimals, whole, decimals, Decimal(m, e).Units());
  }

  /** A 60-bit mantissa and a 4-bit exponent, all of both. */
  lemma ValidIsPacked(x: Decimal)
    ensures x.Valid() <==> x.mantissa < 0x1000_0000_0000_0000 && x.exponent < 16
  {
  }

  lemma {:induction false} WholeStarts(m: nat)
    ensures |Whole(m)| == 1 || Whole(m)[0] != '0'
    ensures m > 0 ==> Whole(m)[0] != '0'
  {
    if m >= 10 {
      WholeStarts(m / 10);
    }
  }

  /** The text is the shortest for its value: no leading zero but a lone one, and no trailing zero. */
  lemma TextShape(x: Decimal) returns (whole: string, decimals: string)
    requires x.Valid()
    ensures |decimals| <= 15 && Reads(Text(x), whole, decimals, x.Units())
    ensures |whole| == 1 || whole[0] != '0'
    ensures decimals == "" || decimals[|decimals| - 1] != '0'
  {
    var (m, e) := Strip(x.mantissa, x.exponent);
    StripKeepsValue(x.mantissa, x.exponent);
    whole, decimals := Whole(Above(m, e)), Decimals(m, e);
    WholeReads(Above(m, e));
    WholeStarts(Above(m, e));
    DecimalsRead(whole, m, e);
  }

  /** A text denotes at most one value. */
  lemma DenotationIsUnique(s: string, u: nat, v: nat)
    requires Denotes(s, u) && Denotes(s, v)
    ensures u == v
  {
    var w1, d1 :| |d1| <= MAX_EXPONENT && Reads(s, w1, d1, u);
    var w2, d2 :| |d2| <= MAX_EXPONENT && Reads(s, w2, d2, v);
    SamePoint(w1, d1, w2, d2);
  }

  /** A text has a point exactly between its whole part and its decimals. */
  lemma PointPlace(w: string, d: string)
    requires AllDigits(w) && AllDigits(d)
    ensures var s := w + (if d == [] then "" else ".") + d;
            forall i | 0 <= i < |s| :: s[i] == '.' <==> d != [] && i == |w|
  {
    var s := w + (if d == [] then "" else ".") + d;
    forall i | 0 <= i < |s|
      ensures s[i] == '.' <==> d != [] && i == |w|
    {
      if i < |w| {
        assert s[i] == w[i] && w[i] in w;
      } else if i > |w| {
        assert s[i] == d[i - |w| - 1] && d[i - |w| - 1] in d;
      }
    }
  }

  lemma SamePoint(w1: string, d1: string, w2: string, d2: string)
    requires AllDigits(w1) && AllDigits(d1) && AllDigits(w2) && AllDigits(d2)
    requires w1 + (if d1 == [] then "" else ".") + d1 == w2 + (if d2 == [] then "" else ".") + d2
    ensures w1 == w2 && d1 == d2
  {
    var s1, s2 := w1 + (if d1 == [] then "" else ".") + d1, w2 + (if d2 == [] then "" else ".") + d2;
    PointPlace(w1, d1);
    PointPlace(w2, d2);
    assert d1 != [] ==> s1[|w1|] == '.';
    assert d2 != [] ==> s1[|w2|] == '.';
    assert w1 == s1[..|w1|] && w2 == s2[..|w2|];
    assert d1 != [] ==> d1 == s1[|w1| + 1..] && d2 == s2[|w2| + 1..];
  }

  lemma TimesPowIsMultiple(m: nat, d: nat)
    requires d > 0
    ensures (m * Pow10(d)) % 10 == 0
  {
    var k := m * Pow10(d - 1);
    MulAssoc(m, Pow10(d - 1), 10);
    assert m * Pow10(d) == k * 10;
    RemainderUnique(k * 10, 10, k, 0);
  }

  /** Two stripped decimals of the same value are the same. */
  lemma StrippedIsUnique(a: Decimal, b: Decimal)
    requires a.Valid() && b.Valid() && a.Units() == b.Units() && a.exponent >= b.exponent
    requires a.exponent == 0 || a.mantissa % 10 != 0
    ensures a == b
  {
    UnitsOrder(a, b);
    var d := a.exponent - b.exponent;
    if d > 0 {
      TimesPowIsMultiple(b.mantissa, d);
    }
    assert Pow10(0) == 1 && b.mantissa * 1 == b.mantissa;
  }

  lemma {:induction false} StripShrinks(m: nat, e: nat)
    ensures Strip(m, e).0 <= m && Strip(m, e).1 <= e
    decreases e
  {
    if e > 0 && m % 10 == 0 {
      StripShrinks(m / 10, e - 1);
    }
  }

  /** Printing is canonical: two decimals print alike exactly when they are equal. */
  lemma PrintsAlikeIffEqual(a: Decimal, b: Decimal)
    requires a.Valid() && b.Valid()
    ensures Text(a) == Text(b) <==> Equal(a, b)
  {
    ComparisonIsRational(a, b);
    if Text(a) == Text(b) {
      TextIsExact(a);
      TextIsExact(b);
      DenotationIsUnique(Text(a), a.Units(), b.Units());
    }
    if Equal(a, b) {
      StripKeepsValue(a.mantissa, a.exponent);
      StripKeepsValue(b.mantissa, b.exponent);
      StripShrinks(a.mantissa, a.exponent);
      StripShrinks(b.mantissa, b.exponent);
      var (m, e) := Strip(a.mantissa, a.exponent);
      var (n, f) := Strip(b.mantissa, b.exponent);
      if e >= f {
        StrippedIsUnique(Decimal(m, e), Decimal(n, f));
      } else {
        StrippedIsUnique(Decimal(n, f), Decimal(m, e));
      }
    }
  }

  // ---- when loss is reported for a sum that could be held ----

  /** The sum at the finer exponent, however large its mantissa. */
  function Wide(a: Decimal, b: Decimal): Decimal {
    if a.exponent >= b.exponent
    then Decimal(a.mantissa + b.mantissa * Pow10(a.exponent - b.exponent), a.exponent)
    else Decimal(a.mantissa * Pow10(b.exponent - a.exponent) + b.mantissa, b.exponent)
  }

  ghost predicate Representable(units: nat) {
    exists m: nat, e: nat :: Decimal(m, e).Valid() && Decimal(m, e).Units() == units
  }

  lemma WideIsSum(a: Decimal, b: Decimal)
    requires a.Valid() && b.Valid()
    ensures Wide(a, b).exponent <= MAX_EXPONENT && Wide(a, b).Units() == a.Units() + b.Units()
  {
    hide Decimal.Units, Pow10;
    if a.exponent >= b.exponent {
      var d := a.exponent - b.exponent;
      ScaleUp(b.mantissa, b.exponent, d);
      UnitsAdd(a.mantissa, b.mantissa * Pow10(d), a.exponent);
    } else {
      var d := b.exponent - a.exponent;
      ScaleUp(a.mantissa, a.exponent, d);
      UnitsAdd(a.mantissa * Pow10(d), b.mantissa, b.exponent);
    }
  }

  lemma MulCommutes(a: int, b: int)
    ensures a * b == b * a
  {
  }

  /** Of all decimals with one value, a stripped one has the least mantissa. */
  lemma StrippedIsLeast(s: Decimal, x: Decimal)
    requires s.exponent <= MAX_EXPONENT && x.exponent <= MAX_EXPONENT && s.Units() == x.Units()
    requires s.exponent == 0 || s.mantissa % 10 != 0
    ensures s.mantissa <= x.mantissa
  {
    hide Decimal.Units, Pow10;
    if x.exponent >= s.exponent {
      var p := Pow10(x.exponent - s.exponent);
      UnitsOrder(x, s);
      MulOrder(1, p, s.mantissa);
      MulCommutes(p, s.mantissa);
    } else {
      UnitsOrder(s, x);
      TimesPowIsMultiple(x.mantissa, s.exponent - x.exponent);
    }
  }

  lemma RepresentableExactly(w: Decimal)
    requires w.exponent <= MAX_EXPONENT
    ensures Representable(w.Units()) <==> Strip(w.mantissa, w.exponent).0 <= MAX_MANTISSA
  {
    StripKeepsValue(w.mantissa, w.exponent);
    var (m, e) := Strip(w.mantissa, w.exponent);
    if Representable(w.Units()) {
      var n: nat, f: nat :| Decimal(n, f).Valid() && Decimal(n, f).Units() == w.Units();
      StrippedIsLeast(Decimal(m, e), Decimal(n, f));
    }
    if m <= MAX_MANTISSA {
      assert Decimal(m, e).Valid() && Decimal(m, e).Units() == w.Units();
    }
  }

  /** The branch add_loss takes, by the finer and the coarser operand. */
  predicate Loses(fine: Decimal, coarse: Decimal)
    requires fine.exponent >= coarse.exponent
  {
    var p := Pow10(fine.exponent - coarse.exponent);
    if coarse.mantissa <= MAX_MANTISSA / p
    then fine.mantissa + coarse.mantissa * p > MAX_MANTISSA
    else fine.mantissa % p != 0 || fine.mantissa / p + coarse.mantissa > MAX_MANTISSA
  }

  lemma LossExactly(a: Decimal, b: Decimal)
    requires a.Valid() && b.Valid()
    ensures Add(a, b).0 <==> if a.exponent >= b.exponent then Loses(a, b) else Loses(b, a)
  {
    assert Pow10(0) == 1;
  }

  /**
    add_loss reports a loss for a sum that some decimal holds exactly when the sum without its
    trailing zeros has a mantissa that fits, and yet either the coarser operand can be scaled up and
    the sum at the finer exponent is too large, or it cannot, and the finer one cannot be scaled
    down without remainder or the sum at the coarser exponent is too large.
   */
  lemma LossIsSpuriousExactly(a: Decimal, b: Decimal)
    requires a.Valid() && b.Valid()
    ensures Add(a, b).0 && Representable(a.Units() + b.Units()) <==>
            && Strip(Wide(a, b).mantissa, Wide(a, b).exponent).0 <= MAX_MANTISSA
            && (if a.exponent >= b.exponent then Loses(a, b) else Loses(b, a))
  {
    hide Add, Loses, Wide, Strip;
    WideIsSum(a, b);
    RepresentableExactly(Wide(a, b));
    LossExactly(a, b);
  }

  /** sub_loss cannot scale the minuend up, nor the finer subtrahend down. */
  predicate SubLoses(a: Decimal, b: Decimal) {
    a.exponent < b.exponent &&
    var p := Pow10(b.exponent - a.exponent);
    MAX_MANTISSA / p < a.mantissa && b.mantissa % p != 0
  }

  lemma AlignedOrder(x: Decimal, y: Decimal)
    requires x.Valid() && y.Valid() && x.exponent == y.exponent
    ensures x.mantissa < y.mantissa <==> x.Units() < y.Units()
  {
    ScaledOrder(x.mantissa, y.mantissa, Pow10(MAX_EXPONENT - x.exponent));
  }

  /** sub_loss reports a loss when the difference is below zero, and on that one branch of the alignment. */
  lemma SubLossExactly(a: Decimal, b: Decimal)
    requires a.Valid() && b.Valid()
    ensures Sub(a, b).0 <==> a.Units() < b.Units() || SubLoses(a, b)
  {
    hide Decimal.Units, Pow10;
    NormalizeIsExact(a, b);
    var (loss, x, y) := Normalize(a, b);
    if !loss {
      AlignedOrder(x, y);
    } else if a.exponent > b.exponent {
      QuotientOrder(MAX_MANTISSA, b.mantissa, Pow10(a.exponent - b.exponent));
      UnitsOrder(a, b);
    }
  }

  /** The difference at the subtrahend's exponent, however large its mantissa. */
  function WideDifference(a: Decimal, b: Decimal): Decimal
    requires a.exponent < b.exponent && b.mantissa <= a.mantissa * Pow10(b.exponent - a.exponent)
  {
    Decimal(a.mantissa * Pow10(b.exponent - a.exponent) - b.mantissa, b.exponent)
  }

  lemma WideIsDifference(a: Decimal, b: Decimal)
    requires a.Valid() && b.Valid() && a.exponent < b.exponent && b.Units() <= a.Units()
    ensures b.mantissa <= a.mantissa * Pow10(b.exponent - a.exponent)
    ensures WideDifference(a, b).Units() == a.Units() - b.Units()
  {
    hide Decimal.Units, Pow10;
    var d := b.exponent - a.exponent;
    UnitsOrder(b, a);
    ScaleUp(a.mantissa, a.exponent, d);
    UnitsAdd(a.mantissa * Pow10(d) - b.mantissa, b.mantissa, b.exponent);
  }

  /**
    sub_loss reports a loss for a difference that some decimal holds exactly when it takes that
    branch, the difference is not below zero, and without its trailing zeros its mantissa fits.
   */
  lemma SubLossIsSpuriousExactly(a: Decimal, b: Decimal)
    requires a.Valid() && b.Valid() && b.Units() <= a.Units()
    ensures SubLoses(a, b) ==> b.mantissa <= a.mantissa * Pow10(b.exponent - a.exponent)
    ensures Sub(a, b).0 && Representable(a.Units() - b.Units()) <==>
            SubLoses(a, b) && Strip(WideDifference(a, b).mantissa, b.exponent).0 <= MAX_MANTISSA
  {
    hide Sub, Strip, Decimal.Units, Pow10;
    SubLossExactly(a, b);
    if SubLoses(a, b) {
      WideIsDifference(a, b);
      RepresentableExactly(WideDifference(a, b));
    }
  }

  // ---- the object ----

  /** exp10, a table of 64-bit powers. */
  method Exp10(e: nat) returns (p: nat)
    requires e <= 18
    ensures p == Pow10(e)
  {
    p := 1;
    var i := 0;
    while i < e
      invariant i <= e && p == Pow10(i)
    {
      p := 10 * p;
      i := i + 1;
    }
  }

  class DFloat {
    var mantissa: nat
    var exponent: nat

    function Value(): Decimal
      reads this
    {
      Decimal(mantissa, exponent)
    }

    constructor (man: nat, exp: nat)
      requires man <= MAX_MANTISSA && exp <= MAX_EXPONENT
      ensures Value() == Decimal(man, exp) && Value().Valid()
    {
      mantissa, exponent := man, exp;
    }

    /** The other operand is a copy; what becomes of it is returned. */
    method NormalizeLoss(other: Decimal) returns (overflow: bool, aligned: Decimal)
      requires Value().Valid() && other.Valid()
      modifies this
      ensures Value().Valid() && aligned.Valid()
      ensures (overflow, Value(), aligned) == Normalize(old(Value()), other)
    {
      NormalizeIsExact(Value(), other);
      aligned := other;
      if exponent == other.exponent {
        return false, aligned;
      }
      if exponent > other.exponent {
        var p := Exp10(exponent - other.exponent);
        overflow := other.mantissa > MAX_MANTISSA / p;
        if !overflow {
          aligned := Decimal(other.mantissa * p, exponent);
        } else {
          overflow := mantissa % p != 0;
          if !overflow {
            mantissa := mantissa / p;
            exponent := other.exponent;
          }
        }
      } else {
        var p := Exp10(other.exponent - exponent);
        overflow := mantissa > MAX_MANTISSA / p;
        if !overflow {
          mantissa := mantissa * p;
          exponent := other.exponent;
        } else {
          overflow := other.mantissa % p != 0;
          if !overflow {
            aligned := Decimal(other.mantissa / p, exponent);
          }
        }
      }
    }

    method AddLoss(other: Decimal) returns (overflow: bool)
      requires Value().Valid() && other.Valid()
      modifies this
      ensures Value().Valid() && (overflow, Value()) == Add(old(Value()), other)
      ensures Value().Units() == old(Value().Units()) + (if overflow then 0 else other.Units())
    {
      AddIsExact(Value(), other);
      var y;
      overflow, y := NormalizeLoss(other);
      if overflow {
        return true;
      }
      var result := WrapAdd(mantissa, y.mantissa);
      overflow := result > MAX_MANTISSA;
      if !overflow {
        mantissa := result;
      }
    }

    method SubLoss(other: Decimal) returns (overflow: bool)
      requires Value().Valid() && other.Valid()
      modifies this
      ensures Value().Valid() && (overflow, Value()) == Sub(old(Value()), other)
      ensures Value().Units() + (if overflow then 0 else other.Units()) == old(Value().Units())
    {
      SubIsExact(Value(), other);
      var y;
      overflow, y := NormalizeLoss(other);
      if overflow {
        return true;
      }
      var result := WrapSub(mantissa, y.mantissa);
      overflow := result > MAX_MANTISSA;
      if !overflow {
        mantissa := result;
      }
    }

    /** operator<<: digits from the lowest up, then the buffer reversed. */
    method Print() returns (s: string)
      ensures s == Text(Value())
    {
      var decimalDigits := exponent;
      var x := mantissa;
      while decimalDigits > 0 && x % 10 == 0
        invariant Strip(x, decimalDigits) == Strip(mantissa, exponent)
      {
        x := x / 10;
        decimalDigits := decimalDigits - 1;
      }
      assert Strip(mantissa, exponent) == (x, decimalDigits);
      var buf, whole := PrintDecimals(x, decimalDigits);
      ghost var decimals := buf;
      if |buf| > 0 {
        ReverseSnoc(buf, '.');
        buf := buf + ".";
      }
      assert Reverse(buf) == (if decimalDigits == 0 then "" else ".") + Decimals(x, decimalDigits);
      buf := PrintWhole(buf, whole);
      s := Reverse(buf);
      ConcatAssoc(Whole(whole), if decimalDigits == 0 then "" else ".", Decimals(x, decimalDigits));
    }
  }

  method PrintDecimals(m: nat, e: nat) returns (buf: string, whole: nat)
    ensures Reverse(buf) == Decimals(m, e) && |buf| == e && whole == Above(m, e)
  {
    buf, whole := "", m;
    var left := e;
    while left > 0
      invariant |buf| + left == e
      invariant Above(m, e) == Above(whole, left)
      invariant Decimals(m, e) == Decimals(whole, left) + Reverse(buf)
    {
      ReverseSnoc(buf, Digit(whole % 10));
      buf := buf + [Digit(whole % 10)];
      whole := whole / 10;
      left := left - 1;
    }
  }

  method PrintWhole(before: string, m: nat) returns (buf: string)
    ensures Reverse(buf) == Whole(m) + Reverse(before)
  {
    ReverseSnoc(before, Digit(m % 10));
    buf := before + [Digit(m % 10)];
    var x: nat := m / 10;
    while x > 0
      invariant Whole(m) + Reverse(before) == (if x == 0 then "" else Whole(x)) + Reverse(buf)
    {
      ReverseSnoc(buf, Digit(x % 10));
      buf := buf + [Digit(x % 10)];
      x := x / 10;
    }
  }
}
