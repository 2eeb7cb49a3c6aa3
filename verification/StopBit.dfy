/**
  Stop-bit integers: 7-bit groups, most significant first, the last byte marked with 0x80, the
  first group's bit 0x40 giving the sign.
 */
module StopBit {
  import opened Words

  /** A C++ integral type: its signedness and its width. */
  datatype IntType = IntType(signed: bool, bits: nat) {

    predicate Known() {
      8 <= bits <= 128
    }

    predicate Holds(t: int)
      requires Known()
    {
      if signed then 0 <= t + Pow2(bits - 1) < Pow2(bits) else 0 <= t < Pow2(bits)
    }

    /** Conversion to this type: reduction modulo 2^bits into its range. */
    function Wrap(x: int): (r: int)
      requires Known()
    {
      if signed then (x + Pow2(bits - 1)) % Pow2(bits) - Pow2(bits - 1) else x % Pow2(bits)
    }

    /** (t << 7) | (v & 0x7F) */
    function Shift(t: int, v: byte): int
      requires Known()
    {
      Wrap(t * 128 + v % 128)
    }

    /** (T)-1 * ((v & 0x40) == 0x40) */
    function SignFill(v: byte): int
      requires Known()
    {
      MinusOne() * ((v / 64) % 2)
    }

    /** (T)-1 */
    function MinusOne(): int
      requires Known()
    {
      if signed then -1 else Pow2(bits) - 1
    }
  }

  const BUFFER: nat := 50

  /** size_t, the type of every length and count. */
  const SIZE_T := IntType(false, 64)

  lemma SizeHolds(n: nat)
    requires n < WORD
    ensures SIZE_T.Known() && SIZE_T.Holds(n)
  {
    Pow2Values();
  }

  function Size(t: int): nat {
    if t < 0 then -t else t
  }

  // ---- the encoding, stated from the top ----

  /**
    The groups above a group "low", most significant first, for the number h that they spell:
    none when the sign bit of low already says what h is.
   */
  function Above(h: int, low: byte): (s: seq<byte>)
    requires low < 128
    decreases Size(h), if h == 0 || h == -1 then (if (low >= 64) == (h == -1) then 0 else 1) else 2
  {
    if h == 0 && low < 64 then []
    else if h == -1 && low >= 64 then []
    else Above(h / 128, h % 128) + [h % 128]
  }

  function Encode(t: int): (s: seq<byte>)
    ensures |s| >= 1
  {
    Above(t / 128, t % 128) + [t % 128 + 128]
  }

  /** Reading on from an accumulated value; None is the end of the input before a stop bit. */
  function Scan(acc: int, s: seq<byte>): Option<(int, seq<byte>)>
    decreases |s|
  {
    if s == [] then None
    else
      var next := acc * 128 + s[0] % 128;
      if s[0] >= 128 then Some((next, s[1..])) else Scan(next, s[1..])
  }

  /** All ones or all zeros above the first group, after its bit 0x40. */
  function SignOf(v: byte): int {
    if (v / 64) % 2 == 1 then -1 else 0
  }

  /** The value and what is left of the input. */
  function Decode(s: seq<byte>): Option<(int, seq<byte>)> {
    if s == [] then None else Scan(SignOf(s[0]), s)
  }

  // ---- round trip ----

  lemma {:induction false} ScanAbove(h: int, low: byte, tail: seq<byte>)
    requires low < 128 && tail != [] && tail[0] % 128 == low
    ensures var s := Above(h, low) + tail;
            Scan(SignOf(s[0]), s) == Scan(h, tail)
    decreases Size(h), if h == 0 || h == -1 then (if (low >= 64) == (h == -1) then 0 else 1) else 2
  {
    if (h == 0 && low < 64) || (h == -1 && low >= 64) {
      assert Above(h, low) + tail == tail;
    } else {
      var g: byte := h % 128;
      ScanAbove(h / 128, g, [g] + tail);
      assert Above(h, low) + tail == Above(h / 128, g) + ([g] + tail);
      assert ([g] + tail)[1..] == tail;
    }
  }

  /** Decoding an encoding followed by anything gives the number back and leaves the rest. */
  lemma RoundTrip(t: int, rest: seq<byte>)
    ensures Decode(Encode(t) + rest) == Some((t, rest))
  {
    var last: byte := t % 128 + 128;
    ScanAbove(t / 128, t % 128, [last] + rest);
    assert Encode(t) + rest == Above(t / 128, t % 128) + ([last] + rest);
    assert ([last] + rest)[1..] == rest;
  }

  /** No encoding is a prefix of another: from a stream the first number and the rest are determined. */
  lemma PrefixFree(a: int, b: int, r1: seq<byte>, r2: seq<byte>)
    requires Encode(a) + r1 == Encode(b) + r2
    ensures a == b && r1 == r2
  {
    RoundTrip(a, r1);
    RoundTrip(b, r2);
  }

  /** Only the last byte of an encoding carries the stop bit. */
  lemma {:induction false} AboveHasNoStop(h: int, low: byte)
    requires low < 128
    ensures forall i | 0 <= i < |Above(h, low)| :: Above(h, low)[i] < 128
    decreases Size(h), if h == 0 || h == -1 then (if (low >= 64) == (h == -1) then 0 else 1) else 2
  {
    if (h == 0 && low < 64) || (h == -1 && low >= 64) {
    } else {
      AboveHasNoStop(h / 128, h % 128);
    }
  }

  lemma StopOnlyAtEnd(t: int)
    ensures forall i | 0 <= i < |Encode(t)| :: (Encode(t)[i] >= 128) <==> (i == |Encode(t)| - 1)
  {
    AboveHasNoStop(t / 128, t % 128);
  }

  predicate HasStop(s: seq<byte>) {
    exists i :: 0 <= i < |s| && s[i] >= 128
  }

  lemma {:induction false} ScanNeedsStop(acc: int, s: seq<byte>)
    ensures Scan(acc, s).Some? <==> HasStop(s)
    decreases |s|
  {
    if s == [] || s[0] >= 128 {
    } else {
      ScanNeedsStop(acc * 128 + s[0] % 128, s[1..]);
      if HasStop(s) {
        var i :| 0 <= i < |s| && s[i] >= 128;
        assert s[1..][i - 1] >= 128;
      }
    }
  }

  /** Input ends too early exactly when no byte of it has the stop bit. */
  lemma DecodeNeedsStop(s: seq<byte>)
    ensures Decode(s).Some? <==> HasStop(s)
  {
    if s != [] {
      ScanNeedsStop(SignOf(s[0]), s);
    }
  }

  lemma {:induction false} ScanConsumes(acc: int, s: seq<byte>)
    requires Scan(acc, s).Some?
    ensures var rest := Scan(acc, s).value.1;
            |rest| < |s| && rest == s[|s| - |rest|..]
    decreases |s|
  {
    if s[0] >= 128 {
    } else {
      ScanConsumes(acc * 128 + s[0] % 128, s[1..]);
    }
  }

  /** Decoding consumes at least one byte, from the front. */
  lemma DecodeConsumes(s: seq<byte>)
    requires Decode(s).Some?
    ensures var rest := Decode(s).value.1;
            |rest| < |s| && rest == s[|s| - |rest|..]
  {
    ScanConsumes(SignOf(s[0]), s);
  }

  lemma {:induction false} ScanExtends(acc: int, s: seq<byte>, x: seq<byte>)
    requires Scan(acc, s).Some?
    ensures Scan(acc, s + x) == Some((Scan(acc, s).value.0, Scan(acc, s).value.1 + x))
    decreases |s|
  {
    assert (s + x)[0] == s[0] && (s + x)[1..] == s[1..] + x;
    if s[0] < 128 {
      ScanExtends(acc * 128 + s[0] % 128, s[1..], x);
    }
  }

  /** More input behind a complete number changes nothing. */
  lemma DecodeExtends(s: seq<byte>, x: seq<byte>)
    requires Decode(s).Some?
    ensures Decode(s + x) == Some((Decode(s).value.0, Decode(s).value.1 + x))
  {
    ScanExtends(SignOf(s[0]), s, x);
    assert (s + x)[0] == s[0];
  }

  // ---- shortest ----

  function Pow128(n: nat): (r: nat)
    ensures r >= 1
  {
    if n == 0 then 1 else 128 * Pow128(n - 1)
  }

  /** The numbers that n >= 1 sign-extended 7-bit groups can spell. */
  predicate Fits(t: int, n: nat)
    requires n >= 1
  {
    -64 * Pow128(n - 1) <= t < 64 * Pow128(n - 1)
  }

  lemma {:induction false} AboveIsShortest(h: int, low: byte)
    requires low < 128
    ensures var t, n := h * 128 + low, |Above(h, low)| + 1;
            Fits(t, n) && (n >= 2 ==> !Fits(t, n - 1))
    decreases Size(h), if h == 0 || h == -1 then (if (low >= 64) == (h == -1) then 0 else 1) else 2
  {
    if (h == 0 && low < 64) || (h == -1 && low >= 64) {
      assert Pow128(0) == 1;
    } else {
      AboveIsShortest(h / 128, h % 128);
      var n := |Above(h, low)|;
      assert h == (h / 128) * 128 + h % 128;
      assert Pow128(n) == 128 * Pow128(n - 1);
      if n == 1 {
        assert Pow128(0) == 1;
      } else {
        assert Pow128(n - 1) == 128 * Pow128(n - 2);
      }
    }
  }

  lemma {:induction false} ScanRange(acc: int, s: seq<byte>, t: int)
    requires Scan(acc, s) == Some((t, []))
    ensures acc * Pow128(|s|) <= t < (acc + 1) * Pow128(|s|)
    decreases |s|
  {
    var p := Pow128(|s| - 1);
    var next := acc * 128 + s[0] % 128;
    assert Pow128(|s|) == 128 * p;
    if s[0] >= 128 {
      assert |s| == 1 && p == 1;
    } else {
      ScanRange(next, s[1..], t);
      ScaleStep(acc, s[0] % 128, p);
    }
  }

  lemma ScaleStep(acc: int, g: int, p: nat)
    requires 0 <= g < 128
    ensures acc * (128 * p) <= (acc * 128 + g) * p
    ensures (acc * 128 + g + 1) * p <= (acc + 1) * (128 * p)
  {
    assert (acc * 128 + g) * p == acc * (128 * p) + g * p;
    assert (acc + 1) * (128 * p) == acc * (128 * p) + 128 * p;
    assert g * p + p == (g + 1) * p;
    MulOrder(g + 1, 128, p);
  }

  lemma DecodedFits(c: seq<byte>, t: int)
    requires Decode(c) == Some((t, []))
    ensures Fits(t, |c|)
  {
    var p := Pow128(|c| - 1);
    var first := SignOf(c[0]) * 128 + c[0] % 128;
    assert -64 <= first < 64;
    if c[0] >= 128 {
      assert |c| == 1 && p == 1;
    } else {
      ScanRange(first, c[1..], t);
      MulOrder(-64, first, p);
      MulOrder(first + 1, 64, p);
    }
  }

  /** A number that fits n groups takes at most n groups. */
  lemma FitsBounds(t: int, n: nat)
    requires n >= 1 && Fits(t, n)
    ensures |Encode(t)| <= n
  {
    AboveIsShortest(t / 128, t % 128);
    if |Encode(t)| > n {
      Pow128Grows(n - 1, |Encode(t)| - 2);
    }
  }

  lemma SmallNumber(t: int)
    requires -64 <= t < 64
    ensures |Encode(t)| == 1
  {
    assert Pow128(0) == 1;
    FitsBounds(t, 1);
  }

  lemma LongNumber(t: nat)
    requires t >= 64
    ensures |Encode(t)| >= 2
  {
    assert Pow128(0) == 1;
    AboveIsShortest(t / 128, t % 128);
  }

  /** No byte string that decodes to t is shorter than the encoding of t. */
  lemma Shortest(t: int, c: seq<byte>)
    requires Decode(c) == Some((t, []))
    ensures |Encode(t)| <= |c|
  {
    DecodedFits(c, t);
    FitsBounds(t, |c|);
  }

  lemma {:induction false} AboveGroups(h: int, low: byte, i: nat)
    requires low < 128 && i < |Above(h, low)|
    ensures Above(h, low)[i] == h / Pow128(|Above(h, low)| - 1 - i) % 128
    decreases |Above(h, low)|
  {
    var n := |Above(h, low)|;
    if i == n - 1 {
      assert Pow128(0) == 1;
    } else {
      AboveGroups(h / 128, h % 128, i);
      DivTwice(h, 128, Pow128(n - 2 - i));
    }
  }

  /**
    The bytes of an encoding are the base-128 digits of the number in two's complement, most significant
    first, no more of them than its sign needs; 128 is added to the last and to no other.
   */
  lemma GroupsAreDigits(t: int, i: nat)
    requires i < |Encode(t)|
    ensures var n := |Encode(t)|;
            && -64 * Pow128(n - 1) <= t < 64 * Pow128(n - 1)
            && (n >= 2 ==> !(-64 * Pow128(n - 2) <= t < 64 * Pow128(n - 2)))
            && Encode(t)[i] == t / Pow128(n - 1 - i) % 128 + (if i == n - 1 then 128 else 0)
  {
    var n := |Encode(t)|;
    AboveIsShortest(t / 128, t % 128);
    if i == n - 1 {
      assert Pow128(0) == 1;
    } else {
      AboveGroups(t / 128, t % 128, i);
      DivTwice(t, 128, Pow128(n - 2 - i));
    }
  }

  lemma {:induction false} Pow128Grows(m: nat, n: nat)
    requires m <= n
    ensures Pow128(m) <= Pow128(n)
  {
    if m == n {
    } else {
      Pow128Grows(m, n - 1);
    }
  }

  // ---- serialize_size ----

  /** How many of the thresholds 2^7, 2^14, ..., 2^(7k) the value reaches. */
  function Thresholds(t: int, k: nat): nat {
    if k == 0 then 0 else Thresholds(t, k - 1) + (if t >= Pow128(k) then 1 else 0)
  }

  /** The number of thresholds in the table for a width. */
  function TableSize(bits: nat): nat {
    if bits <= 32 then 4 else if bits == 64 then 9 else 18
  }

  /** On int64_t the last threshold, 1 << 63, is the least value of the type: every number reaches it. */
  function SerializeSize(ty: IntType, t: int): nat {
    if ty.signed && ty.bits == 64 then 1 + Thresholds(t, TableSize(ty.bits) - 1) + 1
    else 1 + Thresholds(t, TableSize(ty.bits))
  }

  /** The most significant non-zero 7-bit group has its top bit set, so that a zero group must go before it. */
  predicate TopGroupFull(t: nat) {
    if t < 128 then t >= 64 else TopGroupFull(t / 128)
  }

  function GroupCount(t: nat): (n: nat) {
    if t < 128 then 1 else 1 + GroupCount(t / 128)
  }

  lemma {:induction false} AboveCounts(h: nat, low: byte)
    requires low < 128
    ensures |Above(h, low)| ==
            if h == 0 then (if low < 64 then 0 else 1)
            else GroupCount(h) + (if TopGroupFull(h) then 1 else 0)
    decreases h
  {
    if h == 0 {
      assert Above(0, 0) == [];
    } else {
      AboveCounts(h / 128, h % 128);
    }
  }

  lemma TrueSize(t: nat)
    ensures |Encode(t)| == GroupCount(t) + (if TopGroupFull(t) then 1 else 0)
  {
    AboveCounts(t / 128, t % 128);
  }

  lemma {:induction false} ThresholdsShift(t: nat, k: nat)
    ensures Thresholds(t, k + 1) == (if t >= 128 then 1 else 0) + Thresholds(t / 128, k)
  {
    assert Pow128(k + 1) == 128 * Pow128(k);
    if k == 0 {
      assert Pow128(1) == 128;
      assert Thresholds(t, 1) == Thresholds(t, 0) + (if t >= Pow128(1) then 1 else 0);
    } else {
      ThresholdsShift(t, k - 1);
    }
  }

  lemma {:induction false} ThresholdsCount(t: nat, k: nat)
    requires t < Pow128(k + 1)
    ensures 1 + Thresholds(t, k) == GroupCount(t)
    decreases k
  {
    assert Pow128(k + 1) == 128 * Pow128(k);
    if k > 0 {
      ThresholdsShift(t, k - 1);
      if t >= 128 {
        ThresholdsCount(t / 128, k - 1);
      } else {
        ThresholdsAreZero(t / 128, k - 1);
      }
    } else {
      assert Pow128(0) == 1;
    }
  }

  lemma {:induction false} ThresholdsAreZero(t: nat, k: nat)
    requires t == 0
    ensures Thresholds(t, k) == 0
  {
    if k > 0 {
      ThresholdsAreZero(t, k - 1);
    }
  }

  lemma {:induction false} Pow128IsPow2(n: nat)
    ensures Pow128(n) == Pow2(7 * n)
  {
    if n == 0 {
    } else {
      Pow128IsPow2(n - 1);
      Pow2Adds(7, 7 * (n - 1));
      Pow2Values();
    }
  }

  lemma {:induction false} NoThreshold(t: int, k: nat)
    requires t < 0
    ensures Thresholds(t, k) == 0
  {
    if k > 0 {
      NoThreshold(t, k - 1);
    }
  }

  /** A number and its complement have equally many groups. */
  lemma {:induction false} AboveMirrors(h: int, low: byte)
    requires low < 128
    ensures |Above(h, low)| == |Above(-1 - h, 127 - low)|
    decreases Size(h), if h == 0 || h == -1 then (if (low >= 64) == (h == -1) then 0 else 1) else 2
  {
    if (h == 0 && low < 64) || (h == -1 && low >= 64) {
    } else {
      assert (-1 - h) / 128 == -1 - h / 128 && (-1 - h) % 128 == 127 - h % 128;
      AboveMirrors(h / 128, h % 128);
    }
  }

  lemma SignBit(ty: IntType, t: nat)
    requires ty.Known() && ty.Holds(t)
    ensures t < Pow2(if ty.signed then ty.bits - 1 else ty.bits)
  {
    assert Pow2(ty.bits) == 2 * Pow2(ty.bits - 1);
  }

  lemma TableCounts(t: nat, k: nat, used: nat)
    requires t < Pow2(used) && used <= 7 * (k + 1)
    ensures 1 + Thresholds(t, k) + (if TopGroupFull(t) then 1 else 0) == |Encode(t)|
  {
    Pow128IsPow2(k + 1);
    Pow2Grows(used, 7 * (k + 1));
    ThresholdsCount(t, k);
    TrueSize(t);
  }

  lemma NegativeLength(t: int)
    requires t < 0
    ensures |Encode(t)| == GroupCount(-1 - t) + (if TopGroupFull(-1 - t) then 1 else 0)
  {
    AboveMirrors(t / 128, t % 128);
    assert (-1 - t) / 128 == -1 - t / 128 && (-1 - t) % 128 == 127 - t % 128;
    TrueSize(-1 - t);
  }

  /**
    On unsigned types, and on numbers that are not negative, the size estimate is the true length or
    one less, and one less exactly when the top group is full.  Every negative number is estimated
    at one byte, whatever its length.  On int64_t all estimates are one higher than that.
   */
  lemma SizeEstimate(ty: IntType, t: int)
    requires ty.bits in {8, 16, 32, 64, 128} && ty.Holds(t)
    ensures var extra := if ty.signed && ty.bits == 64 then 1 else 0;
            if t >= 0 then SerializeSize(ty, t) + (if TopGroupFull(t) then 1 else 0) == |Encode(t)| + extra
            else SerializeSize(ty, t) == 1 + extra
                 && |Encode(t)| == GroupCount(-1 - t) + (if TopGroupFull(-1 - t) then 1 else 0)
  {
    hide Pow2, Thresholds, Encode, GroupCount, TopGroupFull;
    var k := if ty.signed && ty.bits == 64 then TableSize(ty.bits) - 1 else TableSize(ty.bits);
    if t >= 0 {
      SignBit(ty, t);
      TableCounts(t, k, if ty.signed then ty.bits - 1 else ty.bits);
    } else {
      NoThreshold(t, k);
      NegativeLength(t);
    }
  }

  // ---- machine arithmetic ----

  lemma WrapIsIdentity(ty: IntType, t: int)
    requires ty.Known() && ty.Holds(t)
    ensures ty.Wrap(t) == t
  {
    assert Pow2(ty.bits) == 2 * Pow2(ty.bits - 1);
    if ty.signed {
      RemainderUnique(t + Pow2(ty.bits - 1), Pow2(ty.bits), 0, t + Pow2(ty.bits - 1));
    } else {
      RemainderUnique(t, Pow2(ty.bits), 0, t);
    }
  }

  lemma WrapDiffers(ty: IntType, x: int) returns (k: int)
    requires ty.Known()
    ensures ty.Wrap(x) == x + k * Pow2(ty.bits)
  {
    var m := Pow2(ty.bits);
    var y := if ty.signed then x + Pow2(ty.bits - 1) else x;
    k := -(y / m);
    assert y == (y / m) * m + y % m;
    assert (-(y / m)) * m == -((y / m) * m);
  }

  lemma WrapOfShift(ty: IntType, x: int, k: int)
    requires ty.Known()
    ensures ty.Wrap(x + k * Pow2(ty.bits)) == ty.Wrap(x)
  {
    var m := Pow2(ty.bits);
    if ty.signed {
      RemainderShift(x + Pow2(ty.bits - 1), m, k);
      assert x + k * m + Pow2(ty.bits - 1) == x + Pow2(ty.bits - 1) + k * m;
    } else {
      RemainderShift(x, m, k);
    }
  }

  /** Truncating before or after the shift by seven comes to the same. */
  lemma WrapStep(ty: IntType, acc: int, v: int)
    requires ty.Known()
    ensures ty.Wrap(ty.Wrap(acc) * 128 + v) == ty.Wrap(acc * 128 + v)
  {
    var k := WrapDiffers(ty, acc);
    var m := Pow2(ty.bits);
    assert (acc + k * m) * 128 + v == acc * 128 + v + (k * 128) * m by {
      assert (acc + k * m) * 128 == acc * 128 + (k * m) * 128;
      assert (k * m) * 128 == (k * 128) * m;
    }
    WrapOfShift(ty, acc * 128 + v, k * 128);
  }

  // ---- the loops of the source ----

  /** std::reverse on the first n bytes. */
  method ReverseInPlace(buf: array<byte>, n: nat)
    requires n <= buf.Length
    modifies buf
    ensures buf[..n] == Reverse(old(buf[..n]))
    ensures buf[n..] == old(buf[n..])
  {
    var i := 0;
    while i < n / 2
      invariant 0 <= i <= n / 2
      invariant forall k | 0 <= k < i :: buf[k] == old(buf[n - 1 - k]) && buf[n - 1 - k] == old(buf[k])
      invariant forall k | i <= k < n - i || n <= k < buf.Length :: buf[k] == old(buf[k])
    {
      buf[i], buf[n - 1 - i] := buf[n - 1 - i], buf[i];
      i := i + 1;
    }
    ghost var was := old(buf[..n]);
    forall k | 0 <= k < n
      ensures buf[..n][k] == Reverse(was)[k]
    {
      ReverseAt(was, k);
    }
  }

  lemma WidthFits(ty: IntType, t: int, k: nat)
    requires ty.Known() && ty.Holds(t) && ty.bits <= 7 * k + 6
    ensures Fits(t, k + 1)
  {
    Pow128IsPow2(k);
    Pow2Grows(ty.bits, 6 + 7 * k);
    Pow2Adds(6, 7 * k);
    Pow2Values();
    assert Pow2(ty.bits) == 2 * Pow2(ty.bits - 1);
  }

  lemma EncodedLength(ty: IntType, t: int)
    requires ty.Known() && ty.Holds(t)
    ensures |Encode(t)| <= 19
  {
    WidthFits(ty, t, 18);
    FitsBounds(t, 19);
  }

  /** A value of a type is its type's -1 exactly when it spells -1, once it has been shifted. */
  lemma ShiftedMinusOne(ty: IntType, t: int)
    requires ty.Known() && ty.Holds(t)
    ensures ty.Holds(t / 128)
    ensures t / 128 == ty.MinusOne() <==> t / 128 == -1
  {
    Pow2Grows(8, ty.bits);
    assert Pow2(8) == 256 by {
      Pow2Values();
    }
    assert Pow2(ty.bits) == 2 * Pow2(ty.bits - 1);
  }

  /** The low bytes already written, and the groups that are still to come above them, are the encoding. */
  ghost predicate SoFar(t: int, rest: int, low: seq<byte>) {
    && low != []
    && (forall i | 0 <= i < |low| :: low[i] < 128)
    && Encode(t) == Above(rest, low[|low| - 1]) + Reverse(low[0 := low[0] + 128])
  }

  lemma SoFarStep(t: int, rest: int, low: seq<byte>)
    requires SoFar(t, rest, low)
    requires (rest != 0 && rest != -1) || (rest == 0) == (low[|low| - 1] >= 64)
    ensures SoFar(t, rest / 128, low + [rest % 128])
  {
    var g: byte := rest % 128;
    var marked := low[0 := low[0] + 128];
    ReverseSnoc(marked, g);
    assert (low + [g])[0 := low[0] + 128] == marked + [g];
    assert Above(rest, low[|low| - 1]) == Above(rest / 128, g) + [g];
  }

  /** The loop of serialize: low groups first, until only copies of the sign are left. */
  method WriteGroups(ty: IntType, value: int, buf: array<byte>) returns (n: nat, t: int)
    requires ty.Known() && ty.Holds(value)
    requires buf.Length >= BUFFER
    modifies buf
    ensures 1 <= n <= 19 && SoFar(value, t, buf[..n])
    ensures t == 0 || t == -1
    ensures t == ty.MinusOne() <==> t == -1
  {
    ShiftedMinusOne(ty, value);
    buf[0] := value % 128;
    n := 1;
    t := value / 128;
    assert buf[..1] == [value % 128];
    SoFarFirst(value);
    while t != 0 && t != ty.MinusOne()
      invariant 1 <= n && ty.Holds(t)
      invariant t == ty.MinusOne() <==> t == -1
      invariant n <= 19
      invariant SoFar(value, t, buf[..n])
      decreases Size(t)
    {
      ghost var before := buf[..n];
      SoFarStep(value, t, before);
      SoFarLength(ty, value, t / 128, before + [t % 128]);
      ShiftedMinusOne(ty, t);
      buf[n] := t % 128;
      n := n + 1;
      assert buf[..n] == before + [t % 128];
      t := t / 128;
    }
  }

  lemma SoFarFirst(value: int)
    ensures SoFar(value, value / 128, [value % 128])
  {
    assert Reverse([value % 128 + 128]) == [value % 128 + 128];
    assert [value % 128][0 := value % 128 + 128] == [value % 128 + 128];
  }

  lemma SoFarLength(ty: IntType, value: int, rest: int, low: seq<byte>)
    requires ty.Known() && ty.Holds(value) && SoFar(value, rest, low)
    ensures |low| <= 19
  {
    EncodedLength(ty, value);
  }

  /** When only the sign is left, the groups and at most one sign byte are the whole encoding, backwards. */
  lemma SoFarEnd(value: int, t: int, low: seq<byte>)
    requires SoFar(value, t, low) && (t == 0 || t == -1)
    ensures var marked, last := low[0 := low[0] + 128], low[|low| - 1];
            Encode(value) == Reverse(if t == -1 && last < 64 then marked + [127]
                                     else if t == 0 && last >= 64 then marked + [0]
                                     else marked)
  {
    var last := low[|low| - 1];
    if (t == -1 && last < 64) || (t == 0 && last >= 64) {
      SoFarStep(value, t, low);
      assert Above(t / 128, t % 128) == [];
      assert (low + [t % 128])[0 := low[0] + 128] == low[0 := low[0] + 128] + [t % 128];
    } else {
      assert Above(t, last) == [];
    }
  }

  method Serialize(ty: IntType, value: int, buf: array<byte>) returns (n: nat)
    requires ty.Known() && ty.Holds(value)
    requires buf.Length >= BUFFER
    modifies buf
    ensures n == |Encode(value)| && n <= buf.Length && buf[..n] == Encode(value)
  {
    var t;
    n, t := WriteGroups(ty, value, buf);
    ghost var low := buf[..n];
    SoFarEnd(value, t, low);
    var last := buf[n - 1];
    buf[0] := buf[0] + 128;
    ghost var marked := buf[..n];
    assert marked == low[0 := low[0] + 128];
    if t == ty.MinusOne() && last < 64 {
      buf[n] := 127;
      n := n + 1;
      assert buf[..n] == marked + [127];
    } else if t == 0 && last >= 64 {
      buf[n] := 0;
      n := n + 1;
      assert buf[..n] == marked + [0];
    }
    ReverseInPlace(buf, n);
  }

  /** deserialize from a pointer into memory that holds a stop byte somewhere ahead. */
  method DeserializeAt(ty: IntType, memory: seq<byte>) returns (t: int)
    requires ty.Known()
    requires HasStop(memory)
    ensures Decode(memory).Some? && t == ty.Wrap(Decode(memory).value.0)
  {
    DecodeNeedsStop(memory);
    t := ty.SignFill(memory[0]);
    var at := 0;
    while memory[at] < 128
      invariant at < |memory| && NoStop(memory, at)
      invariant t == Machine(ty, memory, at)
      decreases |memory| - at
    {
      t := ty.Shift(t, memory[at]);
      at := at + 1;
    }
    t := ty.Shift(t, memory[at]);
    MachineReads(ty, memory, at);
  }

  lemma WrapOfSign(ty: IntType, v: byte)
    requires ty.Known()
    ensures ty.Wrap(SignOf(v)) == ty.SignFill(v)
  {
    assert Pow2(ty.bits) == 2 * Pow2(ty.bits - 1);
    if (v / 64) % 2 == 1 {
      if ty.signed {
        WrapIsIdentity(ty, -1);
      } else {
        RemainderUnique(-1, Pow2(ty.bits), -1, Pow2(ty.bits) - 1);
      }
      assert ty.MinusOne() * 1 == ty.MinusOne();
    } else {
      WrapIsIdentity(ty, 0);
      assert ty.MinusOne() * 0 == 0;
    }
  }

  /** What the machine's variable holds after n bytes. */
  function Machine(ty: IntType, input: seq<byte>, n: nat): int
    requires ty.Known() && input != [] && n <= |input|
  {
    if n == 0 then ty.SignFill(input[0]) else ty.Shift(Machine(ty, input, n - 1), input[n - 1])
  }

  /** What those bytes spell exactly. */
  ghost function Exact(input: seq<byte>, n: nat): int
    requires input != [] && n <= |input|
  {
    if n == 0 then SignOf(input[0]) else Exact(input, n - 1) * 128 + input[n - 1] % 128
  }

  lemma ShiftOfWrap(ty: IntType, acc: int, v: byte)
    requires ty.Known()
    ensures ty.Shift(ty.Wrap(acc), v) == ty.Wrap(acc * 128 + v % 128)
  {
    WrapStep(ty, acc, v % 128);
  }

  lemma {:induction false} MachineIsExact(ty: IntType, input: seq<byte>, n: nat)
    requires ty.Known() && input != [] && n <= |input|
    ensures Machine(ty, input, n) == ty.Wrap(Exact(input, n))
  {
    if n == 0 {
      WrapOfSign(ty, input[0]);
    } else {
      MachineIsExact(ty, input, n - 1);
      ShiftOfWrap(ty, Exact(input, n - 1), input[n - 1]);
    }
  }

  predicate NoStop(input: seq<byte>, n: nat)
    requires n <= |input|
  {
    forall i | 0 <= i < n :: input[i] < 128
  }

  lemma NoStopYet(input: seq<byte>)
    ensures NoStop(input, 0)
  {
  }

  lemma NoStopSnoc(input: seq<byte>, n: nat)
    requires n < |input| && NoStop(input, n) && input[n] < 128
    ensures NoStop(input, n + 1)
    ensures n + 1 == |input| ==> Decode(input).None?
  {
    if n + 1 == |input| {
      DecodeNeedsStop(input);
    }
  }

  lemma {:induction false} ScanIsExact(input: seq<byte>, n: nat)
    requires input != [] && n <= |input| && NoStop(input, n)
    ensures Decode(input) == Scan(Exact(input, n), input[n..])
  {
    if n == 0 {
      assert input[0..] == input;
    } else {
      ScanIsExact(input, n - 1);
      assert input[n - 1..][1..] == input[n..];
    }
  }

  /** A first stop bit after n bytes ends the number, and the machine holds it, truncated to its type. */
  lemma MachineReads(ty: IntType, input: seq<byte>, n: nat)
    requires ty.Known() && n < |input| && NoStop(input, n) && input[n] >= 128
    ensures Decode(input) == Some((Exact(input, n + 1), input[n + 1..]))
    ensures Machine(ty, input, n + 1) == ty.Wrap(Decode(input).value.0)
  {
    ScanIsExact(input, n);
    assert input[n..][1..] == input[n + 1..];
    MachineIsExact(ty, input, n + 1);
  }

  /** On every width and signedness, what the machine reads back is the value that was written. */
  lemma MachineRoundTrip(ty: IntType, t: int, rest: seq<byte>)
    requires ty.Known() && ty.Holds(t)
    ensures var d := Decode(Encode(t) + rest);
            d.Some? && ty.Wrap(d.value.0) == t && d.value.1 == rest
  {
    RoundTrip(t, rest);
    WrapIsIdentity(ty, t);
  }
}
