/** Machine words, bytes, and the few facts about remainders the other modules need. */
module Words {

  datatype Option<+T> = None | Some(value: T)

  /** An unsigned 64-bit value. */
  type word = x: int | 0 <= x < WORD

  /** Unsigned 64-bit addition. */
  function WrapAdd(a: word, n: word): word {
    if a + n < WORD then a + n else a + n - WORD
  }

  /** Unsigned 64-bit subtraction. */
  function WrapSub(a: word, b: word): word {
    if a >= b then a - b else a - b + WORD
  }

  function Min(a: nat, b: nat): nat {
    if a < b then a else b
  }

  type byte = b: int | 0 <= b < 256

  const WORD_BITS: nat := 64

  const WORD: int := 0x1_0000_0000_0000_0000

  function Pow2(n: nat): (r: nat)
    ensures r >= 1
  {
    if n == 0 then 1 else 2 * Pow2(n - 1)
  }

  lemma {:induction false} Pow2Adds(m: nat, n: nat)
    ensures Pow2(m + n) == Pow2(m) * Pow2(n)
  {
    if m == 0 {
    } else {
      Pow2Adds(m - 1, n);
    }
  }

  lemma {:induction false} Pow2Grows(m: nat, n: nat)
    requires m <= n
    ensures Pow2(m) <= Pow2(n)
  {
    if m == n {
    } else {
      Pow2Grows(m, n - 1);
    }
  }

  lemma OnlyZeroFits(d: int, c: int)
    requires -c < d * c < c
    ensures d == 0
  {
  }

  lemma Pow2Values()
    ensures Pow2(6) == 64 && Pow2(7) == 128 && Pow2(8) == 256
    ensures Pow2(30) == 0x4000_0000 && Pow2(WORD_BITS) == WORD
  {
    assert Pow2(3) == 8;
    Pow2Adds(3, 3);
    Pow2Adds(6, 1);
    Pow2Adds(7, 1);
    Pow2Adds(8, 7);
    Pow2Adds(15, 15);
    Pow2Adds(8, 8);
    Pow2Adds(16, 16);
    Pow2Adds(32, 32);
  }

  lemma MulOrder(a: int, b: int, p: nat)
    requires a <= b
    ensures a * p <= b * p
  {
    assert b * p == a * p + (b - a) * p;
  }

  /** A number written as q * c + r has remainder r. */
  lemma RemainderUnique(x: int, c: int, q: int, r: int)
    requires c > 0 && 0 <= r < c && x == q * c + r
    ensures x % c == r && x / c == q
  {
    var d := x / c - q;
    assert d * c == r - x % c by {
      assert x == (x / c) * c + x % c;
      assert (x / c - q) * c == (x / c) * c - q * c;
    }
    OnlyZeroFits(d, c);
  }

  /** Dividing by a and then by p is dividing by a * p. */
  lemma DivTwice(x: int, a: nat, p: nat)
    requires a >= 1 && p >= 1
    ensures a * p >= 1 && (x / a) / p == x / (a * p)
  {
    var q, r := x / a, x % a;
    var k, m := q / p, q % p;
    MulOrder(1, a, p);
    MulOrder(m + 1, p, a);
    assert x == k * (a * p) + (a * m + r) by {
      assert x == a * (p * k + m) + r;
      assert a * (p * k) == k * (a * p);
    }
    RemainderUnique(x, a * p, k, a * m + r);
  }

  lemma RemainderShift(x: int, c: int, k: int)
    requires c > 0
    ensures (x + k * c) % c == x % c
  {
    var q, r := x / c, x % c;
    assert x + k * c == (q + k) * c + r by {
      assert (q + k) * c == q * c + k * c;
    }
    RemainderUnique(x + k * c, c, q + k, r);
  }

  /** Walking i <= c steps from a 64-bit counter moves its remainder by i, round a cycle of c that divides 2^64. */
  lemma CounterRemainder(front: word, i: word, c: int, k: int)
    requires c > 0 && WORD == k * c && i <= c
    ensures WrapAdd(front, i) % c == if front % c + i < c then front % c + i else front % c + i - c
  {
    var x := front + i;
    var q, f := front / c, front % c;
    assert front == q * c + f;
    if f + i < c {
      RemainderUnique(x, c, q, f + i);
    } else {
      assert (q + 1) * c == q * c + c;
      RemainderUnique(x, c, q + 1, f + i - c);
    }
    if x >= WORD {
      RemainderShift(x - WORD, c, k);
    }
  }

  lemma ConcatAssoc<T>(a: seq<T>, b: seq<T>, c: seq<T>)
    ensures (a + b) + c == a + (b + c)
  {
  }

  /** Cutting a slice one element longer. */
  lemma SliceSnoc<T>(s: seq<T>, from: nat, to: nat)
    requires from <= to < |s|
    ensures s[from..to + 1] == s[from..to] + [s[to]]
  {
  }

  lemma SliceSplit<T>(s: seq<T>, mid: nat, to: nat)
    requires mid <= to <= |s|
    ensures s[..to] == s[..mid] + s[mid..to]
  {
  }

  lemma SameCons<T>(a: T, x: seq<T>, b: T, y: seq<T>)
    requires [a] + x == [b] + y
    ensures a == b && x == y
  {
    assert ([a] + x)[0] == a && ([a] + x)[1..] == x;
    assert ([b] + y)[0] == b && ([b] + y)[1..] == y;
  }

  /** Bitwise "and" of two non-negative numbers, bit by bit. */
  function BitAnd(x: nat, y: nat): nat
  {
    if x == 0 || y == 0 then 0
    else (if x % 2 == 1 && y % 2 == 1 then 1 else 0) + 2 * BitAnd(x / 2, y / 2)
  }

  lemma HalfRemainder(x: nat, half: nat)
    requires half >= 1
    ensures x % (2 * half) == 2 * ((x / 2) % half) + x % 2
  {
    var q, r := (x / 2) / half, (x / 2) % half;
    assert x / 2 == q * half + r;
    assert q * (2 * half) == 2 * (q * half);
    RemainderUnique(x, 2 * half, q, 2 * r + x % 2);
  }

  lemma MaskStep(x: nat, half: nat, mask: nat)
    requires half >= 1 && x > 0 && mask == 2 * half - 1
    ensures BitAnd(x, mask) == x % 2 + 2 * BitAnd(x / 2, half - 1)
  {
    assert mask / 2 == half - 1;
    assert mask % 2 == 1;
  }

  /** Masking with capacity - 1 is taking the remainder by the capacity. */
  lemma {:induction false} MaskIsRemainder(x: nat, bits: nat)
    ensures BitAnd(x, Pow2(bits) - 1) == x % Pow2(bits)
    decreases bits
  {
    if bits == 0 {
    } else if x == 0 {
      RemainderUnique(0, Pow2(bits), 0, 0);
    } else {
      var half := Pow2(bits - 1);
      MaskIsRemainder(x / 2, bits - 1);
      MaskStep(x, half, 2 * half - 1);
      HalfRemainder(x, half);
    }
  }

  function Reverse<T>(s: seq<T>): (r: seq<T>)
    ensures |r| == |s|
  {
    if s == [] then [] else Reverse(s[1..]) + [s[0]]
  }

  lemma {:induction false} ReverseAt<T>(s: seq<T>, i: nat)
    requires i < |s|
    ensures Reverse(s)[i] == s[|s| - 1 - i]
  {
    if i < |s| - 1 {
      ReverseAt(s[1..], i);
    }
  }

  lemma ReverseSnoc<T>(s: seq<T>, t: T)
    ensures Reverse(s + [t]) == [t] + Reverse(s)
  {
    forall i: nat | i < |s| + 1
      ensures Reverse(s + [t])[i] == ([t] + Reverse(s))[i]
    {
      ReverseAt(s + [t], i);
      if i > 0 {
        ReverseAt(s, i - 1);
      }
    }
  }
}
