/** The hash function as FIPS 180-4 defines it: padding in section 5.1.1, computation in section 6.2. */
module Sha256 {
  import opened Words

  type Bytes = seq<byte>

  /** Section 4.2.2, eight at a time. */
  const K0: seq<bv32> :=
    [0x428a2f98, 0x71374491, 0xb5c0fbcf, 0xe9b5dba5, 0x3956c25b, 0x59f111f1, 0x923f82a4, 0xab1c5ed5]
  const K1: seq<bv32> :=
    [0xd807aa98, 0x12835b01, 0x243185be, 0x550c7dc3, 0x72be5d74, 0x80deb1fe, 0x9bdc06a7, 0xc19bf174]
  const K2: seq<bv32> :=
    [0xe49b69c1, 0xefbe4786, 0x0fc19dc6, 0x240ca1cc, 0x2de92c6f, 0x4a7484aa, 0x5cb0a9dc, 0x76f988da]
  const K3: seq<bv32> :=
    [0x983e5152, 0xa831c66d, 0xb00327c8, 0xbf597fc7, 0xc6e00bf3, 0xd5a79147, 0x06ca6351, 0x14292967]
  const K4: seq<bv32> :=
    [0x27b70a85, 0x2e1b2138, 0x4d2c6dfc, 0x53380d13, 0x650a7354, 0x766a0abb, 0x81c2c92e, 0x92722c85]
  const K5: seq<bv32> :=
    [0xa2bfe8a1, 0xa81a664b, 0xc24b8b70, 0xc76c51a3, 0xd192e819, 0xd6990624, 0xf40e3585, 0x106aa070]
  const K6: seq<bv32> :=
    [0x19a4c116, 0x1e376c08, 0x2748774c, 0x34b0bcb5, 0x391c0cb3, 0x4ed8aa4a, 0x5b9cca4f, 0x682e6ff3]
  const K7: seq<bv32> :=
    [0x748f82ee, 0x78a5636f, 0x84c87814, 0x8cc70208, 0x90befffa, 0xa4506ceb, 0xbef9a3f7, 0xc67178f2]

  const K: seq<bv32> := K0 + K1 + K2 + K3 + K4 + K5 + K6 + K7

  /** The working variables, and the hash value, which has as many words. */
  datatype Vars = Vars(a: bv32, b: bv32, c: bv32, d: bv32, e: bv32, f: bv32, g: bv32, h: bv32)

  const H0: Vars := Vars(0x6a09e667, 0xbb67ae85, 0x3c6ef372, 0xa54ff53a, 0x510e527f, 0x9b05688c, 0x1f83d9ab, 0x5be0cd19)

  // ---- addition modulo 2^32 ----

  function Plus(x: bv32, y: bv32): bv32 {
    x + y
  }

  function Sum4(a: bv32, b: bv32, c: bv32, d: bv32): bv32 {
    a + b + c + d
  }

  function Sum5(a: bv32, b: bv32, c: bv32, d: bv32, e: bv32): bv32 {
    a + b + c + d + e
  }

  lemma SumOrder(a: bv32, b: bv32, c: bv32, d: bv32)
    ensures Sum4(a, b, c, d) == Sum4(d, c, b, a)
  {
  }

  // ---- section 4.1.2 ----

  function Rotr(x: bv32, n: bv32): bv32
    requires n < 32
  {
    (x >> n) | (x << (32 - n))
  }

  function Ch(x: bv32, y: bv32, z: bv32): bv32 {
    (x & y) ^ (!x & z)
  }

  function Maj(x: bv32, y: bv32, z: bv32): bv32 {
    (x & y) ^ (x & z) ^ (y & z)
  }

  function BigSigma0(x: bv32): bv32 {
    Rotr(x, 2) ^ Rotr(x, 13) ^ Rotr(x, 22)
  }

  function BigSigma1(x: bv32): bv32 {
    Rotr(x, 6) ^ Rotr(x, 11) ^ Rotr(x, 25)
  }

  function SmallSigma0(x: bv32): bv32 {
    Rotr(x, 7) ^ Rotr(x, 18) ^ (x >> 3)
  }

  function SmallSigma1(x: bv32): bv32 {
    Rotr(x, 17) ^ Rotr(x, 19) ^ (x >> 10)
  }

  // ---- section 5.1.1 ----

  function Zeros(n: nat): (s: Bytes)
    ensures |s| == n && forall i | 0 <= i < n :: s[i] == 0
  {
    seq(n, _ => 0)
  }

  /** The n low bytes of x, most significant first. */
  function BigEndian(x: nat, n: nat): (s: Bytes)
    ensures |s| == n
  {
    if n == 0 then [] else BigEndian(x / 256, n - 1) + [x % 256]
  }

  /** The smallest number of zero bytes that brings length and terminator to 56 modulo 64. */
  function ZeroCount(length: nat): nat {
    (119 - length % 64) % 64
  }

  /** z zero bytes behind a message and its marker bring it to 56 modulo 64. */
  predicate Fills(length: nat, z: nat) {
    (length + 1 + z) % 64 == 56
  }

  lemma ZeroCountIsLeast(length: nat)
    ensures Fills(length, ZeroCount(length))
    ensures forall z: nat | Fills(length, z) :: ZeroCount(length) <= z
  {
  }

  /** Marker, zeros, and the length in bits as n bytes. */
  function PaddingWith(length: nat, n: nat): (p: Bytes)
    ensures |p| == 1 + ZeroCount(length) + n
  {
    [0x80] + Zeros(ZeroCount(length)) + BigEndian(8 * length % WORD, n)
  }

  /** What follows a message of the given length in bytes. */
  function Padding(length: nat): (p: Bytes)
    ensures |p| == 9 + ZeroCount(length)
  {
    PaddingWith(length, 8)
  }

  lemma PaddedIsWholeBlocks(length: nat)
    ensures (length + |Padding(length)|) % 64 == 0
  {
    hide Padding;
    ZeroCountIsLeast(length);
    hide ZeroCount;
  }

  // ---- section 6.2 ----

  function Widen(b: byte): bv32 {
    b as bv32
  }

  function Word(b0: byte, b1: byte, b2: byte, b3: byte): bv32 {
    Sum4(Widen(b0) << 24, Widen(b1) << 16, Widen(b2) << 8, Widen(b3))
  }

  function Mix(w2: bv32, w7: bv32, w15: bv32, w16: bv32): bv32 {
    Sum4(SmallSigma1(w2), w7, SmallSigma0(w15), w16)
  }

  /** W_t from the block and the words before it, t being their number. */
  function NextWord(block: Bytes, w: seq<bv32>): bv32
    requires |block| == 64
  {
    var t := |w|;
    if t < 16 then
      if 4 * t + 3 < 64 then Word(block[4 * t], block[4 * t + 1], block[4 * t + 2], block[4 * t + 3]) else 0
    else
      Mix(w[t - 2], w[t - 7], w[t - 15], w[t - 16])
  }

  /** W_0 to W_{n-1} */
  function Schedule(block: Bytes, n: nat): (w: seq<bv32>)
    requires |block| == 64
    ensures |w| == n
  {
    if n == 0 then [] else
      var w := Schedule(block, n - 1);
      w + [NextWord(block, w)]
  }

  function Round(v: Vars, k: bv32, w: bv32): Vars {
    var t1 := Sum5(v.h, BigSigma1(v.e), Ch(v.e, v.f, v.g), k, w);
    var t2 := Plus(BigSigma0(v.a), Maj(v.a, v.b, v.c));
    Vars(Plus(t1, t2), v.a, v.b, v.c, Plus(v.d, t1), v.e, v.f, v.g)
  }

  /** The working variables after t rounds. */
  function Rounds(v: Vars, k: seq<bv32>, w: seq<bv32>, t: nat): Vars
    requires t <= |k| && t <= |w|
  {
    if t == 0 then v else Round(Rounds(v, k, w, t - 1), k[t - 1], w[t - 1])
  }

  function AddVars(x: Vars, y: Vars): Vars {
    Vars(Plus(x.a, y.a), Plus(x.b, y.b), Plus(x.c, y.c), Plus(x.d, y.d),
         Plus(x.e, y.e), Plus(x.f, y.f), Plus(x.g, y.g), Plus(x.h, y.h))
  }

  function Compress(h: Vars, k: seq<bv32>, block: Bytes): Vars
    requires |block| == 64 && |k| == 64
  {
    AddVars(h, Rounds(h, k, Schedule(block, |k|), |k|))
  }

  /** All whole blocks of the data, in order. */
  function HashBlocks(h: Vars, k: seq<bv32>, data: Bytes): Vars
    requires |k| == 64
    decreases |data|
  {
    if |data| < 64 then h else HashBlocks(Compress(h, k, data[..64]), k, data[64..])
  }

  function WordBytes(x: bv32): (s: Bytes)
    ensures |s| == 4
  {
    [((x >> 24) & 0xFF) as int, ((x >> 16) & 0xFF) as int, ((x >> 8) & 0xFF) as int, (x & 0xFF) as int]
  }

  function Digest(h: Vars): (s: Bytes)
    ensures |s| == 32
  {
    WordBytes(h.a) + WordBytes(h.b) + WordBytes(h.c) + WordBytes(h.d)
    + WordBytes(h.e) + WordBytes(h.f) + WordBytes(h.g) + WordBytes(h.h)
  }

  function Hash(message: Bytes): Bytes {
    Digest(HashBlocks(H0, K, message + Padding(|message|)))
  }

  // ---- padding loses nothing ----

  function Pow256(n: nat): (r: nat)
    ensures r >= 1
  {
    if n == 0 then 1 else 256 * Pow256(n - 1)
  }

  lemma {:induction false} BigEndianInjective(x: nat, y: nat, n: nat)
    requires BigEndian(x, n) == BigEndian(y, n) && x < Pow256(n) && y < Pow256(n)
    ensures x == y
  {
    if n > 0 {
      var p, q := BigEndian(x / 256, n - 1), BigEndian(y / 256, n - 1);
      assert p + [x % 256] == q + [y % 256];
      assert p == (p + [x % 256])[..n - 1] && q == (q + [y % 256])[..n - 1];
      assert (p + [x % 256])[n - 1] == x % 256 && (q + [y % 256])[n - 1] == y % 256;
      BigEndianInjective(x / 256, y / 256, n - 1);
    }
  }

  lemma WordHasEightBytes(n: nat)
    requires n == 8
    ensures Pow256(n) == WORD
  {
    assert Pow256(n - 1) == 256 * Pow256(n - 2);
    assert Pow256(n - 3) == 256 * Pow256(n - 4);
    assert Pow256(n - 5) == 256 * Pow256(n - 6);
    assert Pow256(n - 7) == 256;
  }

  /** A field of n bytes that ends both of two equal texts holds the same number in both. */
  lemma SameTail(s1: Bytes, s2: Bytes, x: nat, y: nat, n: nat)
    requires s1 + BigEndian(x, n) == s2 + BigEndian(y, n) && x < Pow256(n) && y < Pow256(n)
    ensures x == y
  {
    var p1, p2 := s1 + BigEndian(x, n), s2 + BigEndian(y, n);
    assert p1[|p1| - n..] == BigEndian(x, n) && p2[|p2| - n..] == BigEndian(y, n);
    BigEndianInjective(x, y, n);
  }

  /** Everything before the length field. */
  function Marked(m: Bytes): Bytes {
    m + ([0x80] + Zeros(ZeroCount(|m|)))
  }

  lemma PaddedIsMarked(m: Bytes, n: nat)
    requires 8 * |m| < WORD
    ensures m + PaddingWith(|m|, n) == Marked(m) + BigEndian(8 * |m|, n)
  {
    hide BigEndian, ZeroCount;
    ConcatAssoc(m, [0x80] + Zeros(ZeroCount(|m|)), BigEndian(8 * |m|, n));
  }

  /** Two messages below 2^61 bytes with the same padded form are the same message. */
  lemma PaddingInjective(m1: Bytes, m2: Bytes, n: nat)
    requires n == 8 && 8 * |m1| < WORD && 8 * |m2| < WORD
    requires m1 + PaddingWith(|m1|, n) == m2 + PaddingWith(|m2|, n)
    ensures m1 == m2
  {
    assert |m1| == |m2| by {
      WordHasEightBytes(n);
      PaddedIsMarked(m1, n);
      PaddedIsMarked(m2, n);
      SameTail(Marked(m1), Marked(m2), 8 * |m1|, 8 * |m2|, n);
    }
    assert m1 == (m1 + PaddingWith(|m1|, n))[..|m1|] && m2 == (m2 + PaddingWith(|m2|, n))[..|m1|];
  }
}
