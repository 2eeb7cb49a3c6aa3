/** Single bits of 32-bit words, on the operators themselves. */
module WordBits {
  import opened Words

  /** Bit i, counted from the least significant. */
  predicate Bit(x: bv32, i: bv32)
    requires i < 32
  {
    (x >> i) & 1 == 1
  }

  lemma RotatedBit(x: bv32, n: bv32, i: bv32)
    requires n < 32 && i < 32
    ensures (i + n) & 31 < 32
    ensures Bit((x >> n) | (x << (32 - n)), i) <==> Bit(x, (i + n) & 31)
  {
  }

  lemma ChosenBit(x: bv32, y: bv32, z: bv32, i: bv32)
    requires i < 32
    ensures Bit((x & y) ^ (!x & z), i) <==> if Bit(x, i) then Bit(y, i) else Bit(z, i)
  {
  }

  lemma MajorityBit(x: bv32, y: bv32, z: bv32, i: bv32)
    requires i < 32
    ensures Bit((x & y) ^ (x & z) ^ (y & z), i) <==>
            (Bit(x, i) && Bit(y, i)) || (Bit(x, i) && Bit(z, i)) || (Bit(y, i) && Bit(z, i))
  {
  }

  // ---- as numbers ----

  lemma DoubledPlus0(x: bv32)
    requires x < 0x8000_0000
    ensures (x << 1) as int == 2 * (x as int)
  {
  }

  lemma DoubledPlus1(x: bv32)
    requires x < 0x8000_0000
    ensures ((x << 1) | 1) as int == 2 * (x as int) + 1
  {
  }

  /** One more binary digit. */
  function Put(x: bv32, one: bool): bv32 {
    if one then (x << 1) | 1 else x << 1
  }

  lemma PutIs(x: bv32, one: bool)
    requires x < 0x8000_0000
    ensures Put(x, one) as int == 2 * (x as int) + if one then 1 else 0
  {
    if one {
      DoubledPlus1(x);
    } else {
      DoubledPlus0(x);
    }
  }

  lemma ThereAndBack(x: bv32)
    ensures (x as int) as bv32 == x
  {
  }

  /** A byte survives the way through a word. */
  lemma {:induction false} ByteBack(b: byte)
    ensures b as bv32 < 256 && (b as bv32) as int == b
  {
    var x := WordOf(b);
    ThereAndBack(x);
  }

  lemma {:induction false} WordOf(b: byte) returns (x: bv32)
    ensures x as int == b && x < 256
    decreases b
  {
    if b == 0 {
      x := 0;
    } else {
      var h := WordOf(b / 2);
      Below128(h);
      x := Put(h, b % 2 == 1);
      PutIs(h, b % 2 == 1);
      Below256(x);
    }
  }

  lemma Below128(x: bv32)
    requires x as int < 128
    ensures x < 128
  {
  }

  lemma Below256(x: bv32)
    requires x as int < 256
    ensures x < 256
  {
  }

  /** Four bytes added up in their places. */
  lemma FourBytes(b0: bv32, b1: bv32, b2: bv32, b3: bv32)
    requires b0 < 256 && b1 < 256 && b2 < 256 && b3 < 256
    ensures var w := (b0 << 24) + (b1 << 16) + (b2 << 8) + b3;
            && w >> 24 == b0 && (w >> 24) & 0xFF == b0
            && (w >> 16) & 0xFF == b1 && (w >> 8) & 0xFF == b2 && w & 0xFF == b3
  {
  }
}
