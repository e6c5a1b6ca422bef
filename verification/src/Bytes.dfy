/** Bytes, byte strings, and the little-endian integers of the wire formats. */
module Bytes {

  type byte = bv8

  type bytes = seq<byte>

  const NUL: byte := 0

  const SLASH: byte := 0x2F

  datatype Option<+T> = None | Some(value: T)

  /** 256 to the power `width`: one more than the largest integer of that many bytes. */
  function Pow256(width: nat): (p: nat)
    ensures p > 0
  {
    if width == 0 then 1 else 256 * Pow256(width - 1)
  }

  lemma Widths()
    ensures Pow256(1) == 0x100
    ensures Pow256(2) == 0x1_0000
    ensures Pow256(4) == 0x1_0000_0000
    ensures Pow256(8) == 0x1_0000_0000_0000_0000
  {
    assert Pow256(3) == 0x100_0000;
    assert Pow256(5) == 0x100_0000_0000;
    assert Pow256(7) == 0x100_0000_0000_0000;
  }

  /** A sequence is what is before an element, the element, and what is after it. */
  lemma SplitAt<T>(s: seq<T>, n: nat)
    requires n < |s|
    ensures s[..n + 1] == s[..n] + [s[n]]
    ensures s == s[..n + 1] + s[n + 1..]
  {
  }

  // Bytes and integers meet in eight truth values, so neither theory has to know the other.

  /** The number with the last binary digit `b` and the digits of `m` before it. */
  function Put(b: bool, m: nat): nat {
    2 * m + if b then 1 else 0
  }

  function Horner(b0: bool, b1: bool, b2: bool, b3: bool, b4: bool, b5: bool, b6: bool, b7: bool): nat {
    Put(b0, Put(b1, Put(b2, Put(b3, Put(b4, Put(b5, Put(b6, Put(b7, 0))))))))
  }

  function Mark(b: bool, w: byte): byte {
    if b then w else 0
  }

  function Pack(b0: bool, b1: bool, b2: bool, b3: bool, b4: bool, b5: bool, b6: bool, b7: bool): byte {
    Mark(b0, 0x01) | Mark(b1, 0x02) | Mark(b2, 0x04) | Mark(b3, 0x08)
    | Mark(b4, 0x10) | Mark(b5, 0x20) | Mark(b6, 0x40) | Mark(b7, 0x80)
  }

  function Has(b: byte, w: byte): bool {
    b & w != 0
  }

  /** The value of a byte. */
  function Val(b: byte): nat {
    Horner(Has(b, 0x01), Has(b, 0x02), Has(b, 0x04), Has(b, 0x08),
           Has(b, 0x10), Has(b, 0x20), Has(b, 0x40), Has(b, 0x80))
  }

  function Odd(n: nat): bool {
    n % 2 == 1
  }

  function Half(n: nat): nat {
    n / 2
  }

  /** The byte with the value `n` modulo 256. */
  function Low(n: nat): byte {
    var n1 := Half(n);
    var n2 := Half(n1);
    var n3 := Half(n2);
    var n4 := Half(n3);
    var n5 := Half(n4);
    var n6 := Half(n5);
    var n7 := Half(n6);
    Pack(Odd(n), Odd(n1), Odd(n2), Odd(n3), Odd(n4), Odd(n5), Odd(n6), Odd(n7))
  }

  lemma PackHas(b0: bool, b1: bool, b2: bool, b3: bool, b4: bool, b5: bool, b6: bool, b7: bool)
    ensures var b := Pack(b0, b1, b2, b3, b4, b5, b6, b7);
            && Has(b, 0x01) == b0 && Has(b, 0x02) == b1 && Has(b, 0x04) == b2 && Has(b, 0x08) == b3
            && Has(b, 0x10) == b4 && Has(b, 0x20) == b5 && Has(b, 0x40) == b6 && Has(b, 0x80) == b7
  {
  }

  lemma HasPack(b: byte)
    ensures Pack(Has(b, 0x01), Has(b, 0x02), Has(b, 0x04), Has(b, 0x08),
                 Has(b, 0x10), Has(b, 0x20), Has(b, 0x40), Has(b, 0x80)) == b
  {
  }

  lemma Halving(n: nat)
    ensures n == Put(Odd(n), Half(n))
  {
  }

  lemma Doubling(b: bool, m: nat)
    ensures Odd(Put(b, m)) == b && Half(Put(b, m)) == m
  {
  }

  lemma HornerBound(b0: bool, b1: bool, b2: bool, b3: bool, b4: bool, b5: bool, b6: bool, b7: bool)
    ensures Horner(b0, b1, b2, b3, b4, b5, b6, b7) < 256
  {
  }

  lemma Remainder(n: nat, r: nat, q: nat)
    requires n == r + 256 * q && r < 256
    ensures n % 256 == r && n / 256 == q
  {
  }

  lemma ValOfLow(n: nat)
    ensures Val(Low(n)) == n % 256
  {
    hide Has, Pack, Odd, Half;
    var n1 := Half(n);
    var n2 := Half(n1);
    var n3 := Half(n2);
    var n4 := Half(n3);
    var n5 := Half(n4);
    var n6 := Half(n5);
    var n7 := Half(n6);
    PackHas(Odd(n), Odd(n1), Odd(n2), Odd(n3), Odd(n4), Odd(n5), Odd(n6), Odd(n7));
    HornerBound(Odd(n), Odd(n1), Odd(n2), Odd(n3), Odd(n4), Odd(n5), Odd(n6), Odd(n7));
    Halving(n);
    Halving(n1);
    Halving(n2);
    Halving(n3);
    Halving(n4);
    Halving(n5);
    Halving(n6);
    Halving(n7);
    Remainder(n, Val(Low(n)), Half(n7));
  }

  lemma LowOfVal(b: byte)
    ensures Val(b) < 256 && Low(Val(b)) == b
  {
    hide Has, Pack, Odd, Half, Put;
    HasPack(b);
    var v7 := Put(Has(b, 0x80), 0);
    var v6 := Put(Has(b, 0x40), v7);
    var v5 := Put(Has(b, 0x20), v6);
    var v4 := Put(Has(b, 0x10), v5);
    var v3 := Put(Has(b, 0x08), v4);
    var v2 := Put(Has(b, 0x04), v3);
    Doubling(Has(b, 0x80), 0);
    Doubling(Has(b, 0x40), v7);
    Doubling(Has(b, 0x20), v6);
    Doubling(Has(b, 0x10), v5);
    Doubling(Has(b, 0x08), v4);
    Doubling(Has(b, 0x04), v3);
    Doubling(Has(b, 0x02), v2);
    Doubling(Has(b, 0x01), Put(Has(b, 0x02), v2));
    HornerBound(Has(b, 0x01), Has(b, 0x02), Has(b, 0x04), Has(b, 0x08),
                Has(b, 0x10), Has(b, 0x20), Has(b, 0x40), Has(b, 0x80));
  }

  /** The `width` low-order bytes of `n`, least significant first. */
  function Le(n: nat, width: nat): (b: bytes)
    ensures |b| == width
  {
    if width == 0 then [] else [Low(n)] + Le(n / 256, width - 1)
  }

  /** The integer whose little-endian representation is `b`. */
  function FromLe(b: bytes): nat {
    if b == [] then 0 else Val(b[0]) + 256 * FromLe(b[1..])
  }

  lemma {:induction false} FromLeBound(b: bytes)
    ensures FromLe(b) < Pow256(|b|)
  {
    hide Val;
    if b == [] {
    } else {
      LowOfVal(b[0]);
      FromLeBound(b[1..]);
    }
  }

  /** Decoding undoes encoding for every integer that fits. */
  lemma {:induction false} FromLeOfLe(n: nat, width: nat)
    requires n < Pow256(width)
    ensures FromLe(Le(n, width)) == n
  {
    hide Val, Low;
    if width == 0 {
    } else {
      FromLeOfLe(n / 256, width - 1);
      ValOfLow(n);
      assert Le(n, width)[1..] == Le(n / 256, width - 1);
    }
  }

  lemma LowDigit(n: nat, m: nat)
    requires n < 256
    ensures (n + 256 * m) / 256 == m && Low(n + 256 * m) == Low(n)
  {
    hide Val, Low;
    Remainder(n + 256 * m, n, m);
    ValOfLow(n + 256 * m);
    ValOfLow(n);
    LowOfVal(Low(n + 256 * m));
    LowOfVal(Low(n));
  }

  /** Encoding undoes decoding for every byte string. */
  lemma {:induction false} LeOfFromLe(b: bytes)
    ensures Le(FromLe(b), |b|) == b
  {
    hide Val, Low;
    if b == [] {
    } else {
      LeOfFromLe(b[1..]);
      LowOfVal(b[0]);
      LowDigit(Val(b[0]), FromLe(b[1..]));
    }
  }
}
