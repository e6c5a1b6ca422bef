/**
 CRC-32C (the polynomial of section 12.1 of RFC 3720, bit-reflected) as send streams use it:
 the register starts at 0 and the result is not inverted.
 */
module Crc {
  import opened Bytes

  /** The reflected form of the polynomial 0x1EDC6F41. */
  const POLY: bv32 := 0x82F6_3B78

  function BitStep(c: bv32): bv32 {
    if c & 1 == 1 then (c >> 1) ^ POLY else c >> 1
  }

  function ByteStep(c: bv32): bv32 {
    BitStep(BitStep(BitStep(BitStep(BitStep(BitStep(BitStep(BitStep(c))))))))
  }

  /** The register after feeding one byte. */
  function Feed(c: bv32, x: byte): bv32 {
    ByteStep(Xor(c, Wide(x)))
  }

  /** The register after feeding `data` to the register `c`. */
  function Update(c: bv32, data: bytes): bv32
    decreases |data|
  {
    if data == [] then c else Update(Feed(c, data[0]), data[1..])
  }

  /** The checksum of a send-stream command. */
  function Checksum(data: bytes): bv32 {
    Update(0, data)
  }

  function Xor(c: bv32, d: bv32): bv32 {
    c ^ d
  }

  function Not(c: bv32): bv32 {
    !c
  }

  function Wide(x: byte): bv32 {
    x as bv32
  }

  /** The usual CRC-32C interface: registers are inverted on the way in and on the way out. */
  function Crc32cAppend(crc: bv32, data: bytes): bv32 {
    Not(Update(Not(crc), data))
  }

  /** The two build variants of the receiver compute the same checksum. */
  lemma VariantsAgree(data: bytes)
    ensures Not(Crc32cAppend(0xFFFF_FFFF, data)) == Checksum(data)
  {
    hide Feed;
    assert Not(0xFFFF_FFFF) == 0;
    NotNot(Update(0, data));
  }

  lemma NotNot(c: bv32)
    ensures Not(Not(c)) == c
  {
  }

  /** The check value of the parameter set: the checksum of the ASCII string "123456789". */
  lemma CheckValue()
    ensures Checksum([0x31, 0x32, 0x33, 0x34, 0x35, 0x36, 0x37, 0x38, 0x39]) == 0x58E3_FA20
  {
    hide Feed, Update;
    var s: bytes := [0x31, 0x32, 0x33, 0x34, 0x35, 0x36, 0x37, 0x38, 0x39];
    CheckSteps();
    UpdateAt(s, 0, 0);
    UpdateAt(s, 1, 0xC288_CAB2);
    UpdateAt(s, 2, 0x8234_B3B2);
    UpdateAt(s, 3, 0x701F_8CC8);
    UpdateAt(s, 4, 0xBE5D_BF29);
    UpdateAt(s, 5, 0x5DA3_5500);
    UpdateAt(s, 6, 0x161F_0D0C);
    UpdateAt(s, 7, 0xA97C_FD87);
    UpdateAt(s, 8, 0xECAF_3210);
    assert s[0..] == s && s[9..] == [];
    UpdateNothing(0x58E3_FA20);
  }

  lemma UpdateNothing(c: bv32)
    ensures Update(c, []) == c
  {
  }

  lemma UpdateAt(s: bytes, i: nat, c: bv32)
    requires i < |s|
    ensures Update(c, s[i..]) == Update(Feed(c, s[i]), s[i + 1..])
  {
    hide Feed;
    assert s[i..][1..] == s[i + 1..];
  }

  lemma CheckSteps()
    ensures Feed(0x0000_0000, 0x31) == 0xC288_CAB2
    ensures Feed(0xC288_CAB2, 0x32) == 0x8234_B3B2
    ensures Feed(0x8234_B3B2, 0x33) == 0x701F_8CC8
    ensures Feed(0x701F_8CC8, 0x34) == 0xBE5D_BF29
    ensures Feed(0xBE5D_BF29, 0x35) == 0x5DA3_5500
    ensures Feed(0x5DA3_5500, 0x36) == 0x161F_0D0C
    ensures Feed(0x161F_0D0C, 0x37) == 0xA97C_FD87
    ensures Feed(0xA97C_FD87, 0x38) == 0xECAF_3210
    ensures Feed(0xECAF_3210, 0x39) == 0x58E3_FA20
  {
  }

  // ---------------------------------------------------------------------------------------
  // The register update is a bijection of the register, so differences never cancel.

  lemma BitStepInjective(c: bv32, d: bv32)
    requires BitStep(c) == BitStep(d)
    ensures c == d
  {
  }

  lemma ByteStepInjective(c: bv32, d: bv32)
    requires ByteStep(c) == ByteStep(d)
    ensures c == d
  {
    hide BitStep;
    var c1, d1 := BitStep(c), BitStep(d);
    var c2, d2 := BitStep(c1), BitStep(d1);
    var c3, d3 := BitStep(c2), BitStep(d2);
    var c4, d4 := BitStep(c3), BitStep(d3);
    var c5, d5 := BitStep(c4), BitStep(d4);
    var c6, d6 := BitStep(c5), BitStep(d5);
    var c7, d7 := BitStep(c6), BitStep(d6);
    BitStepInjective(c7, d7);
    BitStepInjective(c6, d6);
    BitStepInjective(c5, d5);
    BitStepInjective(c4, d4);
    BitStepInjective(c3, d3);
    BitStepInjective(c2, d2);
    BitStepInjective(c1, d1);
    BitStepInjective(c, d);
  }

  lemma XorInjective(c: bv32, d: bv32, x: bv32)
    ensures Xor(c, x) == Xor(d, x) ==> c == d
    ensures Xor(x, c) == Xor(x, d) ==> c == d
  {
  }

  lemma WideInjective(a: byte, b: byte)
    requires Wide(a) == Wide(b)
    ensures a == b
  {
  }

  /** Feeding a byte separates registers, and feeding distinct bytes separates results. */
  lemma FeedInjective(c: bv32, d: bv32, x: byte, y: byte)
    requires Feed(c, x) == Feed(d, y)
    ensures x == y ==> c == d
    ensures c == d ==> x == y
  {
    hide ByteStep, Xor, Wide;
    ByteStepInjective(Xor(c, Wide(x)), Xor(d, Wide(y)));
    if x == y {
      XorInjective(c, d, Wide(x));
    }
    if c == d {
      XorInjective(Wide(x), Wide(y), c);
      WideInjective(x, y);
    }
  }

  /** Over any common suffix, different registers stay different. */
  lemma {:induction false} UpdateInjective(c: bv32, d: bv32, data: bytes)
    requires Update(c, data) == Update(d, data)
    ensures c == d
    decreases |data|
  {
    hide Feed;
    if data == [] {
    } else {
      UpdateInjective(Feed(c, data[0]), Feed(d, data[0]), data[1..]);
      FeedInjective(c, d, data[0], data[0]);
    }
  }

  lemma {:induction false} UpdateConcat(c: bv32, a: bytes, b: bytes)
    ensures Update(c, a + b) == Update(Update(c, a), b)
    decreases |a|
  {
    hide Feed;
    if a == [] {
      assert a + b == b;
    } else {
      assert (a + b)[1..] == a[1..] + b;
      UpdateConcat(Feed(c, a[0]), a[1..], b);
    }
  }

  // ---------------------------------------------------------------------------------------
  // The register update is linear, so four consecutive bytes act as one 32-bit word.

  lemma XorShift(c: bv32, d: bv32)
    ensures (c ^ d) >> 1 == (c >> 1) ^ (d >> 1)
  {
  }

  lemma XorLowBit(c: bv32, d: bv32)
    ensures (c ^ d) & 1 == (c & 1) ^ (d & 1)
    ensures c & 1 == 0 || c & 1 == 1
    ensures d & 1 == 0 || d & 1 == 1
  {
  }

  lemma XorCancel(x: bv32, y: bv32, z: bv32)
    ensures (x ^ z) ^ y == (x ^ y) ^ z && x ^ (y ^ z) == (x ^ y) ^ z && (x ^ z) ^ (y ^ z) == x ^ y
  {
  }

  lemma BitStepXor(c: bv32, d: bv32)
    ensures BitStep(c ^ d) == BitStep(c) ^ BitStep(d)
  {
    XorShift(c, d);
    XorLowBit(c, d);
    XorCancel(c >> 1, d >> 1, POLY);
  }

  lemma BitStepLinear(c: bv32, d: bv32)
    ensures BitStep(Xor(c, d)) == Xor(BitStep(c), BitStep(d))
  {
    hide BitStep;
    BitStepXor(c, d);
  }

  lemma ByteStepLinear(c: bv32, d: bv32)
    ensures ByteStep(Xor(c, d)) == Xor(ByteStep(c), ByteStep(d))
  {
    hide BitStep, Xor;
    var c1, d1 := BitStep(c), BitStep(d);
    var c2, d2 := BitStep(c1), BitStep(d1);
    var c3, d3 := BitStep(c2), BitStep(d2);
    var c4, d4 := BitStep(c3), BitStep(d3);
    var c5, d5 := BitStep(c4), BitStep(d4);
    var c6, d6 := BitStep(c5), BitStep(d5);
    var c7, d7 := BitStep(c6), BitStep(d6);
    BitStepLinear(c, d);
    BitStepLinear(c1, d1);
    BitStepLinear(c2, d2);
    BitStepLinear(c3, d3);
    BitStepLinear(c4, d4);
    BitStepLinear(c5, d5);
    BitStepLinear(c6, d6);
    BitStepLinear(c7, d7);
  }

  /** A word with a zero low byte. */
  function Up(d: bv32): bv32 {
    d << 8
  }

  function Drop(d: bv32): bv32 {
    d & 0x00FF_FFFF
  }

  /** A register whose low byte is zero is only shifted by a byte step. */
  lemma ByteStepShifts(d: bv32)
    ensures ByteStep(Up(d)) == Drop(d)
  {
    assert BitStep(d << 8) == (d & 0x00FF_FFFF) << 7;
    assert BitStep((d & 0x00FF_FFFF) << 7) == (d & 0x00FF_FFFF) << 6;
    assert BitStep((d & 0x00FF_FFFF) << 6) == (d & 0x00FF_FFFF) << 5;
    assert BitStep((d & 0x00FF_FFFF) << 5) == (d & 0x00FF_FFFF) << 4;
    assert BitStep((d & 0x00FF_FFFF) << 4) == (d & 0x00FF_FFFF) << 3;
    assert BitStep((d & 0x00FF_FFFF) << 3) == (d & 0x00FF_FFFF) << 2;
    assert BitStep((d & 0x00FF_FFFF) << 2) == (d & 0x00FF_FFFF) << 1;
    assert BitStep((d & 0x00FF_FFFF) << 1) == d & 0x00FF_FFFF;
  }

  /** The 32-bit word with the little-endian bytes `b`. */
  function Word(b: bytes): bv32
    requires |b| == 4
  {
    Xor(Wide(b[0]), Up(Xor(Wide(b[1]), Up(Xor(Wide(b[2]), Up(Wide(b[3])))))))
  }

  /** The little-endian bytes of a 32-bit word. */
  function WordBytes(w: bv32): (b: bytes)
    ensures |b| == 4
  {
    [(w & 0xFF) as byte, ((w >> 8) & 0xFF) as byte, ((w >> 16) & 0xFF) as byte, ((w >> 24) & 0xFF) as byte]
  }

  lemma WordOfWordBytes(w: bv32)
    ensures Word(WordBytes(w)) == w
  {
  }

  lemma WordBytesOfWord(b: bytes)
    requires |b| == 4
    ensures WordBytes(Word(b)) == b
  {
  }

  function FourSteps(c: bv32): bv32 {
    ByteStep(ByteStep(ByteStep(ByteStep(c))))
  }

  lemma XorAssociative(c: bv32, d: bv32, e: bv32)
    ensures Xor(c, Xor(d, e)) == Xor(Xor(c, d), e)
  {
  }

  /** Stepping past one byte leaves the bytes above it in place. */
  lemma Absorb(c: bv32, x: byte, d: bv32)
    ensures ByteStep(Xor(c, Xor(Wide(x), Up(d)))) == Xor(Feed(c, x), Drop(d))
  {
    hide ByteStep, Xor, Wide, Up, Drop;
    XorAssociative(c, Wide(x), Up(d));
    ByteStepLinear(Xor(c, Wide(x)), Up(d));
    ByteStepShifts(d);
  }

  lemma DropOne(x: byte)
    ensures Drop(Wide(x)) == Wide(x)
  {
  }

  lemma DropTwo(x: byte, y: byte)
    ensures Drop(Xor(Wide(x), Up(Wide(y)))) == Xor(Wide(x), Up(Wide(y)))
  {
  }

  lemma DropThree(x: byte, y: byte, z: byte)
    ensures Drop(Xor(Wide(x), Up(Xor(Wide(y), Up(Wide(z)))))) == Xor(Wide(x), Up(Xor(Wide(y), Up(Wide(z)))))
  {
  }

  /** Feeding four bytes is the same as adding their word to the register and stepping 32 times. */
  lemma UpdateWord(c: bv32, b: bytes)
    requires |b| == 4
    ensures Update(c, b) == FourSteps(Xor(c, Word(b)))
  {
    hide ByteStep, Xor, Wide, Up, Drop;
    var c1 := Feed(c, b[0]);
    var c2 := Feed(c1, b[1]);
    var c3 := Feed(c2, b[2]);
    assert Update(c, b) == Feed(c3, b[3]) by {
      hide Feed;
      assert b[0..] == b && b[4..] == [];
      UpdateAt(b, 0, c);
      UpdateAt(b, 1, c1);
      UpdateAt(b, 2, c2);
      UpdateAt(b, 3, c3);
    }
    DropThree(b[1], b[2], b[3]);
    DropTwo(b[2], b[3]);
    DropOne(b[3]);
    Absorb(c, b[0], Xor(Wide(b[1]), Up(Xor(Wide(b[2]), Up(Wide(b[3]))))));
    Absorb(c1, b[1], Xor(Wide(b[2]), Up(Wide(b[3]))));
    Absorb(c2, b[2], Wide(b[3]));
  }

  /** Different four-byte words, fed to the same register, leave different registers. */
  lemma UpdateFourInjective(c: bv32, a: bytes, b: bytes)
    requires |a| == |b| == 4
    requires Update(c, a) == Update(c, b)
    ensures a == b
  {
    hide ByteStep, Xor, Word, WordBytes, Update;
    UpdateWord(c, a);
    UpdateWord(c, b);
    var x, y := Xor(c, Word(a)), Xor(c, Word(b));
    ByteStepInjective(ByteStep(ByteStep(ByteStep(x))), ByteStep(ByteStep(ByteStep(y))));
    ByteStepInjective(ByteStep(ByteStep(x)), ByteStep(ByteStep(y)));
    ByteStepInjective(ByteStep(x), ByteStep(y));
    ByteStepInjective(x, y);
    XorInjective(Word(a), Word(b), c);
    WordBytesOfWord(a);
    WordBytesOfWord(b);
  }

  /** Changing data inside any window of four bytes changes the checksum. */
  lemma BurstChangesChecksum(pre: bytes, a: bytes, b: bytes, post: bytes)
    requires |a| == |b| == 4 && a != b
    ensures Checksum(pre + a + post) != Checksum(pre + b + post)
  {
    hide Update;
    UpdateConcat(0, pre + a, post);
    UpdateConcat(0, pre, a);
    UpdateConcat(0, pre + b, post);
    UpdateConcat(0, pre, b);
    if Checksum(pre + a + post) == Checksum(pre + b + post) {
      UpdateInjective(Update(0, pre + a), Update(0, pre + b), post);
      UpdateFourInjective(Update(0, pre), a, b);
    }
  }

  /** Changing any one byte of the data changes the checksum. */
  lemma ByteChangesChecksum(pre: bytes, a: byte, b: byte, post: bytes)
    requires a != b
    ensures Checksum(pre + [a] + post) != Checksum(pre + [b] + post)
  {
    hide Feed;
    UpdateConcat(0, pre + [a], post);
    UpdateConcat(0, pre, [a]);
    UpdateConcat(0, pre + [b], post);
    UpdateConcat(0, pre, [b]);
    if Checksum(pre + [a] + post) == Checksum(pre + [b] + post) {
      UpdateInjective(Update(0, pre + [a]), Update(0, pre + [b]), post);
      var c := Update(0, pre);
      assert Update(c, [a]) == Feed(c, a) && Update(c, [b]) == Feed(c, b);
      FeedInjective(c, c, a, b);
    }
  }
}
