/** 64-bit words as groups of bits and as little-endian groups of bytes (a3/fs/bitmap.c). */
module BitWords {
  import opened Sectors

  function Shift(i: bv6): bv64 {
    (1 as bv64) << i
  }

  /** The word in which only bit i is set. */
  function Mask(i: nat): bv64
    requires i < 64
  {
    Shift(i as bv6)
  }

  // The C operators, named so that a proof can treat them as black boxes.

  function And(a: bv64, b: bv64): bv64 { a & b }

  function Or(a: bv64, b: bv64): bv64 { a | b }

  function Xor(a: bv64, b: bv64): bv64 { a ^ b }

  function Not(a: bv64): bv64 { !a }

  predicate Bit(w: bv64, i: nat)
    requires i < 64
  {
    And(w, Mask(i)) != 0
  }

  lemma ShiftsApart(i: bv6, j: bv6)
    ensures And(Shift(i), Shift(j)) == if i == j then Shift(i) else 0
    ensures Shift(i) != 0
  {
  }

  lemma IndexBack(i: nat)
    requires i < 64
    ensures (i as bv6) as int == i
  {
  }

  lemma MasksApart(i: nat, j: nat)
    requires i < 64 && j < 64
    ensures And(Mask(i), Mask(j)) == if i == j then Mask(i) else 0
    ensures Mask(i) != 0
  {
    hide And, Shift;
    IndexBack(i);
    IndexBack(j);
    ShiftsApart(i as bv6, j as bv6);
  }

  lemma OrApart(w: bv64, m: bv64, n: bv64)
    requires And(m, n) == 0
    ensures And(Or(w, m), n) == And(w, n)
  {
  }

  lemma OrSelf(w: bv64, m: bv64)
    ensures And(Or(w, m), m) == m
  {
  }

  lemma XorApart(w: bv64, m: bv64, n: bv64)
    requires And(m, n) == 0
    ensures And(Xor(w, m), n) == And(w, n)
  {
  }

  lemma XorSets(w: bv64, m: bv64)
    requires And(w, m) == 0
    ensures And(Xor(w, m), m) == m
  {
  }

  lemma XorClears(w: bv64, m: bv64)
    requires And(w, m) == m
    ensures And(Xor(w, m), m) == 0
  {
  }

  lemma ClearApart(w: bv64, m: bv64, n: bv64)
    requires And(m, n) == 0
    ensures And(And(w, Not(m)), n) == And(w, n)
  {
  }

  lemma ClearSelf(w: bv64, m: bv64)
    ensures And(And(w, Not(m)), m) == 0
  {
  }

  lemma OneBitShift(w: bv64, i: bv6)
    ensures And(w, Shift(i)) == 0 || And(w, Shift(i)) == Shift(i)
  {
  }

  lemma OneBit(w: bv64, i: nat)
    requires i < 64
    ensures And(w, Mask(i)) == 0 || And(w, Mask(i)) == Mask(i)
  {
    hide And, Shift;
    OneBitShift(w, i as bv6);
  }

  lemma OrBit(w: bv64, i: nat, j: nat)
    requires i < 64 && j < 64
    ensures Bit(Or(w, Mask(i)), j) <==> i == j || Bit(w, j)
  {
    hide And, Or, Mask;
    MasksApart(i, j);
    if i != j {
      OrApart(w, Mask(i), Mask(j));
    } else {
      OrSelf(w, Mask(i));
    }
  }

  lemma ClearBit(w: bv64, i: nat, j: nat)
    requires i < 64 && j < 64
    ensures Bit(And(w, Not(Mask(i))), j) <==> i != j && Bit(w, j)
  {
    hide And, Not, Mask;
    MasksApart(i, j);
    if i != j {
      ClearApart(w, Mask(i), Mask(j));
    } else {
      ClearSelf(w, Mask(i));
    }
  }

  lemma XorBit(w: bv64, i: nat, j: nat)
    requires i < 64 && j < 64
    ensures Bit(Xor(w, Mask(i)), j) <==> if i == j then !Bit(w, j) else Bit(w, j)
  {
    hide And, Xor, Mask;
    MasksApart(i, j);
    if i != j {
      XorApart(w, Mask(i), Mask(j));
    } else {
      OneBit(w, i);
      if And(w, Mask(i)) == 0 {
        XorSets(w, Mask(i));
      } else {
        XorClears(w, Mask(i));
      }
    }
  }

  lemma AndZero(m: bv64)
    ensures And(0, m) == 0
  {
  }

  lemma AndOnes(w: bv64)
    ensures And(w, 0xFFFF_FFFF_FFFF_FFFF) == w
  {
  }

  /** The low `bits` bits set: last_mask's non-trivial case. */
  function LowMask(bits: nat): bv64
    requires 0 < bits < 64
  {
    LowShift(bits as bv6)
  }

  function LowShift(b: bv6): bv64 {
    ((1 as bv64) << b) - 1
  }

  lemma LowShiftAnd(b: bv6, j: bv6)
    ensures And(LowShift(b), Shift(j)) == if j < b then Shift(j) else 0
  {
  }

  lemma IndexLess(i: nat, j: nat)
    requires i < 64 && j < 64
    ensures (i as bv6) < (j as bv6) <==> i < j
  {
    IndexBack(i);
    IndexBack(j);
  }

  lemma AndAnd(w: bv64, m: bv64, n: bv64)
    ensures And(And(w, m), n) == And(w, And(m, n))
    ensures And(w, 0) == 0
  {
  }

  lemma LowMaskMask(bits: nat, j: nat)
    requires 0 < bits < 64 && j < 64
    ensures And(LowMask(bits), Mask(j)) == if j < bits then Mask(j) else 0
  {
    hide And, Shift, LowShift;
    IndexLess(j, bits);
    LowShiftAnd(bits as bv6, j as bv6);
  }

  lemma LowMaskBit(w: bv64, bits: nat, j: nat)
    requires 0 < bits < 64 && j < 64
    ensures Bit(And(w, LowMask(bits)), j) <==> j < bits && Bit(w, j)
  {
    hide And, Mask, LowMask;
    AndAnd(w, LowMask(bits), Mask(j));
    LowMaskMask(bits, j);
  }

  /** The byte of w that starts at bit k. */
  function ByteAt(w: bv64, k: bv6): Byte {
    ((w >> k) & 0xff) as int
  }

  /** The memory image of one word. */
  function WordBytes(w: bv64): (b: seq<Byte>)
    ensures |b| == 8
  {
    [ByteAt(w, 0), ByteAt(w, 8), ByteAt(w, 16), ByteAt(w, 24), ByteAt(w, 32), ByteAt(w, 40), ByteAt(w, 48),
      ByteAt(w, 56)]
  }

  /** The word whose memory image is b. */
  function BytesWord(b: seq<Byte>): bv64
    requires |b| == 8
  {
    (b[0] as bv64) | ((b[1] as bv64) << 8) | ((b[2] as bv64) << 16) | ((b[3] as bv64) << 24)
    | ((b[4] as bv64) << 32) | ((b[5] as bv64) << 40) | ((b[6] as bv64) << 48) | ((b[7] as bv64) << 56)
  }

  lemma LowByte(w: bv64, k: bv6)
    ensures (w >> k) & 0xff < 256
  {
  }

  lemma ByteBack(b: bv64)
    requires b < 256
    ensures (b as int) as bv64 == b
  {
  }

  lemma ByteAtBack(w: bv64, k: bv6)
    ensures ByteAt(w, k) as bv64 == (w >> k) & 0xff
  {
    LowByte(w, k);
    ByteBack((w >> k) & 0xff);
  }

  lemma JoinBytes(w: bv64)
    ensures (w & 0xff) | (((w >> 8) & 0xff) << 8) | (((w >> 16) & 0xff) << 16) | (((w >> 24) & 0xff) << 24)
            | (((w >> 32) & 0xff) << 32) | (((w >> 40) & 0xff) << 40) | (((w >> 48) & 0xff) << 48)
            | (((w >> 56) & 0xff) << 56) == w
  {
  }

  lemma WordRoundTrip(w: bv64)
    ensures BytesWord(WordBytes(w)) == w
  {
    ByteAtBack(w, 0); ByteAtBack(w, 8); ByteAtBack(w, 16); ByteAtBack(w, 24);
    ByteAtBack(w, 32); ByteAtBack(w, 40); ByteAtBack(w, 48); ByteAtBack(w, 56);
    assert w >> 0 == w;
    JoinBytes(w);
  }

  /** The memory image of an array of words. */
  function ImageOf(words: seq<bv64>): (b: seq<Byte>)
    ensures |b| == 8 * |words|
    ensures forall k :: 0 <= k < |words| ==> b[8 * k..8 * k + 8] == WordBytes(words[k])
  {
    if words == [] then [] else
      var rest := ImageOf(words[..|words| - 1]);
      var b := rest + WordBytes(words[|words| - 1]);
      assert forall k :: 0 <= k < |words| - 1 ==> b[8 * k..8 * k + 8] == rest[8 * k..8 * k + 8];
      b
  }

  // ----- where each bit and each byte of a word lies

  lemma ByteSmall(b: Byte)
    ensures b as bv64 < 256
  {
  }

  lemma JoinedBytes(b0: bv64, b1: bv64, b2: bv64, b3: bv64, b4: bv64, b5: bv64, b6: bv64, b7: bv64)
    requires b0 < 256 && b1 < 256 && b2 < 256 && b3 < 256 && b4 < 256 && b5 < 256 && b6 < 256 && b7 < 256
    ensures var w := b0 | (b1 << 8) | (b2 << 16) | (b3 << 24) | (b4 << 32) | (b5 << 40) | (b6 << 48) | (b7 << 56);
            && w & 0xff == b0 && (w >> 8) & 0xff == b1 && (w >> 16) & 0xff == b2 && (w >> 24) & 0xff == b3
            && (w >> 32) & 0xff == b4 && (w >> 40) & 0xff == b5 && (w >> 48) & 0xff == b6 && (w >> 56) & 0xff == b7
  {
  }

  /** The memory image is little-endian: byte k is bits 8k to 8k + 7 of the word. */
  lemma WordLayout(b: seq<Byte>)
    requires |b| == 8
    ensures var w := BytesWord(b);
            && w & 0xff == b[0] as bv64 && (w >> 8) & 0xff == b[1] as bv64
            && (w >> 16) & 0xff == b[2] as bv64 && (w >> 24) & 0xff == b[3] as bv64
            && (w >> 32) & 0xff == b[4] as bv64 && (w >> 40) & 0xff == b[5] as bv64
            && (w >> 48) & 0xff == b[6] as bv64 && (w >> 56) & 0xff == b[7] as bv64
  {
    ByteSmall(b[0]); ByteSmall(b[1]); ByteSmall(b[2]); ByteSmall(b[3]);
    ByteSmall(b[4]); ByteSmall(b[5]); ByteSmall(b[6]); ByteSmall(b[7]);
    JoinedBytes(b[0] as bv64, b[1] as bv64, b[2] as bv64, b[3] as bv64, b[4] as bv64, b[5] as bv64, b[6] as bv64,
                b[7] as bv64);
  }

  /** The lowest bit of w shifted right by k. */
  predicate Shifted(w: bv64, k: bv6) {
    (w >> k) & 1 == 1
  }

  lemma ShiftedBit(w: bv64, k: bv6)
    ensures And(w, Shift(k)) != 0 <==> Shifted(w, k)
  {
  }

  /** Bit i of a word counts from the low end. */
  lemma BitPlace(w: bv64, i: nat)
    requires i < 64
    ensures Bit(w, i) <==> Shifted(w, i as bv6)
  {
    hide And, Shift, Shifted;
    ShiftedBit(w, i as bv6);
  }
}
