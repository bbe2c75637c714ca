/** The packed bitmap (a3/fs/bitmap.c): an array of 64-bit words that stands for a sequence of booleans. */
module Bitmaps {
  import opened Sectors
  import opened BitWords

  /** UINT32_MAX, returned when there is no such group of bits. */
  const BITMAP_ERROR: nat := 0xFFFF_FFFF

  /** elem_cnt */
  function ElemCnt(bitCnt: nat): nat {
    (bitCnt + 63) / 64
  }

  /** last_mask: the bits of the last word that the bitmap really uses. */
  function LastMask(bitCnt: nat): bv64 {
    if bitCnt % 64 != 0 then LowMask(bitCnt % 64) else 0xFFFF_FFFF_FFFF_FFFF
  }

  lemma LastMaskBit(w: bv64, bitCnt: nat, j: nat)
    requires 0 < bitCnt && j < 64
    ensures Bit(And(w, LastMask(bitCnt)), j) <==> 64 * (ElemCnt(bitCnt) - 1) + j < bitCnt && Bit(w, j)
  {
    hide And, Bit, LowMask;
    if bitCnt % 64 != 0 {
      LowMaskBit(w, bitCnt % 64, j);
    } else {
      AndOnes(w);
    }
  }

  /** cnt bits from start on all equal value. */
  predicate Group(model: seq<bool>, start: nat, cnt: nat, value: bool) {
    && start + cnt <= |model|
    && forall k :: start <= k < start + cnt ==> model[k] == value
  }

  /** The model with cnt bits from start on set to value. */
  function SetRange(model: seq<bool>, start: nat, cnt: nat, value: bool): (r: seq<bool>)
    requires start + cnt <= |model|
    ensures |r| == |model|
    ensures forall k :: 0 <= k < |r| ==> r[k] == if start <= k < start + cnt then value else model[k]
  {
    seq(|model|, k requires 0 <= k < |model| => if start <= k < start + cnt then value else model[k])
  }

  /** How many of the bits equal value. */
  function Count(model: seq<bool>, value: bool): (n: nat)
    ensures n <= |model|
  {
    if model == [] then 0
    else Count(model[..|model| - 1], value) + if model[|model| - 1] == value then 1 else 0
  }

  lemma CountNone(value: bool)
    ensures Count([], value) == 0
  {
  }

  lemma CountStep(s: seq<bool>, a: nat, b: nat, value: bool)
    requires a <= b < |s|
    ensures Count(s[a..b + 1], value) == Count(s[a..b], value) + if s[b] == value then 1 else 0
  {
    assert s[a..b + 1][..b - a] == s[a..b];
  }

  /** Bit i of a word array. */
  predicate WordsBit(words: seq<bv64>, i: nat)
    requires i / 64 < |words|
  {
    Bit(words[i / 64], i % 64)
  }

  /** The word array stands for the model, and the bits past the end of the model are zero. */
  ghost predicate Stands(words: seq<bv64>, model: seq<bool>) {
    && |words| == ElemCnt(|model|)
    && (forall i :: 0 <= i < |model| ==> model[i] == WordsBit(words, i))
    && (forall i :: |model| <= i < 64 * |words| ==> !WordsBit(words, i))
  }

  /** Bit i of the memory image of a word array. */
  predicate ImageBit(image: seq<Byte>, i: nat)
    requires 8 * (i / 64) + 8 <= |image|
  {
    Bit(BytesWord(image[8 * (i / 64)..8 * (i / 64) + 8]), i % 64)
  }

  /** The n booleans that a memory image stands for. */
  function ImageModel(image: seq<Byte>, n: nat): (model: seq<bool>)
    requires |image| == 8 * ElemCnt(n)
    ensures |model| == n
  {
    seq(n, i requires 0 <= i < n => ImageBit(image, i))
  }

  /** bitmap_write followed by decoding is the identity, whatever the number of bits. */
  lemma ImageRoundTrip(words: seq<bv64>, model: seq<bool>)
    requires Stands(words, model)
    ensures ImageModel(ImageOf(words), |model|) == model
  {
    hide Bit, BytesWord, WordBytes, ImageOf;
    var image := ImageOf(words);
    forall i | 0 <= i < |model|
      ensures ImageBit(image, i) == model[i]
    {
      var k := i / 64;
      assert image[8 * k..8 * k + 8] == WordBytes(words[k]);
      WordRoundTrip(words[k]);
      assert model[i] == WordsBit(words, i);
    }
  }

  /** Bit i of the bitmap is bit i mod 64 of the word that bytes 8 * (i / 64) to 8 * (i / 64) + 7 make up. */
  lemma ImageBits(image: seq<Byte>, n: nat, i: nat)
    requires |image| == 8 * ElemCnt(n) && i < n
    ensures ImageModel(image, n)[i] <==>
            Shifted(BytesWord(image[8 * (i / 64)..8 * (i / 64) + 8]), (i % 64) as bv6)
  {
    hide Bit, BytesWord, Shifted;
    BitPlace(BytesWord(image[8 * (i / 64)..8 * (i / 64) + 8]), i % 64);
  }

  class Bitmap {
    const bitCnt: nat
    const bits: array<bv64>
    ghost var model: seq<bool>

    ghost predicate Valid()
      reads this, bits
    {
      && |model| == bitCnt < BITMAP_ERROR
      && Stands(bits[..], model)
    }

    /** bitmap_create: memset clears every word. */
    constructor (cnt: nat)
      requires cnt < BITMAP_ERROR
      ensures Valid() && fresh(bits)
      ensures bitCnt == cnt
      ensures model == seq(cnt, i => false)
    {
      bitCnt := cnt;
      bits := new bv64[ElemCnt(cnt)](i => 0);
      model := seq(cnt, i => false);
      new;
      forall i | 0 <= i < 64 * |bits[..]|
        ensures !WordsBit(bits[..], i)
      {
        assert bits[..][i / 64] == 0;
        AndZero(Mask(i % 64));
      }
    }

    /** bitmap_mark */
    method Mark(idx: nat)
      requires Valid() && idx < bitCnt
      modifies this`model, bits
      ensures Valid()
      ensures model == old(model)[idx := true]
    {
      bits[idx / 64] := Or(bits[idx / 64], Mask(idx % 64));
      model := model[idx := true];
      forall i | 0 <= i < 64 * bits.Length
        ensures WordsBit(bits[..], i) == (i == idx || WordsBit(old(bits[..]), i))
      {
        OrBit(old(bits[..])[i / 64], idx % 64, i % 64);
      }
    }

    /** bitmap_reset */
    method Reset(idx: nat)
      requires Valid() && idx < bitCnt
      modifies this`model, bits
      ensures Valid()
      ensures model == old(model)[idx := false]
    {
      bits[idx / 64] := And(bits[idx / 64], Not(Mask(idx % 64)));
      model := model[idx := false];
      forall i | 0 <= i < 64 * bits.Length
        ensures WordsBit(bits[..], i) == (i != idx && WordsBit(old(bits[..]), i))
      {
        ClearBit(old(bits[..])[i / 64], idx % 64, i % 64);
      }
    }

    /** bitmap_flip */
    method Flip(idx: nat)
      requires Valid() && idx < bitCnt
      modifies this`model, bits
      ensures Valid()
      ensures model == old(model)[idx := !old(model)[idx]]
    {
      bits[idx / 64] := Xor(bits[idx / 64], Mask(idx % 64));
      model := model[idx := !model[idx]];
      forall i | 0 <= i < 64 * bits.Length
        ensures WordsBit(bits[..], i) == if i == idx then !WordsBit(old(bits[..]), i) else WordsBit(old(bits[..]), i)
      {
        XorBit(old(bits[..])[i / 64], idx % 64, i % 64);
      }
    }

    /** bitmap_test */
    method Test(idx: nat) returns (b: bool)
      requires Valid() && idx < bitCnt
      ensures b == model[idx]
    {
      b := And(bits[idx / 64], Mask(idx % 64)) != 0;
      assert b == WordsBit(bits[..], idx);
    }

    /** bitmap_set */
    method Set(idx: nat, value: bool)
      requires Valid() && idx < bitCnt
      modifies this`model, bits
      ensures Valid()
      ensures model == old(model)[idx := value]
    {
      if value {
        Mark(idx);
      } else {
        Reset(idx);
      }
    }

    /** bitmap_set_multiple */
    method SetMultiple(start: nat, cnt: nat, value: bool)
      requires Valid() && start + cnt <= bitCnt
      modifies this`model, bits
      ensures Valid()
      ensures model == SetRange(old(model), start, cnt, value)
    {
      for i := 0 to cnt
        invariant Valid()
        invariant model == SetRange(old(model), start, i, value)
      {
        Set(start + i, value);
      }
    }

    /** bitmap_count */
    method CountBits(start: nat, cnt: nat, value: bool) returns (n: nat)
      requires Valid() && start + cnt <= bitCnt
      ensures n == Count(model[start..start + cnt], value)
    {
      hide Stands, Count;
      CountNone(value);
      n := 0;
      assert model[start..start + 0] == [];
      for i := 0 to cnt
        invariant n == Count(model[start..start + i], value)
      {
        var b := Test(start + i);
        if b == value {
          n := n + 1;
        }
        CountStep(model, start, start + i, value);
      }
    }

    /** bitmap_contains */
    method Contains(start: nat, cnt: nat, value: bool) returns (found: bool)
      requires Valid() && start + cnt <= bitCnt
      ensures !found <==> Group(model, start, cnt, !value)
    {
      for i := 0 to cnt
        invariant Group(model, start, i, !value)
      {
        var b := Test(start + i);
        if b == value {
          return true;
        }
      }
      return false;
    }

    /** bitmap_all */
    method All(start: nat, cnt: nat) returns (all: bool)
      requires Valid() && start + cnt <= bitCnt
      ensures all <==> Group(model, start, cnt, true)
    {
      var found := Contains(start, cnt, false);
      all := !found;
    }

    /** bitmap_scan: the least start of such a group, or the error value exactly when there is none. */
    method Scan(start: nat, cnt: nat, value: bool) returns (idx: nat)
      requires Valid() && start <= bitCnt
      ensures idx != BITMAP_ERROR ==> start <= idx && Group(model, idx, cnt, value)
      ensures forall i :: start <= i && (idx == BITMAP_ERROR || i < idx) ==> !Group(model, i, cnt, value)
      ensures cnt == 0 ==> idx == start
    {
      if cnt <= bitCnt {
        var last := bitCnt - cnt;
        var i := start;
        while i <= last
          invariant start <= i && (cnt == 0 ==> i == start)
          invariant forall j :: start <= j < i ==> !Group(model, j, cnt, value)
        {
          var found := Contains(i, cnt, !value);
          if !found {
            return i;
          }
          i := i + 1;
        }
      }
      return BITMAP_ERROR;
    }

    /** bitmap_scan_and_flip */
    method ScanAndFlip(start: nat, cnt: nat, value: bool) returns (idx: nat)
      requires Valid() && start <= bitCnt
      modifies this`model, bits
      ensures Valid()
      ensures forall i :: start <= i && (idx == BITMAP_ERROR || i < idx) ==> !Group(old(model), i, cnt, value)
      ensures idx == BITMAP_ERROR ==> model == old(model) && bits[..] == old(bits[..])
      ensures idx != BITMAP_ERROR ==> start <= idx && Group(old(model), idx, cnt, value)
      ensures idx != BITMAP_ERROR ==> model == SetRange(old(model), idx, cnt, !value)
      ensures cnt == 0 ==> idx == start && model == old(model)
    {
      idx := Scan(start, cnt, value);
      if idx != BITMAP_ERROR {
        SetMultiple(idx, cnt, !value);
      }
    }

    /** The in-memory half of bitmap_read: take over a memory image, then clear the padding with last_mask. */
    method Load(image: seq<Byte>)
      requires Valid() && |image| == 8 * ElemCnt(bitCnt)
      modifies this`model, bits
      ensures Valid()
      ensures model == ImageModel(image, bitCnt)
    {
      hide Bit, BytesWord, LastMask, And;
      model := ImageModel(image, bitCnt);
      if bitCnt > 0 {
        forall k | 0 <= k < bits.Length {
          bits[k] := BytesWord(image[8 * k..8 * k + 8]);
        }
        var last := ElemCnt(bitCnt) - 1;
        ghost var w := bits[last];
        bits[last] := And(bits[last], LastMask(bitCnt));
        forall i | 0 <= i < 64 * bits.Length
          ensures WordsBit(bits[..], i) == (i < bitCnt && ImageBit(image, i))
        {
          if i / 64 == last {
            LastMaskBit(w, bitCnt, i % 64);
          }
        }
      }
    }
  }
}
