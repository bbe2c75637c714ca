/** The units every storage layer exchanges: bytes, 512-byte sectors and sector numbers. */
module Sectors {

  const SECTOR_SIZE: nat := 512

  /** uint8_t */
  type Byte = x: int | 0 <= x < 256 witness 0

  /** block_sector_t, an unsigned 32-bit number. */
  type SectorNo = x: int | 0 <= x < 0x1_0000_0000 witness 0

  /** The contents of one sector of the device. */
  type Sector = s: seq<Byte> | |s| == SECTOR_SIZE witness seq(SECTOR_SIZE, i => 0)

  /** A sector of zeros. */
  function Zeros(): (s: Sector)
    ensures forall k :: 0 <= k < SECTOR_SIZE ==> s[k] == 0
  {
    seq(SECTOR_SIZE, k => 0)
  }

  /** Sector 0 of a device image. */
  function First(v: seq<Sector>): Sector {
    if v == [] then Zeros() else v[0]
  }

  lemma FirstKept(v: seq<Sector>, p: nat, s: Sector)
    requires 0 < p < |v|
    ensures First(v[p := s]) == First(v)
  {
  }

  /** Two device images agree on every sector outside s. */
  ghost predicate AgreeOff(v: seq<Sector>, w: seq<Sector>, s: set<int>) {
    && |v| == |w|
    && forall x :: 0 <= x < |v| && x !in s ==> w[x] == v[x]
  }

  lemma FirstOff(v: seq<Sector>, w: seq<Sector>, s: set<int>)
    requires AgreeOff(v, w, s) && 0 !in s
    ensures First(w) == First(v)
  {
  }
}
