/** How index blocks and inodes are laid out in a sector (a3/fs/inode.h, a3/fs/inode.c:12-14). */
module DiskFormat {
  import opened Sectors

  const DIRECT_BLOCKS: nat := 123
  const PTRS: nat := 128
  const INODE_MAGIC: SectorNo := 0x494e_4f44
  /** The most data sectors one inode can reach. */
  const MAX_SECTORS: nat := 123 + 128 + 128 * 128
  const MAX_LENGTH: nat := 8517120

  /** The 128 little-endian 32-bit words of a sector. */
  type IndexBlock = s: seq<SectorNo> | |s| == PTRS witness seq(PTRS, i => 0)

  function U32Bytes(n: SectorNo): (b: seq<Byte>)
    ensures |b| == 4
  {
    [n % 0x100, n / 0x100 % 0x100, n / 0x100 / 0x100 % 0x100, n / 0x100 / 0x100 / 0x100]
  }

  function BytesU32(b0: Byte, b1: Byte, b2: Byte, b3: Byte): SectorNo {
    b0 + 0x100 * b1 + 0x1_0000 * b2 + 0x100_0000 * b3
  }

  lemma U32RoundTrip(n: SectorNo)
    ensures var b := U32Bytes(n); BytesU32(b[0], b[1], b[2], b[3]) == n
  {
    var a := n / 0x100;
    var b := a / 0x100;
    assert n == 0x100 * a + n % 0x100 && a == 0x100 * b + a % 0x100 && b == 0x100 * (b / 0x100) + b % 0x100;
  }

  function EncodeIndex(b: IndexBlock): Sector {
    seq(SECTOR_SIZE, k requires 0 <= k < SECTOR_SIZE => U32Bytes(b[k / 4])[k % 4])
  }

  function DecodeIndex(s: Sector): IndexBlock {
    seq(PTRS, i requires 0 <= i < PTRS => BytesU32(s[4 * i], s[4 * i + 1], s[4 * i + 2], s[4 * i + 3]))
  }

  lemma IndexRoundTrip(b: IndexBlock)
    ensures DecodeIndex(EncodeIndex(b)) == b
  {
    hide U32Bytes, BytesU32;
    var s := EncodeIndex(b);
    forall i | 0 <= i < PTRS
      ensures DecodeIndex(s)[i] == b[i]
    {
      U32RoundTrip(b[i]);
      assert s[4 * i] == U32Bytes(b[i])[0];
      assert s[4 * i + 1] == U32Bytes(b[i])[1];
      assert s[4 * i + 2] == U32Bytes(b[i])[2];
      assert s[4 * i + 3] == U32Bytes(b[i])[3];
    }
  }

  lemma EncodeDecode(s: Sector)
    ensures EncodeIndex(DecodeIndex(s)) == s
  {
    hide U32Bytes, BytesU32;
    var b := DecodeIndex(s);
    forall k | 0 <= k < SECTOR_SIZE
      ensures EncodeIndex(b)[k] == s[k]
    {
      var i := k / 4;
      BytesRoundTrip(s[4 * i], s[4 * i + 1], s[4 * i + 2], s[4 * i + 3]);
      assert s[4 * i..4 * i + 4][k % 4] == s[k];
    }
  }

  lemma BytesRoundTrip(b0: Byte, b1: Byte, b2: Byte, b3: Byte)
    ensures U32Bytes(BytesU32(b0, b1, b2, b3)) == [b0, b1, b2, b3]
  {
    var n := BytesU32(b0, b1, b2, b3);
    assert n == 0x100 * (b1 + 0x100 * (b2 + 0x100 * b3)) + b0;
    assert n / 0x100 == 0x100 * (b2 + 0x100 * b3) + b1;
    assert n / 0x100 / 0x100 == 0x100 * b3 + b2;
  }

  /** struct inode_disk */
  datatype InodeDisk = InodeDisk(
    direct: seq<SectorNo>,
    indirect: SectorNo,
    doubly: SectorNo,
    isDir: bool,
    length: int,
    magic: SectorNo)
  {
    /** The struct is one sector in size and its length is a valid offset. */
    predicate Fits() {
      |direct| == DIRECT_BLOCKS && 0 <= length <= MAX_LENGTH
    }
  }

  /** bytes_to_sectors */
  function SectorsFor(length: int): nat {
    if length <= 0 then 0 else (length + 511) / 512
  }

  lemma SectorsForBounds(length: nat)
    ensures length <= 512 * SectorsFor(length) < length + 512
    ensures length <= MAX_LENGTH <==> SectorsFor(length) <= MAX_SECTORS
  {
  }

  /** A C struct copied to a sector: 125 pointers, the bool with its zero padding, the length, the magic. */
  function EncodeInode(d: InodeDisk): Sector
    requires d.Fits()
  {
    EncodeIndex(d.direct + [d.indirect, d.doubly, if d.isDir then 1 else 0, d.length, d.magic])
  }

  /** The same copy the other way; a length word with the top bit set is a negative offset. */
  function DecodeInode(s: Sector): (d: InodeDisk)
    ensures |d.direct| == DIRECT_BLOCKS
  {
    var w := DecodeIndex(s);
    var length: int := if w[126] < 0x8000_0000 then w[126] else (w[126] as int) - 0x1_0000_0000;
    InodeDisk(w[..123], w[123], w[124], w[125] % 0x100 != 0, length, w[127])
  }

  lemma InodeRoundTrip(d: InodeDisk)
    requires d.Fits()
    ensures DecodeInode(EncodeInode(d)) == d
  {
    hide EncodeIndex, DecodeIndex;
    var w: IndexBlock := d.direct + [d.indirect, d.doubly, if d.isDir then 1 else 0, d.length, d.magic];
    IndexRoundTrip(w);
    assert w[..123] == d.direct;
  }

  // ----- where each field lies

  /** The little-endian number in the four bytes from `at` on. */
  function NumberAt(s: seq<Byte>, at: nat): int
    requires at + 4 <= |s|
  {
    s[at] as int + 256 * (s[at + 1] as int) + 65536 * (s[at + 2] as int) + 16777216 * (s[at + 3] as int)
  }

  lemma U32Layout(n: SectorNo)
    ensures NumberAt(U32Bytes(n), 0) == n
  {
    U32RoundTrip(n);
  }

  /** Pointer i of an index block is bytes 4i to 4i + 3. */
  lemma IndexLayout(s: Sector, b: IndexBlock, i: nat)
    requires i < PTRS
    ensures NumberAt(EncodeIndex(b), 4 * i) == b[i] && DecodeIndex(s)[i] == NumberAt(s, 4 * i)
  {
    hide U32Bytes;
    U32Layout(b[i]);
    var t := EncodeIndex(b);
    assert t[4 * i] == U32Bytes(b[i])[0] && t[4 * i + 1] == U32Bytes(b[i])[1];
    assert t[4 * i + 2] == U32Bytes(b[i])[2] && t[4 * i + 3] == U32Bytes(b[i])[3];
  }

  /** The bytes of an inode past its pointers: the kind of file with its padding, the length, and the magic number,
      which reads 44 4f 4e 49. */
  predicate InodeBytes(s: Sector, isDir: bool, length: nat) {
    && s[500] == (if isDir then 1 else 0) && s[501] == s[502] == s[503] == 0
    && NumberAt(s, 504) == length
    && s[508] == 0x44 && s[509] == 0x4f && s[510] == 0x4e && s[511] == 0x49
  }

  /** Where struct inode_disk has its fields, as it is written. */
  lemma InodeLayout(d: InodeDisk)
    requires d.Fits()
    ensures forall i :: 0 <= i < 123 ==> NumberAt(EncodeInode(d), 4 * i) == d.direct[i]
    ensures NumberAt(EncodeInode(d), 492) == d.indirect && NumberAt(EncodeInode(d), 496) == d.doubly
    ensures d.magic == INODE_MAGIC ==> InodeBytes(EncodeInode(d), d.isDir, d.length)
    ensures NumberAt(EncodeInode(d), 508) == d.magic
  {
    hide U32Bytes, EncodeIndex, DecodeIndex;
    var w: IndexBlock := d.direct + [d.indirect, d.doubly, if d.isDir then 1 else 0, d.length, d.magic];
    var s := EncodeIndex(w);
    forall i | 0 <= i < 128
      ensures NumberAt(s, 4 * i) == w[i]
    {
      IndexLayout(s, w, i);
    }
    Fields(s, w);
    FourBytes(s, 500);
    FourBytes(s, 508);
  }

  lemma Fields(s: Sector, w: IndexBlock)
    requires forall i :: 0 <= i < 128 ==> NumberAt(s, 4 * i) == w[i]
    ensures NumberAt(s, 492) == w[123] && NumberAt(s, 496) == w[124] && NumberAt(s, 500) == w[125]
    ensures NumberAt(s, 504) == w[126] && NumberAt(s, 508) == w[127]
  {
    hide NumberAt;
    assert NumberAt(s, 4 * 123) == w[123] && NumberAt(s, 4 * 124) == w[124] && NumberAt(s, 4 * 125) == w[125];
    assert NumberAt(s, 4 * 126) == w[126] && NumberAt(s, 4 * 127) == w[127];
  }

  lemma Sign(s: Sector, at: nat)
    requires at + 4 <= SECTOR_SIZE
    ensures NumberAt(s, at) < 0x8000_0000 <==> s[at + 3] < 128
    ensures NumberAt(s, at - at % 4) % 256 == s[at - at % 4]
  {
  }

  /** Four bytes are determined by their number. */
  lemma FourBytes(s: Sector, at: nat)
    requires at + 4 <= SECTOR_SIZE
    ensures NumberAt(s, at) < 2 ==> s[at] == NumberAt(s, at) && s[at + 1] == s[at + 2] == s[at + 3] == 0
    ensures NumberAt(s, at) == 0x494e_4f44 ==>
              s[at] == 0x44 && s[at + 1] == 0x4f && s[at + 2] == 0x4e && s[at + 3] == 0x49
  {
  }

  /** And as it is read. */
  lemma InodeReads(s: Sector)
    ensures var d := DecodeInode(s);
            && (forall i :: 0 <= i < 123 ==> d.direct[i] == NumberAt(s, 4 * i))
            && d.indirect == NumberAt(s, 492) && d.doubly == NumberAt(s, 496)
            && (d.isDir <==> s[500] != 0)
            && d.length == (if s[507] < 128 then NumberAt(s, 504) else NumberAt(s, 504) - 4294967296)
            && d.magic == NumberAt(s, 508)
  {
    hide U32Bytes, EncodeIndex, DecodeIndex;
    forall i | 0 <= i < 128
      ensures DecodeIndex(s)[i] == NumberAt(s, 4 * i)
    {
      IndexLayout(s, DecodeIndex(s), i);
    }
    Fields(s, DecodeIndex(s));
    Sign(s, 504);
    Sign(s, 500);
  }

  /** An index block that leads nowhere. */
  function NoPointers(): (b: IndexBlock)
    ensures forall i :: 0 <= i < PTRS ==> b[i] == 0
  {
    seq(PTRS, i => 0)
  }

  lemma ZerosDecode()
    ensures DecodeIndex(Zeros()) == NoPointers()
  {
  }

  /** The inode that inode_create starts from: no blocks yet. */
  function EmptyInode(isDir: bool, length: int): InodeDisk {
    InodeDisk(seq(DIRECT_BLOCKS, i => 0), 0, 0, isDir, length, INODE_MAGIC)
  }
}
