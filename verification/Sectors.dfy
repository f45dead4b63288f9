/** The byte layout of a sector: 128 little-endian FAT cells, or 16 directory entries of 32 bytes. */
module Sectors {
  import opened Words

  const SECTOR_SIZE := 512
  const CELLS_PER_SECTOR := 128
  const ENTRY_SIZE := 32
  const SLOTS := 16

  type Sector = s: seq<Byte> | |s| == SECTOR_SIZE witness seq(SECTOR_SIZE, _ => 0)

  type Name11 = s: seq<Byte> | |s| == 11 witness seq(11, _ => 0)
  type Bytes8 = s: seq<Byte> | |s| == 8 witness seq(8, _ => 0)
  type Bytes4 = s: seq<Byte> | |s| == 4 witness seq(4, _ => 0)

  /** A directory entry. `times` are the bytes 12-19 (reserved, creation, access), `modified` the bytes 22-25. */
  datatype Entry = Entry(
    name: Name11,
    attributes: Byte,
    times: Bytes8,
    clusterHigh: Word16,
    modified: Bytes4,
    clusterLow: Word16,
    fileSize: Word32)

  function ZeroEntry(): Entry {
    Entry(seq(11, _ => 0), 0, seq(8, _ => 0), 0, seq(4, _ => 0), 0, 0)
  }

  /** The 16 slots of a one-sector directory. */
  type Dir = d: seq<Entry> | |d| == SLOTS witness seq(SLOTS, _ => ZeroEntry())

  // ----- little-endian words

  function Word16Of(b: seq<Byte>): Word16
    requires |b| == 2
  {
    b[0] as int + 0x100 * (b[1] as int)
  }

  function Bytes16(w: Word16): (b: seq<Byte>)
    ensures |b| == 2 && Word16Of(b) == w
  {
    [w % 0x100, w / 0x100]
  }

  function Word32Of(b: seq<Byte>): Word32
    requires |b| == 4
  {
    Word16Of(b[..2]) as int + 0x1_0000 * (Word16Of(b[2..]) as int)
  }

  function Bytes32(w: Word32): (b: seq<Byte>)
    ensures |b| == 4 && Word32Of(b) == w
  {
    var b := Bytes16(w % 0x1_0000) + Bytes16(w / 0x1_0000);
    assert b[..2] == Bytes16(w % 0x1_0000) && b[2..] == Bytes16(w / 0x1_0000);
    b
  }

  /** The four bytes of a word, the lowest first. */
  lemma Bytes32Is(w: Word32)
    ensures Bytes32(w) == [w % 0x100, w / 0x100 % 0x100, w / 0x1_0000 % 0x100, w / 0x100_0000]
  {
    var low, high := w % 0x1_0000, w / 0x1_0000;
    DivTwice(w);
    assert low % 0x100 == w % 0x100 && low / 0x100 == w / 0x100 % 0x100;
    assert Bytes32(w) == Bytes16(low) + Bytes16(high);
  }

  lemma DivTwice(w: Word32)
    ensures w / 0x1_0000 / 0x100 == w / 0x100_0000
    ensures w % 0x1_0000 / 0x100 == w / 0x100 % 0x100
    ensures w % 0x1_0000 % 0x100 == w % 0x100
  {
    var q := w / 0x100;
    assert w == 0x100 * q + w % 0x100;
    assert w / 0x1_0000 == q / 0x100;
    assert w % 0x1_0000 == 0x100 * (q % 0x100) + w % 0x100;
  }

  lemma BytesOfWord16(b: seq<Byte>)
    requires |b| == 2
    ensures Bytes16(Word16Of(b)) == b
  {
    assert Word16Of(b) % 0x100 == b[0];
  }

  lemma BytesOfWord32(b: seq<Byte>)
    requires |b| == 4
    ensures Bytes32(Word32Of(b)) == b
  {
    BytesOfWord16(b[..2]);
    BytesOfWord16(b[2..]);
    var w := Word32Of(b);
    assert w % 0x1_0000 == Word16Of(b[..2]) && w / 0x1_0000 == Word16Of(b[2..]);
    assert b == b[..2] + b[2..];
  }

  // ----- one directory entry

  function DecodeEntry(b: seq<Byte>): Entry
    requires |b| == ENTRY_SIZE
  {
    Entry(b[..11], b[11], b[12..20], Word16Of(b[20..22]), b[22..26], Word16Of(b[26..28]), Word32Of(b[28..]))
  }

  function EncodeEntry(e: Entry): (b: seq<Byte>)
    ensures |b| == ENTRY_SIZE
  {
    e.name + [e.attributes] + e.times + Bytes16(e.clusterHigh) + e.modified + Bytes16(e.clusterLow)
      + Bytes32(e.fileSize)
  }

  /** Reading back a stored entry gives the entry. */
  lemma DecodeOfEncode(e: Entry)
    ensures DecodeEntry(EncodeEntry(e)) == e
  {
    var b := EncodeEntry(e);
    assert b[..11] == e.name;
    assert b[12..20] == e.times;
    assert b[20..22] == Bytes16(e.clusterHigh);
    assert b[22..26] == e.modified;
    assert b[26..28] == Bytes16(e.clusterLow);
    assert b[28..] == Bytes32(e.fileSize);
  }

  /** Storing an entry just read changes no byte. */
  lemma EncodeOfDecode(b: seq<Byte>)
    requires |b| == ENTRY_SIZE
    ensures EncodeEntry(DecodeEntry(b)) == b
  {
    BytesOfWord16(b[20..22]);
    BytesOfWord16(b[26..28]);
    BytesOfWord32(b[28..]);
    assert b == b[..11] + [b[11]] + b[12..20] + b[20..22] + b[22..26] + b[26..28] + b[28..];
  }

  /** Which bytes of a stored entry hold which field; words of two and four bytes start with the lowest. */
  lemma DecodedBytes(b: seq<Byte>)
    requires |b| == 32
    ensures var e := DecodeEntry(b);
            && e.name == b[..11] && e.attributes == b[11] && e.times == b[12..20] && e.modified == b[22..26]
            && e.clusterHigh == b[20] as int + 0x100 * (b[21] as int)
            && e.clusterLow == b[26] as int + 0x100 * (b[27] as int)
            && e.fileSize == b[28] as int + 0x100 * (b[29] as int)
                             + 0x1_0000 * (b[30] as int) + 0x100_0000 * (b[31] as int)
  {
    assert b[28..][..2] == [b[28], b[29]] && b[28..][2..] == [b[30], b[31]];
  }

  /** The 32 bytes that storing an entry writes. */
  lemma EncodedBytes(e: Entry, k: nat)
    requires k < 32
    ensures EncodeEntry(e)[k] ==
              if k < 11 then e.name[k]
              else if k == 11 then e.attributes
              else if k < 20 then e.times[k - 12]
              else if k == 20 then e.clusterHigh % 0x100
              else if k == 21 then e.clusterHigh / 0x100
              else if k < 26 then e.modified[k - 22]
              else if k == 26 then e.clusterLow % 0x100
              else if k == 27 then e.clusterLow / 0x100
              else if k == 28 then e.fileSize % 0x100
              else if k == 29 then e.fileSize / 0x100 % 0x100
              else if k == 30 then e.fileSize / 0x1_0000 % 0x100
              else e.fileSize / 0x100_0000
  {
    Bytes32Is(e.fileSize);
    hide Bytes32;
  }

  /** Replacing a piece of a sequence keeps every range beside it. */
  lemma SpliceFrame(s: seq<Byte>, at: nat, piece: seq<Byte>, lo: nat, hi: nat)
    requires at + |piece| <= |s| && lo <= hi <= |s|
    requires hi <= at || at + |piece| <= lo
    ensures (s[..at] + piece + s[at + |piece|..])[lo..hi] == s[lo..hi]
  {
  }

  // ----- a sector seen as a directory

  function EntryAt(s: Sector, i: nat): Entry
    requires i < SLOTS
  {
    DecodeEntry(s[ENTRY_SIZE * i..ENTRY_SIZE * i + ENTRY_SIZE])
  }

  function SetEntry(s: Sector, i: nat, e: Entry): Sector
    requires i < SLOTS
  {
    s[..ENTRY_SIZE * i] + EncodeEntry(e) + s[ENTRY_SIZE * i + ENTRY_SIZE..]
  }

  function DirOf(s: Sector): Dir {
    seq(SLOTS, i requires 0 <= i < SLOTS => EntryAt(s, i))
  }

  /** Storing an entry in one slot leaves the other fifteen as they were. */
  lemma SetEntryDir(s: Sector, i: nat, e: Entry)
    requires i < SLOTS
    ensures DirOf(SetEntry(s, i, e)) == DirOf(s)[i := e]
  {
    var t := SetEntry(s, i, e);
    forall k: nat | k < SLOTS
      ensures EntryAt(t, k) == DirOf(s)[i := e][k]
    {
      if k == i {
        assert t[ENTRY_SIZE * i..ENTRY_SIZE * i + ENTRY_SIZE] == EncodeEntry(e);
        DecodeOfEncode(e);
      } else {
        SpliceFrame(s, ENTRY_SIZE * i, EncodeEntry(e), ENTRY_SIZE * k, ENTRY_SIZE * k + ENTRY_SIZE);
      }
    }
  }

  /** The entry in a slot from the bytes of the sector. */
  lemma EntryBytes(s: Sector, i: nat)
    requires i < 16
    ensures var e := EntryAt(s, i);
            && (forall k :: 0 <= k < 11 ==> e.name[k] == s[32 * i + k])
            && e.attributes == s[32 * i + 11]
            && e.clusterHigh == s[32 * i + 20] as int + 0x100 * (s[32 * i + 21] as int)
            && e.clusterLow == s[32 * i + 26] as int + 0x100 * (s[32 * i + 27] as int)
            && e.fileSize == s[32 * i + 28] as int + 0x100 * (s[32 * i + 29] as int)
                             + 0x1_0000 * (s[32 * i + 30] as int) + 0x100_0000 * (s[32 * i + 31] as int)
  {
    var b := s[32 * i..32 * i + 32];
    DecodedBytes(b);
    assert forall k :: 0 <= k < 32 ==> b[k] == s[32 * i + k];
  }

  /** The bytes of the sector from the entry in a slot. */
  lemma SlotBytes(s: Sector, i: nat, k: nat)
    requires i < 16 && k < 32
    ensures s[32 * i + k] == EncodeEntry(DirOf(s)[i])[k]
  {
    var b := s[32 * i..32 * i + 32];
    EncodeOfDecode(b);
    assert b[k] == s[32 * i + k];
  }

  // ----- a sector seen as a piece of the FAT

  function CellAt(s: Sector, j: nat): Word32
    requires j < CELLS_PER_SECTOR
  {
    Word32Of(s[4 * j..4 * j + 4])
  }

  function SetCell(s: Sector, j: nat, w: Word32): Sector
    requires j < CELLS_PER_SECTOR
  {
    s[..4 * j] + Bytes32(w) + s[4 * j + 4..]
  }

  /** A FAT cell from its four bytes. */
  lemma CellBytes(s: Sector, j: nat)
    requires j < 128
    ensures CellAt(s, j) == s[4 * j] as int + 0x100 * (s[4 * j + 1] as int)
                            + 0x1_0000 * (s[4 * j + 2] as int) + 0x100_0000 * (s[4 * j + 3] as int)
  {
    var b := s[4 * j..4 * j + 4];
    assert b[..2] == [s[4 * j], s[4 * j + 1]] && b[2..] == [s[4 * j + 2], s[4 * j + 3]];
  }

  /** Storing a FAT cell writes four bytes, the lowest first, and leaves the other 508 of the sector. */
  lemma SetCellBytes(s: Sector, j: nat, w: Word32, k: nat)
    requires j < 128 && k < 512
    ensures SetCell(s, j, w)[k] ==
              if k == 4 * j then w % 0x100
              else if k == 4 * j + 1 then w / 0x100 % 0x100
              else if k == 4 * j + 2 then w / 0x1_0000 % 0x100
              else if k == 4 * j + 3 then w / 0x100_0000
              else s[k]
  {
    Bytes32Is(w);
    hide Bytes32;
  }

  /** Storing one FAT cell leaves the other 127 of the sector as they were. */
  lemma SetCellAt(s: Sector, j: nat, w: Word32, k: nat)
    requires j < CELLS_PER_SECTOR && k < CELLS_PER_SECTOR
    ensures CellAt(SetCell(s, j, w), k) == if k == j then w else CellAt(s, k)
  {
    var t := SetCell(s, j, w);
    if k == j {
      assert t[4 * j..4 * j + 4] == Bytes32(w);
    } else {
      SpliceFrame(s, 4 * j, Bytes32(w), 4 * k, 4 * k + 4);
    }
  }
}
