/** Where the FAT and the directories lie on the disk, and how a sector write shows in the volume. */
module FatGeometry {
  import opened Words
  import opened Sectors
  import opened FatSpec

  const ATA_LBA_LIMIT := 0x1000_0000

  /** The values that fat32_init takes from the BPB. */
  datatype Layout = Layout(fatStart: Word32, dataStart: Word32, sectorsPerCluster: Byte) {
    /** get_sector_by_cluster, in 32-bit arithmetic. */
    function SectorOf(cluster: nat): Word32 {
      (dataStart as int + (cluster - 2) * sectorsPerCluster as int) % 0x1_0000_0000
    }
  }

  /**
   A disk of `size` sectors on which clusters 2 to `clusters`-1 have FAT cells and data sectors: the FAT has
   the 100 sectors that the allocator scans, ends before the data, and the data ends before the disk does.
   */
  predicate Geometry(l: Layout, clusters: nat, size: nat) {
    && SCAN_LIMIT <= clusters <= 0x1_0000_0000
    && l.sectorsPerCluster > 0
    && l.fatStart as int + (clusters + CELLS_PER_SECTOR - 1) / CELLS_PER_SECTOR <= l.dataStart as int
    && l.dataStart as int + (clusters - 2) * l.sectorsPerCluster as int <= size <= ATA_LBA_LIMIT
  }

  function CellSector(l: Layout, cluster: nat): nat {
    l.fatStart as int + cluster / CELLS_PER_SECTOR
  }

  /** For a cluster of the volume the 32-bit arithmetic does not wrap. */
  lemma SectorOnDisk(l: Layout, clusters: nat, size: nat, c: nat)
    requires Geometry(l, clusters, size) && ROOT <= c < clusters
    ensures l.SectorOf(c) as int == l.dataStart as int + (c - 2) * l.sectorsPerCluster as int < size
    ensures l.dataStart <= l.SectorOf(c)
  {
    var s := l.sectorsPerCluster as int;
    Smaller(c - 2, clusters - 2, s);
    var x := l.dataStart as int + (c - 2) * s;
    assert 0 <= x < 0x1_0000_0000;
  }

  lemma {:induction false} Smaller(a: nat, b: nat, s: nat)
    requires a < b && s > 0
    ensures 0 <= a * s < b * s
    decreases b
  {
    if a + 1 < b {
      Smaller(a, b - 1, s);
    }
    assert b * s == (b - 1) * s + s;
  }

  /** Different clusters have different sectors, all of them behind the FAT. */
  lemma SectorsApart(l: Layout, clusters: nat, size: nat, c: nat, k: nat)
    requires Geometry(l, clusters, size) && ROOT <= c < clusters && ROOT <= k < clusters
    ensures l.SectorOf(c) as int < size
    ensures CellSector(l, k) < l.dataStart as int <= l.SectorOf(c) as int
    ensures l.SectorOf(c) == l.SectorOf(k) <==> c == k
  {
    SectorOnDisk(l, clusters, size, c);
    SectorOnDisk(l, clusters, size, k);
    if c < k {
      Smaller(c - 2, k - 2, l.sectorsPerCluster);
    } else if k < c {
      Smaller(k - 2, c - 2, l.sectorsPerCluster);
    }
  }

  function CellOf(l: Layout, sectors: seq<Sector>, c: nat): Word32
    requires CellSector(l, c) < |sectors|
  {
    CellAt(sectors[CellSector(l, c)], c % CELLS_PER_SECTOR)
  }

  function DirectoryOf(l: Layout, sectors: seq<Sector>, c: nat): Dir {
    if ROOT <= c && l.SectorOf(c) as int < |sectors| then DirOf(sectors[l.SectorOf(c)]) else EmptyDir()
  }

  /** The FAT and the directories that the sectors of a disk hold. */
  function VolumeOf(l: Layout, clusters: nat, sectors: seq<Sector>): (v: Vol)
    requires Geometry(l, clusters, |sectors|)
    ensures |v.fat| == clusters
  {
    Volume(
      seq(clusters, c requires 0 <= c < clusters => CellOf(l, sectors, c)),
      seq(clusters, c requires 0 <= c < clusters => DirectoryOf(l, sectors, c)))
  }

  /** Storing a FAT cell changes that cell of the volume and nothing else. */
  lemma CellWrite(l: Layout, clusters: nat, sectors: seq<Sector>, n: nat, x: Word32)
    requires Geometry(l, clusters, |sectors|) && ROOT <= n < clusters
    ensures var at := CellSector(l, n);
            at < |sectors| &&
            var v := VolumeOf(l, clusters, sectors);
            var w := VolumeOf(l, clusters, sectors[at := SetCell(sectors[at], n % CELLS_PER_SECTOR, x)]);
            w == v.(fat := v.fat[n := x])
  {
    var at := CellSector(l, n);
    SectorsApart(l, clusters, |sectors|, ROOT, n);
    var after := sectors[at := SetCell(sectors[at], n % CELLS_PER_SECTOR, x)];
    forall c | 0 <= c < clusters
      ensures CellOf(l, after, c) == if c == n then x else CellOf(l, sectors, c)
    {
      if c / CELLS_PER_SECTOR == n / CELLS_PER_SECTOR {
        SetCellAt(sectors[at], n % CELLS_PER_SECTOR, x, c % CELLS_PER_SECTOR);
      }
    }
    forall c | 0 <= c < clusters
      ensures DirectoryOf(l, after, c) == DirectoryOf(l, sectors, c)
    {
      if ROOT <= c {
        SectorsApart(l, clusters, |sectors|, c, n);
      }
    }
  }

  /** Storing the first sector of a cluster changes the directory of that cluster and nothing else. */
  lemma DirectoryWrite(l: Layout, clusters: nat, sectors: seq<Sector>, n: nat, s: Sector)
    requires Geometry(l, clusters, |sectors|) && ROOT <= n < clusters
    ensures l.SectorOf(n) as int < |sectors|
    ensures VolumeOf(l, clusters, sectors[l.SectorOf(n) := s]) == SetDir(VolumeOf(l, clusters, sectors), n, DirOf(s))
  {
    SectorsApart(l, clusters, |sectors|, n, n);
    var after := sectors[l.SectorOf(n) := s];
    forall c | 0 <= c < clusters
      ensures CellOf(l, after, c) == CellOf(l, sectors, c)
    {
      SectorsApart(l, clusters, |sectors|, n, if c < ROOT then ROOT else c);
    }
    forall c | 0 <= c < clusters
      ensures DirectoryOf(l, after, c) == if c == n then DirOf(s) else DirectoryOf(l, sectors, c)
    {
      if ROOT <= c {
        SectorsApart(l, clusters, |sectors|, c, n);
      }
    }
  }

  /** The cells of the i-th sector of the FAT. */
  lemma TableCells(l: Layout, clusters: nat, sectors: seq<Sector>, i: nat)
    requires Geometry(l, clusters, |sectors|) && i < FAT_SECTORS_SCANNED
    ensures l.fatStart as int + i < |sectors|
    ensures forall c :: CELLS_PER_SECTOR * i <= c < CELLS_PER_SECTOR * i + CELLS_PER_SECTOR ==>
              VolumeOf(l, clusters, sectors).fat[c] == CellAt(sectors[l.fatStart as int + i], c - CELLS_PER_SECTOR * i)
  {
    SectorsApart(l, clusters, |sectors|, ROOT, CELLS_PER_SECTOR * i + 2);
    forall c | CELLS_PER_SECTOR * i <= c < CELLS_PER_SECTOR * i + CELLS_PER_SECTOR
      ensures VolumeOf(l, clusters, sectors).fat[c] == CellAt(sectors[l.fatStart as int + i], c - CELLS_PER_SECTOR * i)
    {
      assert c / CELLS_PER_SECTOR == i && c % CELLS_PER_SECTOR == c - CELLS_PER_SECTOR * i;
      assert VolumeOf(l, clusters, sectors).fat[c] == CellOf(l, sectors, c);
    }
  }

  /** Reading the first sector of a cluster gives its directory. */
  lemma DirectoryRead(l: Layout, clusters: nat, sectors: seq<Sector>, c: nat)
    requires Geometry(l, clusters, |sectors|) && ROOT <= c < clusters
    ensures l.SectorOf(c) as int < |sectors|
    ensures DirOf(sectors[l.SectorOf(c)]) == DirAt(VolumeOf(l, clusters, sectors), c)
  {
    SectorsApart(l, clusters, |sectors|, c, c);
  }

  /** A sector of zero bytes is a directory whose slots were never used. */
  lemma ZeroSector(s: Sector)
    requires forall k :: 0 <= k < SECTOR_SIZE ==> s[k] == 0
    ensures DirOf(s) == EmptyDir()
  {
    forall i: nat | i < SLOTS
      ensures EntryAt(s, i) == ZeroEntry()
    {
      var b := s[ENTRY_SIZE * i..ENTRY_SIZE * i + ENTRY_SIZE];
      assert forall k :: 0 <= k < ENTRY_SIZE ==> b[k] == s[ENTRY_SIZE * i + k] == 0;
      var e := DecodeEntry(b);
      assert e.name == seq(11, _ => 0) && e.times == seq(8, _ => 0) && e.modified == seq(4, _ => 0);
      assert b[20..22] == [0, 0] && b[26..28] == [0, 0] && b[28..][..2] == [0, 0] && b[28..][2..] == [0, 0];
    }
  }
}
