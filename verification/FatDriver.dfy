/** The FAT32 driver: globals, sector buffers and scans, method by method, against the specification on values. */
module FatDriver {
  import opened Words
  import opened Sectors
  import opened FatNames
  import opened FatGeometry
  import opened CStrings
  import FatSpec
  import FatPaths
  import FatScans
  import FatBytes

  const ROOT := FatSpec.ROOT
  const PATH_SIZE := 256

  /**
   The code can do the component `name` of cd in state `st`: the path it builds has at most 255 characters, the
   cluster it enters is on the volume, ".." finds a slash to cut the path at, and no name is appended to an empty path.
   */
  ghost predicate StepFits(st: FatSpec.State, name: Text) {
    match FatSpec.CdStep(st, name)
    case None => true
    case Some(next) =>
      && |next.path| < PATH_SIZE
      && FatSpec.ROOT <= next.cwd < |st.vol.dirs|
      && (name == FatSpec.UP ==>
            FatSpec.ParentOf(st.vol, st.cwd) == 0 || |st.path| <= 1 || FatSpec.LastSlash(st.path) >= 0)
      && (name != FatSpec.UP && name != FatSpec.HERE ==> st.path != [])
  }

  /** It can do all of them, one after the other, each at most 255 characters long. */
  ghost predicate FoldFits(st: FatSpec.State, names: seq<Text>)
    decreases |names|
  {
    names == [] ||
    (|names[0]| < PATH_SIZE && StepFits(st, names[0]) &&
     match FatSpec.CdStep(st, names[0])
     case None => true
     case Some(next) => FoldFits(next, names[1..]))
  }

  ghost predicate CdFits(st: FatSpec.State, arg: Text) {
    FoldFits(FatSpec.CdStart(st, arg), FatSpec.Components(arg))
  }

  /** Each cd of a run fits in the state in which it is given. */
  ghost predicate RunFits(st: FatSpec.State, cmds: seq<FatSpec.Command>)
    decreases |cmds|
  {
    cmds == [] ||
    ((cmds[0].CdCmd? ==> CdFits(st, cmds[0].arg)) && RunFits(FatSpec.Step(st, cmds[0]), cmds[1..]))
  }

  function TotalLength(names: seq<Text>): nat
    decreases |names|
  {
    if names == [] then 0 else |names[0]| + 1 + TotalLength(names[1..])
  }

  lemma {:induction false} ComponentsLength(arg: Text)
    ensures TotalLength(FatSpec.Components(arg)) <= |arg| + 1
    ensures FatSpec.Absolute(arg) ==> TotalLength(FatSpec.Components(arg)) <= |arg|
    decreases |arg|
  {
    if arg != [] {
      if arg[0] == SLASH {
        ComponentsLength(arg[1..]);
      } else {
        var n := FatSpec.ComponentLength(arg);
        ComponentsLength(arg[n..]);
        var all := FatSpec.Components(arg);
        assert all[1..] == FatSpec.Components(arg[n..]);
        if n == |arg| {
          assert arg[n..] == [];
        }
      }
    }
  }

  lemma StepFitsShort(st: FatSpec.State, name: Text)
    requires FatPaths.WellFormed(st) && name != [] && SLASH !in name
    requires |st.path| + |name| + 1 < PATH_SIZE
    ensures StepFits(st, name)
    ensures FatSpec.CdStep(st, name).Some? ==> |FatSpec.CdStep(st, name).value.path| <= |st.path| + |name| + 1
  {
    hide FatPaths.WellFormed, FatSpec.Enter, FatSpec.ParentOf;
    FatPaths.WellFormedBounds(st);
    FatPaths.CdStepKeeps(st, name);
    if FatSpec.CdStep(st, name).Some? {
      FatPaths.WellFormedBounds(FatSpec.CdStep(st, name).value);
    }
  }

  lemma {:induction false} FoldFitsShort(st: FatSpec.State, names: seq<Text>)
    requires FatPaths.WellFormed(st) && forall i :: 0 <= i < |names| ==> names[i] != [] && SLASH !in names[i]
    requires |st.path| + TotalLength(names) < PATH_SIZE
    ensures FoldFits(st, names)
    ensures FatSpec.CdFold(st, names).Some? ==>
              |FatSpec.CdFold(st, names).value.path| <= |st.path| + TotalLength(names)
    decreases |names|
  {
    hide FatPaths.WellFormed, FatSpec.CdStep, StepFits;
    if names != [] {
      StepFitsShort(st, names[0]);
      FatPaths.CdStepKeeps(st, names[0]);
      if FatSpec.CdStep(st, names[0]).Some? {
        FoldFitsShort(FatSpec.CdStep(st, names[0]).value, names[1..]);
      }
    }
  }

  /** A caller's check: in a well-formed state, the path, the argument and one slash fit in the buffer. */
  lemma ShortArgumentFits(st: FatSpec.State, arg: Text)
    requires FatPaths.WellFormed(st) && |st.path| + |arg| + 1 < PATH_SIZE
    ensures CdFits(st, arg) && |FatSpec.Cd(st, arg).path| <= |st.path| + |arg| + 1
  {
    hide FatPaths.WellFormed;
    ComponentsLength(arg);
    FatPaths.WellFormedBounds(st);
    FatPaths.CdStartKeeps(st, arg);
    FatPaths.ComponentsAreNames(arg);
    FoldFitsShort(FatSpec.CdStart(st, arg), FatSpec.Components(arg));
  }

  /** The characters of all arguments of cd in a run, with a slash for each. */
  function CdLength(cmds: seq<FatSpec.Command>): nat
    decreases |cmds|
  {
    if cmds == [] then 0
    else (if cmds[0].CdCmd? then |cmds[0].arg| + 1 else 0) + CdLength(cmds[1..])
  }

  /** The same check for a run. */
  lemma {:induction false} ShortRunFits(st: FatSpec.State, cmds: seq<FatSpec.Command>)
    requires FatPaths.WellFormed(st) && |st.path| + CdLength(cmds) < PATH_SIZE
    ensures RunFits(st, cmds)
    decreases |cmds|
  {
    hide FatPaths.WellFormed, CdFits, FatSpec.Cd;
    if cmds != [] {
      if cmds[0].CdCmd? {
        ShortArgumentFits(st, cmds[0].arg);
      }
      FatPaths.StepKeeps(st, cmds[0]);
      ShortRunFits(FatSpec.Step(st, cmds[0]), cmds[1..]);
    }
  }

  /** The four outcomes of mkdir, by what its scans find. */
  lemma MkdirCases(v: FatSpec.Vol, cwd: nat, name: Text)
    ensures FatSpec.FindFile(FatSpec.DirAt(v, cwd), name).Some? || FatSpec.FreeCluster(v.fat) == 0 ==>
              FatSpec.Mkdir(v, cwd, name) == v && FatSpec.MkdirStages(v, cwd, name) == []
    ensures FatSpec.FindFile(FatSpec.DirAt(v, cwd), name).None? && FatSpec.FreeCluster(v.fat) != 0 ==>
              if FatSpec.FreeSlot(FatSpec.DirAt(v, cwd)) == SLOTS
              then FatSpec.Mkdir(v, cwd, name) == FatSpec.Filled(v, cwd)
                   && FatSpec.MkdirStages(v, cwd, name) == [FatSpec.Claimed(v), FatSpec.Filled(v, cwd)]
              else FatSpec.Mkdir(v, cwd, name) == FatSpec.Linked(v, cwd, name)
                   && FatSpec.MkdirStages(v, cwd, name) ==
                        [FatSpec.Claimed(v), FatSpec.Filled(v, cwd), FatSpec.Linked(v, cwd, name)]
  {
  }

  lemma AppendThird<T>(s: seq<T>, a: T, b: T, c: T)
    ensures s + [a, b] + [c] == s + [a, b, c]
  {
  }

  lemma SlashOnly(path: Text, pos: nat)
    requires pos <= 1 && pos <= |path| && (pos == 1 ==> path[0] == SLASH)
    ensures FatSpec.Components(path[pos..]) == FatSpec.Components(path)
    ensures pos == |path| ==> FatSpec.Components(path) == []
  {
    if pos == 0 {
      assert path[0..] == path;
    }
  }

  lemma NoComponents(path: Text)
    ensures FatSpec.Components(path[|path|..]) == []
  {
  }

  lemma FirstComponent(path: Text, start: nat, next: nat)
    requires start < |path| && path[start] != SLASH && next == start + FatSpec.ComponentLength(path[start..])
    ensures next <= |path|
    ensures FatSpec.Components(path[start..]) == [path[start..next]] + FatSpec.Components(path[next..])
  {
    var i := next - start;
    assert path[start..][..i] == path[start..next] && path[start..][i..] == path[next..];
  }

  class FileSystem {
    const disk: array<Sector>
    const layout: Layout
    ghost const clusters: nat
    var currentDir: nat
    const currentPath: array<Byte>
    /** The volume after every sector write so far. */
    ghost var history: seq<FatSpec.Vol>

    ghost predicate Valid()
      reads this, currentPath
    {
      && Geometry(layout, clusters, disk.Length)
      && currentPath.Length == PATH_SIZE && 0 in currentPath[..]
      && ROOT <= currentDir < clusters
    }

    ghost function Volume(): (v: FatSpec.Vol)
      requires Geometry(layout, clusters, disk.Length)
      reads disk
      ensures |v.fat| == clusters
    {
      VolumeOf(layout, clusters, disk[..])
    }

    ghost function State(): FatSpec.State
      requires Geometry(layout, clusters, disk.Length)
      reads this, disk, currentPath
    {
      FatSpec.State(Volume(), currentDir, Str(currentPath[..]))
    }

    /** Sectors that hold neither a FAT cell nor the first sector of a cluster. */
    ghost predicate Other(lba: int) {
      forall c :: ROOT <= c < clusters ==> lba != CellSector(layout, c) && lba != layout.SectorOf(c) as int
    }

    twostate predicate OthersUnchanged()
      reads disk
    {
      forall lba :: 0 <= lba < disk.Length && Other(lba) ==> disk[lba] == old(disk[lba])
    }

    /** fat32_init: the layout from the BPB, the root as current directory, "/" as path. */
    constructor (drive: array<Sector>, reservedSectors: Word16, fatCount: Byte, fatSize: Word32,
                 sectorsPerCluster: Byte, ghost clusters: nat)
      requires reservedSectors as int + fatCount as int * fatSize as int < 0x1_0000_0000
      requires var dataStart := reservedSectors as int + fatCount as int * fatSize as int;
               Geometry(Layout(reservedSectors, dataStart, sectorsPerCluster), clusters, drive.Length)
      ensures Valid() && disk == drive && fresh(currentPath) && this.clusters == clusters
      ensures State() == FatSpec.State(VolumeOf(layout, clusters, drive[..]), ROOT, [SLASH])
      ensures var dataStart := reservedSectors as int + fatCount as int * fatSize as int;
              layout == Layout(reservedSectors, dataStart, sectorsPerCluster)
      ensures history == []
    {
      disk := drive;
      layout := Layout(reservedSectors, reservedSectors as int + fatCount as int * fatSize as int, sectorsPerCluster);
      this.clusters := clusters;
      currentDir := ROOT;
      var path := new Byte[PATH_SIZE];
      path[0] := SLASH;
      path[1] := 0;
      currentPath := path;
      history := [];
      new;
      assert currentPath[..][1] == 0;
      HoldsStr(currentPath[..], [SLASH]);
    }

    /** A sector of drive 1; the drive takes the low 28 bits of the address. What lies past its end is not modelled. */
    method ReadSector(lba: Word32) returns (buffer: Sector)
      ensures lba as int < disk.Length <= ATA_LBA_LIMIT ==> buffer == disk[lba]
    {
      var at := lba % ATA_LBA_LIMIT;
      if at < disk.Length {
        buffer := disk[at];
      } else {
        buffer := seq(SECTOR_SIZE, _ => 0);
      }
    }

    method WriteSector(lba: Word32, buffer: Sector)
      requires Geometry(layout, clusters, disk.Length) && lba as int < disk.Length
      modifies disk, this`history
      ensures disk[..] == old(disk[..])[lba := buffer]
      ensures history == old(history) + [Volume()]
    {
      disk[lba % ATA_LBA_LIMIT] := buffer;
      history := history + [Volume()];
    }

    /** The buffer of the current directory, as every command starts by reading it. */
    method ReadCurrent() returns (buffer: Sector)
      requires Valid()
      ensures DirOf(buffer) == FatSpec.DirAt(Volume(), currentDir)
    {
      DirectoryRead(layout, clusters, disk[..], currentDir);
      buffer := ReadSector(layout.SectorOf(currentDir));
    }

    method WriteDirectory(cluster: nat, buffer: Sector)
      requires Geometry(layout, clusters, disk.Length) && ROOT <= cluster < clusters
      modifies disk, this`history
      ensures Volume() == FatSpec.SetDir(old(Volume()), cluster, DirOf(buffer))
      ensures history == old(history) + [Volume()]
      ensures OthersUnchanged()
      ensures forall lba :: 0 <= lba < disk.Length && lba != layout.SectorOf(cluster) as int ==>
                disk[lba] == old(disk[lba])
    {
      DirectoryWrite(layout, clusters, disk[..], cluster, buffer);
      WriteSector(layout.SectorOf(cluster), buffer);
    }

    /** fat32_ls: the entries printed. */
    method Ls() returns (printed: seq<Entry>)
      requires Valid()
      ensures printed == FatSpec.Listing(FatSpec.DirAt(Volume(), currentDir))
    {
      var buffer := ReadCurrent();
      printed := FatScans.ScanListing(DirOf(buffer));
    }

    method FindFile(name: Text) returns (found: Option<Entry>)
      requires Valid()
      ensures found == FatSpec.FindFile(FatSpec.DirAt(Volume(), currentDir), name)
    {
      var buffer := ReadCurrent();
      var entries := DirOf(buffer);
      var i := FatScans.ScanLive(entries, name);
      found := if i < SLOTS then Some(entries[i]) else None;
    }

    /**
     fat32_cat: the bytes printed, or None for "File not found!". A file of more than one sector would be read
     past the buffer.
     */
    method Cat(name: Text) returns (data: Option<seq<Byte>>)
      requires Valid()
      requires var d := FatSpec.DirAt(Volume(), currentDir);
               FatSpec.MatchSlot(d, name) < SLOTS ==>
                 var e := d[FatSpec.MatchSlot(d, name)];
                 && e.fileSize <= SECTOR_SIZE
                 && (e.fileSize > 0 ==> layout.SectorOf(FatSpec.ClusterOf(e)) as int < disk.Length)
      ensures var d := FatSpec.DirAt(Volume(), currentDir);
              if FatSpec.MatchSlot(d, name) == SLOTS then data == None
              else var e := d[FatSpec.MatchSlot(d, name)];
                   data == Some(if e.fileSize == 0 then []
                                else disk[layout.SectorOf(FatSpec.ClusterOf(e))][..e.fileSize])
    {
      hide FatSpec.MatchSlot, VolumeOf, DirOf, FatSpec.DirAt;
      var buffer := ReadCurrent();
      var entries := DirOf(buffer);
      var i := FatScans.ScanMatch(entries, name);
      if i == SLOTS {
        return None;
      }
      var e := entries[i];
      var sector := ReadSector(layout.SectorOf(e.clusterHigh as int * 0x1_0000 + e.clusterLow as int));
      var out: seq<Byte> := [];
      var j := 0;
      while j < e.fileSize
        invariant 0 <= j <= e.fileSize
        invariant out == sector[..j]
      {
        out := out + [sector[j]];
        j := j + 1;
      }
      return Some(out);
    }

    /** fat32_find_free_cluster: 100 sectors of 128 cells. */
    method FindFreeCluster() returns (cluster: nat)
      requires Valid()
      ensures cluster == FatSpec.FreeCluster(Volume().fat)
    {
      ghost var fat := Volume().fat;
      var i := 0;
      while i < FatSpec.FAT_SECTORS_SCANNED
        invariant 0 <= i <= FatSpec.FAT_SECTORS_SCANNED
        invariant forall k :: ROOT <= k < CELLS_PER_SECTOR * i ==> fat[k] != 0
      {
        TableCells(layout, clusters, disk[..], i);
        var table := ReadSector(layout.fatStart + i);
        var j := FatScans.ScanCells(table, CELLS_PER_SECTOR * i);
        forall k | ROOT <= k < CELLS_PER_SECTOR * i + j
          ensures fat[k] != 0
        {
          if k >= CELLS_PER_SECTOR * i {
            assert fat[CELLS_PER_SECTOR * i + (k - CELLS_PER_SECTOR * i)] == CellAt(table, k - CELLS_PER_SECTOR * i);
          }
        }
        if j < CELLS_PER_SECTOR {
          cluster := i * CELLS_PER_SECTOR + j;
          FatScans.FreeClusterIs(fat, cluster);
          return;
        }
        i := i + 1;
      }
      cluster := 0;
      FatScans.FreeClusterIs(fat, 0);
    }

    method UpdateFat(cluster: nat, value: Word32)
      requires Geometry(layout, clusters, disk.Length) && ROOT <= cluster < clusters
      modifies disk, this`history
      ensures Volume() == old(Volume()).(fat := old(Volume()).fat[cluster := value])
      ensures history == old(history) + [Volume()]
      ensures OthersUnchanged()
      ensures var at := layout.fatStart as int + cluster / 128;
              && at < disk.Length
              && (forall lba :: 0 <= lba < disk.Length && lba != at ==> disk[lba] == old(disk[lba]))
              && forall k :: 0 <= k < 512 ==>
                   disk[at][k] == if k == 4 * (cluster % 128) then value % 0x100
                                  else if k == 4 * (cluster % 128) + 1 then value / 0x100 % 0x100
                                  else if k == 4 * (cluster % 128) + 2 then value / 0x1_0000 % 0x100
                                  else if k == 4 * (cluster % 128) + 3 then value / 0x100_0000
                                  else old(disk[at][k])
    {
      CellWrite(layout, clusters, disk[..], cluster, value);
      SectorsApart(layout, clusters, disk.Length, ROOT, cluster);
      var sector := layout.fatStart + cluster / CELLS_PER_SECTOR;
      var offset := cluster % CELLS_PER_SECTOR;
      var table := ReadSector(sector);
      forall k: nat | k < 512 {
        SetCellBytes(table, offset, value, k);
      }
      table := SetCell(table, offset, value);
      WriteSector(sector, table);
    }

    /** The two dot entries over a zeroed sector. */
    method DotEntries(cluster: nat, parent: nat) returns (buffer: Sector)
      requires cluster < 0x1_0000_0000 && parent < 0x1_0000_0000
      ensures DirOf(buffer) == FatSpec.ChildDir(cluster, parent)
    {
      buffer := seq(SECTOR_SIZE, _ => 0);
      ZeroSector(buffer);
      var zero := EntryAt(buffer, 0);
      assert zero == DirOf(buffer)[0];
      var dot := zero.(name := FatSpec.DOT_NAME, attributes := FatSpec.DIRECTORY,
                       clusterLow := cluster % 0x1_0000, clusterHigh := cluster / 0x1_0000 % 0x1_0000);
      SetEntryDir(buffer, 0, dot);
      buffer := SetEntry(buffer, 0, dot);
      var dotDot := zero.(name := FatSpec.DOT_DOT_NAME, attributes := FatSpec.DIRECTORY,
                          clusterLow := parent % 0x1_0000, clusterHigh := parent / 0x1_0000 % 0x1_0000);
      SetEntryDir(buffer, 1, dotDot);
      buffer := SetEntry(buffer, 1, dotDot);
      assert DirOf(buffer) == FatSpec.ChildDir(cluster, parent);
    }

    method Mkdir(name: Text)
      requires Valid()
      modifies disk, this`history
      ensures Valid() && State() == FatSpec.Step(old(State()), FatSpec.MkdirCmd(name))
      ensures history == old(history) + FatSpec.MkdirStages(old(Volume()), currentDir, name)
      ensures OthersUnchanged()
      ensures var v := old(Volume());
              if FatSpec.FindFile(FatSpec.DirAt(v, currentDir), name).Some? || FatSpec.FreeCluster(v.fat) == 0
              then disk[..] == old(disk[..])
              else
                var n := FatSpec.FreeCluster(v.fat);
                && (forall lba :: 0 <= lba < disk.Length ==>
                      disk[lba] == old(disk[lba]) || lba == layout.fatStart as int + n / 128
                      || lba == layout.SectorOf(n) as int || lba == layout.SectorOf(currentDir) as int)
                && (v.fat[currentDir] != 0 ==>
                      FatBytes.Made(layout, clusters, old(disk[..]), disk[..], currentDir, name, n))
    {
      hide FatSpec.Mkdir, FatSpec.MkdirStages, FatSpec.FindFile, FatSpec.Claimed, FatSpec.Filled, FatSpec.Linked,
           VolumeOf, Geometry, FatBytes.Made;
      MkdirCases(Volume(), currentDir, name);
      var existing := FindFile(name);
      if existing.None? {
        var parentBuffer := ReadCurrent();
        var newCluster := FindFreeCluster();
        if newCluster != 0 {
          WriteDirectories(parentBuffer, newCluster, name);
          if old(Volume()).fat[currentDir] != 0 {
            FatBytes.MkdirOnDisk(layout, clusters, old(disk[..]), disk[..], currentDir, name);
          }
        }
      }
    }

    /** The writes of mkdir once a cluster is found: two without a free slot in the parent, three with one. */
    method WriteDirectories(parentBuffer: Sector, newCluster: nat, name: Text)
      requires Valid() && newCluster == FatSpec.FreeCluster(Volume().fat) != 0
      requires DirOf(parentBuffer) == FatSpec.DirAt(Volume(), currentDir)
      modifies disk, this`history
      ensures var before := old(Volume());
              if FatSpec.FreeSlot(FatSpec.DirAt(before, currentDir)) == SLOTS
              then Volume() == FatSpec.Filled(before, currentDir)
                   && history == old(history) + [FatSpec.Claimed(before), Volume()]
              else Volume() == FatSpec.Linked(before, currentDir, name)
                   && history == old(history) + [FatSpec.Claimed(before), FatSpec.Filled(before, currentDir), Volume()]
      ensures OthersUnchanged()
      ensures forall lba :: 0 <= lba < disk.Length ==>
                disk[lba] == old(disk[lba]) || lba == layout.fatStart as int + newCluster / 128
                || lba == layout.SectorOf(newCluster) as int || lba == layout.SectorOf(currentDir) as int
    {
      ghost var before := Volume();
      WriteChild(newCluster);
      ghost var filled := Volume();
      var i := FatScans.ScanFree(DirOf(parentBuffer));
      if i < SLOTS {
        StoreLink(parentBuffer, i, name, newCluster);
        AppendThird(old(history), FatSpec.Claimed(before), filled, Volume());
      }
    }

    /** The first two writes of mkdir: the cell of the new cluster and its dot entries. */
    method WriteChild(newCluster: nat)
      requires Valid() && newCluster == FatSpec.FreeCluster(Volume().fat) != 0
      modifies disk, this`history
      ensures Volume() == FatSpec.Filled(old(Volume()), currentDir)
      ensures history == old(history) + [FatSpec.Claimed(old(Volume())), Volume()]
      ensures OthersUnchanged()
      ensures forall lba :: 0 <= lba < disk.Length ==>
                disk[lba] == old(disk[lba]) || lba == layout.fatStart as int + newCluster / 128
                || lba == layout.SectorOf(newCluster) as int
    {
      UpdateFat(newCluster, FatSpec.END_OF_CHAIN);
      assert Volume() == FatSpec.Claimed(old(Volume()));
      var parentCluster := if currentDir == 2 then 0 else currentDir;
      var dots := DotEntries(newCluster, parentCluster);
      WriteDirectory(newCluster, dots);
    }

    /** Writes the parent buffer back with a directory entry for `name` in slot `i`. */
    method StoreLink(buffer: Sector, i: nat, name: Text, cluster: nat)
      requires Valid() && i < SLOTS
      modifies disk, this`history
      ensures var link := FatSpec.DirectoryEntry(DirOf(buffer)[i], name, cluster);
              Volume() == FatSpec.SetDir(old(Volume()), currentDir, DirOf(buffer)[i := link])
      ensures history == old(history) + [Volume()]
      ensures OthersUnchanged()
      ensures forall lba :: 0 <= lba < disk.Length && lba != layout.SectorOf(currentDir) as int ==>
                disk[lba] == old(disk[lba])
    {
      var field := WriteName(name);
      var e := DirOf(buffer)[i].(
        name := field, attributes := FatSpec.DIRECTORY,
        clusterLow := cluster % 0x1_0000, clusterHigh := cluster / 0x1_0000 % 0x1_0000, fileSize := 0);
      StoreEntry(buffer, i, e);
    }

    /** Writes back a directory buffer with one entry replaced. */
    method StoreEntry(buffer: Sector, i: nat, e: Entry)
      requires Valid() && i < SLOTS
      modifies disk, this`history
      ensures Volume() == FatSpec.SetDir(old(Volume()), currentDir, DirOf(buffer)[i := e])
      ensures history == old(history) + [Volume()]
      ensures OthersUnchanged()
      ensures forall lba :: 0 <= lba < disk.Length && lba != layout.SectorOf(currentDir) as int ==>
                disk[lba] == old(disk[lba])
    {
      SetEntryDir(buffer, i, e);
      WriteDirectory(currentDir, SetEntry(buffer, i, e));
    }

    method Touch(name: Text)
      requires Valid()
      modifies disk, this`history
      ensures Valid() && State() == FatSpec.Step(old(State()), FatSpec.TouchCmd(name))
      ensures var full := FatSpec.FreeSlot(FatSpec.DirAt(old(Volume()), currentDir)) == SLOTS;
              history == old(history) + if full then [] else [Volume()]
      ensures OthersUnchanged()
      ensures var at := layout.SectorOf(currentDir);
              && at as int < disk.Length && FatBytes.Touched(old(disk[at]), disk[at], name)
              && forall lba :: 0 <= lba < disk.Length && lba != at as int ==> disk[lba] == old(disk[lba])
    {
      hide FatSpec.FreeSlot, VolumeOf, FatBytes.Touched;
      var buffer := ReadCurrent();
      var i := FatScans.ScanFree(DirOf(buffer));
      if i < SLOTS {
        var field := WriteName(name);
        var e := DirOf(buffer)[i].(
          name := field, attributes := FatSpec.ARCHIVE, clusterLow := 0, clusterHigh := 0, fileSize := 0);
        StoreEntry(buffer, i, e);
      } else {
        FatSpec.SetDirSame(Volume(), currentDir);
      }
      FatBytes.TouchOnDisk(layout, clusters, old(disk[..]), disk[..], currentDir, name);
    }

    method Rm(name: Text)
      requires Valid()
      modifies disk, this`history
      ensures Valid() && State() == FatSpec.Step(old(State()), FatSpec.RmCmd(name))
      ensures var missing := FatSpec.MatchSlot(FatSpec.DirAt(old(Volume()), currentDir), name) == SLOTS;
              history == old(history) + if missing then [] else [Volume()]
      ensures OthersUnchanged()
      ensures var at := layout.SectorOf(currentDir);
              && at as int < disk.Length && FatBytes.Removed(old(disk[at]), disk[at], name)
              && forall lba :: 0 <= lba < disk.Length && lba != at as int ==> disk[lba] == old(disk[lba])
    {
      hide FatSpec.MatchSlot, VolumeOf, FatBytes.Removed;
      var buffer := ReadCurrent();
      var i := FatScans.ScanMatch(DirOf(buffer), name);
      if i < SLOTS {
        var e := DirOf(buffer)[i];
        StoreEntry(buffer, i, e.(name := e.name[0 := DELETED]));
      } else {
        FatSpec.SetDirSame(Volume(), currentDir);
      }
      FatBytes.RmOnDisk(layout, clusters, old(disk[..]), disk[..], currentDir, name);
    }

    method GetParentCluster() returns (parent: nat)
      requires Valid()
      ensures parent == FatSpec.ParentOf(Volume(), currentDir)
    {
      if currentDir == 2 {
        return 0;
      }
      var buffer := ReadCurrent();
      var e := EntryAt(buffer, 1);
      assert e == DirOf(buffer)[1];
      if e.name[0] != DOT {
        return 0;
      }
      return e.clusterHigh as int * 0x1_0000 + e.clusterLow as int;
    }

    /** The part of ".." that cuts the last component off the path. */
    method PopPath()
      requires currentPath.Length == PATH_SIZE && 0 in currentPath[..]
      requires |Str(currentPath[..])| <= 1 || FatSpec.LastSlash(Str(currentPath[..])) >= 0
      modifies currentPath
      ensures 0 in currentPath[..] && Str(currentPath[..]) == FatSpec.PopPath(old(Str(currentPath[..])))
    {
      ghost var t := Str(currentPath[..]);
      StrAt(currentPath[..]);
      var len := Strlen(currentPath[..]);
      if len > 1 {
        var k := len - 1;
        while k >= 0 && currentPath[k] != SLASH
          invariant -1 <= k < len
          invariant FatSpec.LastSlash(t) <= k
          invariant forall j :: k < j < len ==> t[j] != SLASH
        {
          k := k - 1;
        }
        assert k == FatSpec.LastSlash(t);
        var cut := if k == 0 then 1 else k;
        currentPath[cut] := 0;
        assert currentPath[..][..cut] == t[..cut];
        assert currentPath[..][cut] == 0;
        HoldsStr(currentPath[..], t[..cut]);
      }
    }

    /** The part that appends a component to the path. */
    method PushPath(component: seq<Byte>)
      requires currentPath.Length == PATH_SIZE && 0 in currentPath[..] && 0 in component
      requires Str(currentPath[..]) != []
      requires |FatSpec.PushPath(Str(currentPath[..]), Str(component))| < PATH_SIZE
      modifies currentPath
      ensures 0 in currentPath[..]
      ensures Str(currentPath[..]) == FatSpec.PushPath(old(Str(currentPath[..])), Str(component))
    {
      StrAt(currentPath[..]);
      var len := Strlen(currentPath[..]);
      if currentPath[len - 1] != SLASH {
        var slash: seq<Byte> := [SLASH as int, 0];
        HoldsStr(slash, [SLASH]);
        Strcat(currentPath, slash);
      }
      Strcat(currentPath, component);
    }

    /** One named component of cd: the lookup, the check for a directory, the new cluster and the longer path. */
    method EnterComponent(component: seq<Byte>) returns (ok: bool)
      requires Valid() && 0 in component && Str(component) != FatSpec.UP && Str(component) != FatSpec.HERE
      requires StepFits(State(), Str(component))
      modifies this`currentDir, currentPath
      ensures Valid() && ok == FatSpec.CdStep(old(State()), Str(component)).Some?
      ensures State() == if ok then FatSpec.CdStep(old(State()), Str(component)).value else old(State())
    {
      hide FatSpec.PushPath, VolumeOf;
      var name := Str(component);
      var entry := FindFile(name);
      if entry.None? {
        return false;
      }
      if entry.value.attributes / 0x10 % 2 == 0 {
        return false;
      }
      currentDir := entry.value.clusterHigh as int * 0x1_0000 + entry.value.clusterLow as int;
      PushPath(component);
      return true;
    }

    /** The component ".." of cd. */
    method GoUp()
      requires Valid() && StepFits(State(), FatSpec.UP)
      modifies this`currentDir, currentPath
      ensures Valid() && Some(State()) == FatSpec.CdStep(old(State()), FatSpec.UP)
    {
      hide FatSpec.PopPath, VolumeOf;
      var parent := GetParentCluster();
      if parent != 0 {
        currentDir := parent;
        PopPath();
      }
    }

    /** What cd does first with an absolute argument. */
    method GoToRoot()
      requires Valid()
      modifies this`currentDir, currentPath
      ensures Valid() && State() == old(State()).(cwd := ROOT, path := [SLASH])
    {
      currentDir := 2;
      currentPath[0] := SLASH;
      currentPath[1] := 0;
      assert currentPath[..][..1] == [SLASH];
      assert currentPath[..][1] == 0;
      HoldsStr(currentPath[..], [SLASH]);
    }

    /** What cd does with one component. */
    method StepComponent(component: seq<Byte>) returns (ok: bool)
      requires Valid() && 0 in component && StepFits(State(), Str(component))
      modifies this`currentDir, currentPath
      ensures Valid() && ok == FatSpec.CdStep(old(State()), Str(component)).Some?
      ensures State() == if ok then FatSpec.CdStep(old(State()), Str(component)).value else old(State())
    {
      hide VolumeOf, FatSpec.Enter, FatSpec.ParentOf, StepFits;
      var up, here: seq<Byte> := [DOT as int, DOT as int, 0], [DOT as int, 0];
      HoldsStr(up, FatSpec.UP);
      HoldsStr(here, FatSpec.HERE);
      var order := Strcmp(component, up);
      if order == 0 {
        GoUp();
        return true;
      }
      order := Strcmp(component, here);
      if order == 0 {
        return true;
      }
      ok := EnterComponent(component);
    }

    /** The loop of cd that skips slashes. */
    static method SkipSlashes(path: Text, pos: nat) returns (next: nat)
      requires pos <= |path|
      ensures pos <= next <= |path| && (next == |path| || path[next] != SLASH)
      ensures FatSpec.Components(path[next..]) == FatSpec.Components(path[pos..])
    {
      next := pos;
      while next < |path| && path[next] == SLASH
        invariant pos <= next <= |path|
        invariant FatSpec.Components(path[next..]) == FatSpec.Components(path[pos..])
      {
        assert path[next..][1..] == path[next + 1..];
        next := next + 1;
      }
    }

    /** The loop of cd that copies the component starting at `pos`. */
    method CopyComponent(path: Text, pos: nat, component: array<Byte>) returns (i: nat)
      requires pos < |path| && component.Length == PATH_SIZE && FatSpec.ComponentLength(path[pos..]) < PATH_SIZE
      modifies component
      ensures i == FatSpec.ComponentLength(path[pos..])
      ensures 0 in component[..] && Str(component[..]) == path[pos..pos + i]
    {
      i := 0;
      ghost var n := FatSpec.ComponentLength(path[pos..]);
      assert forall k :: 0 <= k < n ==> path[pos..][..n][k] == path[pos + k];
      while pos + i < |path| && path[pos + i] != SLASH
        invariant i <= n
        invariant component[..i] == path[pos..pos + i]
      {
        assert i < n;
        component[i] := path[pos + i];
        i := i + 1;
      }
      component[i] := 0;
      assert component[..][..i] == path[pos..pos + i];
      assert component[..][i] == 0;
      HoldsStr(component[..], path[pos..pos + i]);
    }

    /** The loop of cd over the components from `from` on; it stops at the first one that fails. */
    method FollowPath(path: Text, from: nat) returns (ok: bool)
      requires Valid() && from <= |path| && FoldFits(State(), FatSpec.Components(path[from..]))
      modifies this`currentDir, currentPath
      ensures Valid() && ok == FatSpec.CdFold(old(State()), FatSpec.Components(path[from..])).Some?
      ensures ok ==> State() == FatSpec.CdFold(old(State()), FatSpec.Components(path[from..])).value
    {
      hide VolumeOf, FatSpec.CdStep, FatSpec.Components, Str, FatSpec.ComponentLength, Geometry, StepFits;
      ghost var result := FatSpec.CdFold(State(), FatSpec.Components(path[from..]));
      var pos := from;
      var component := new Byte[PATH_SIZE];
      while pos < |path|
        invariant pos <= |path| && Valid() && fresh(component)
        invariant FatSpec.CdFold(State(), FatSpec.Components(path[pos..])) == result
        invariant FoldFits(State(), FatSpec.Components(path[pos..]))
      {
        pos := SkipSlashes(path, pos);
        if pos == |path| {
          break;
        }
        ghost var names := FatSpec.Components(path[pos..]);
        FirstComponent(path, pos, pos + FatSpec.ComponentLength(path[pos..]));
        var i := CopyComponent(path, pos, component);
        pos := pos + i;
        assert names[0] == Str(component[..]) && names[1..] == FatSpec.Components(path[pos..]);
        ok := StepComponent(component[..]);
        if !ok {
          return;
        }
      }
      NoComponents(path);
      ok := true;
    }

    method Cd(path: Text)
      requires Valid() && CdFits(State(), path)
      modifies this`currentDir, currentPath
      ensures Valid() && State() == FatSpec.Step(old(State()), FatSpec.CdCmd(path))
    {
      hide VolumeOf, FatSpec.CdStep, FatSpec.Components, Str, Geometry, FoldFits;
      var oldCluster := currentDir;
      var oldPath := new Byte[PATH_SIZE];
      StrAt(currentPath[..]);
      Strcpy(oldPath, currentPath[..]);
      var pos := 0;
      if |path| > 0 && path[0] == SLASH {
        GoToRoot();
        SlashOnly(path, 1);
        if |path| == 1 {
          return;
        }
        pos := 1;
      }
      SlashOnly(path, pos);
      var ok := FollowPath(path, pos);
      if !ok {
        currentDir := oldCluster;
        Strcpy(currentPath, oldPath[..]);
      }
    }

    /**
     One command of the shell's table: on the sectors it does the step of the specification, and a well-formed
     state stays one.
     */
    method Execute(cmd: FatSpec.Command)
      requires Valid() && (cmd.CdCmd? ==> CdFits(State(), cmd.arg))
      modifies this`currentDir, this`history, disk, currentPath
      ensures Valid() && State() == FatSpec.Step(old(State()), cmd)
      ensures FatPaths.WellFormed(old(State())) ==> FatPaths.WellFormed(State())
      ensures OthersUnchanged()
    {
      hide FatPaths.WellFormed, FatSpec.Step, VolumeOf, CdFits;
      if FatPaths.WellFormed(State()) {
        FatPaths.StepKeeps(State(), cmd);
      }
      match cmd {
        case MkdirCmd(name) => Mkdir(name);
        case TouchCmd(name) => Touch(name);
        case RmCmd(name) => Rm(name);
        case CdCmd(arg) => Cd(arg);
      }
    }

    /** A run of commands: the sectors end as the run of the specification says. */
    method ExecuteAll(cmds: seq<FatSpec.Command>)
      requires Valid() && RunFits(State(), cmds)
      modifies this`currentDir, this`history, disk, currentPath
      ensures Valid() && State() == FatSpec.Run(old(State()), cmds)
      ensures FatPaths.WellFormed(old(State())) ==> FatPaths.WellFormed(State())
      ensures OthersUnchanged()
    {
      hide FatPaths.WellFormed, FatSpec.Step, VolumeOf, CdFits, Geometry, FileSystem.Other;
      ghost var start := State();
      var i := 0;
      while i < |cmds|
        invariant 0 <= i <= |cmds| && Valid()
        invariant FatSpec.Run(State(), cmds[i..]) == FatSpec.Run(start, cmds)
        invariant RunFits(State(), cmds[i..])
        invariant FatPaths.WellFormed(start) ==> FatPaths.WellFormed(State())
        invariant OthersUnchanged()
      {
        assert cmds[i..][1..] == cmds[i + 1..];
        Execute(cmds[i]);
        i := i + 1;
      }
    }
  }
}
