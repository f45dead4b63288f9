/** What lookups read and commands write, byte by byte. */
module FatBytes {
  import opened Words
  import opened Sectors
  import opened FatNames
  import opened FatSpec
  import opened FatScans
  import opened FatGeometry
  import FatTree

  // ----- what a slot says

  /** Slot `i` is in use and `name` matches it. */
  predicate AnswersTo(s: Sector, i: nat, name: Text)
    requires i < 16
  {
    && s[32 * i] != 0 && s[32 * i] != 0xE5
    && NamedLike(s, i, name)
  }

  predicate FirstAnswer(s: Sector, i: nat, name: Text)
    requires i < 16
  {
    AnswersTo(s, i, name) && forall j :: 0 <= j < i ==> !AnswersTo(s, j, name)
  }

  /** The first eight bytes of slot `i` are the name: up to a dot or line break, a to z as A to Z, then spaces. */
  predicate NamedLike(s: Sector, i: nat, name: Text)
    requires i < 16
  {
    forall k :: 0 <= k < 8 ==> s[32 * i + k] == SearchByte(name, k)
  }

  /** Byte `k` of what `name` is compared with. */
  function SearchByte(name: Text, k: nat): Byte {
    if k < |name| && (forall j :: 0 <= j <= k ==> name[j] != 46 && name[j] != 10 && name[j] != 13)
    then (if 97 <= name[k] <= 122 then name[k] - 32 else name[k])
    else 32
  }

  /** Slot `i` is the first that is unused or deleted. */
  predicate FirstFree(s: Sector, i: nat)
    requires i < 16
  {
    && (s[32 * i] == 0 || s[32 * i] == 0xE5)
    && forall j :: 0 <= j < i ==> s[32 * j] != 0 && s[32 * j] != 0xE5
  }

  lemma SlotIs(s: Sector, i: nat, name: Text)
    requires i < 16
    ensures Matches(name, DirOf(s)[i]) <==> NamedLike(s, i, name)
    ensures Live(DirOf(s)[i]) <==> s[32 * i] != 0 && s[32 * i] != 0xE5
  {
    EntryBytes(s, i);
    var e := DirOf(s)[i];
    hide SearchKey, EntryAt, DirOf, SearchByte;
    assert e.name[0] == s[32 * i + 0];
    MatchesBytes(name, e);
    forall k | 0 <= k < 8
      ensures s[32 * i + k] == e.name[k]
    {
    }
    if NamedLike(s, i, name) {
      assert forall k :: 0 <= k < 8 ==> s[32 * i + k] == SearchByte(name, k);
    }
  }

  lemma MatchesBytes(name: Text, e: Entry)
    ensures Matches(name, e) <==> forall k :: 0 <= k < 8 ==> e.name[k] == SearchByte(name, k)
  {
    SameKey(e.name, SearchKey(name));
    hide SearchKey;
    forall k: nat | k < 8
      ensures SearchKey(name)[k] == SearchByte(name, k)
    {
      SearchKeyBytes(name, k);
    }
  }

  /** The cluster in the bytes of slot `i`. */
  function ClusterBytes(s: Sector, i: nat): nat
    requires i < 16
  {
    s[32 * i + 26] as int + 0x100 * (s[32 * i + 27] as int)
    + 0x1_0000 * (s[32 * i + 20] as int) + 0x100_0000 * (s[32 * i + 21] as int)
  }

  /**
   What cd reads: the first slot in use that answers to the name; if there is one and bit 4 of its byte 11 is
   set, the cluster in its bytes 26, 27, 20, 21.
   */
  lemma EnterBytes(v: Vol, c: nat, s: Sector, name: Text)
    requires DirOf(s) == DirAt(v, c)
    ensures forall i :: 0 <= i < 16 && FirstAnswer(s, i, name) ==>
              Enter(v, c, name) == if s[32 * i + 11] / 16 % 2 == 0 then None else Some(ClusterBytes(s, i))
    ensures (forall i :: 0 <= i < 16 ==> !AnswersTo(s, i, name)) ==> Enter(v, c, name) == None
  {
    hide Matches, Live, NamedLike, FindSlot;
    var d := DirOf(s);
    var f := FindSlot(d, name);
    FindSlotLeast(d, name);
    forall i | 0 <= i < 16
      ensures AnswersTo(s, i, name) <==> Live(d[i]) && Matches(name, d[i])
    {
      SlotIs(s, i, name);
    }
    if f < SLOTS {
      EntryBytes(s, f);
      assert AnswersTo(s, f, name);
    }
  }

  /** A name is not found exactly when no slot in use answers to it. */
  lemma FindBytes(s: Sector, name: Text)
    ensures FindFile(DirOf(s), name) == None <==> forall i :: 0 <= i < 16 ==> !AnswersTo(s, i, name)
  {
    hide Matches, Live, NamedLike, FindSlot;
    FindSlotLeast(DirOf(s), name);
    forall i | 0 <= i < 16
      ensures AnswersTo(s, i, name) <==> Live(DirOf(s)[i]) && Matches(name, DirOf(s)[i])
    {
      SlotIs(s, i, name);
    }
  }

  /**
   What ".." reads: the cluster in the second slot, unless the directory is cluster 2 or the slot starts with no
   dot.
   */
  lemma UpBytes(v: Vol, c: nat, s: Sector)
    requires DirOf(s) == DirAt(v, c)
    ensures ParentOf(v, c) == if c == 2 || s[32] != 46 then 0 else ClusterBytes(s, 1)
  {
    EntryBytes(s, 1);
    assert EntryAt(s, 1).name[0] == s[32 * 1 + 0];
  }

  /** One component of cd, from the bytes of the current directory's sector. */
  lemma CdStepBytes(st: State, s: Sector, name: Text)
    requires DirOf(s) == DirAt(st.vol, st.cwd)
    ensures name == [46] ==> CdStep(st, name) == Some(st)
    ensures name == [46, 46] ==>
              var up := if st.cwd == 2 || s[32] != 46 then 0 else ClusterBytes(s, 1);
              CdStep(st, name) == Some(if up == 0 then st else State(st.vol, up, PopPath(st.path)))
    ensures name != [46] && name != [46, 46] ==>
              && ((forall i :: 0 <= i < 16 ==> !AnswersTo(s, i, name)) ==> CdStep(st, name) == None)
              && forall i :: 0 <= i < 16 && FirstAnswer(s, i, name) ==>
                   CdStep(st, name) == if s[32 * i + 11] / 16 % 2 == 0 then None
                                       else Some(State(st.vol, ClusterBytes(s, i), PushPath(st.path, name)))
  {
    EnterBytes(st.vol, st.cwd, s, name);
    UpBytes(st.vol, st.cwd, s);
    hide Enter, ParentOf, AnswersTo, DirOf, ClusterBytes;
  }

  // ----- what a command writes into a directory sector

  /** Byte `k` of the name field stored for `name`. */
  function NameByte(name: Text, k: nat): Byte {
    if k < 8 && k < |name| && forall j :: 0 <= j <= k ==> name[j] != 46
    then (if 97 <= name[k] <= 122 then name[k] - 32 else name[k])
    else 32
  }

  /** Byte `k` of a slot after touch, where `was` stood: the name, 0x20, no cluster and no size. */
  function TouchByte(name: Text, k: nat, was: Byte): Byte {
    if k < 11 then NameByte(name, k)
    else if k == 11 then 0x20
    else if k == 20 || k == 21 || k >= 26 then 0
    else was
  }

  /** Byte `k` of a slot after mkdir of cluster `n`: the name, 0x10, the cluster and no size. */
  function LinkByte(name: Text, n: nat, k: nat, was: Byte): Byte {
    if k < 11 then NameByte(name, k)
    else if k == 11 then 0x10
    else if k == 26 then n % 0x100
    else if k == 27 then n / 0x100 % 0x100
    else if k == 20 then n / 0x1_0000 % 0x100
    else if k == 21 then n / 0x100_0000 % 0x100
    else if k >= 28 then 0
    else was
  }

  /** `t` is `s` after touch of `name`: only the first free slot changes. */
  ghost predicate Touched(s: Sector, t: Sector, name: Text) {
    && (forall i :: 0 <= i < 16 && FirstFree(s, i) ==> forall k :: 0 <= k < 512 ==>
          t[k] == if 32 * i <= k < 32 * i + 32 then TouchByte(name, k - 32 * i, s[k]) else s[k])
    && ((forall i :: 0 <= i < 16 ==> !FirstFree(s, i)) ==> t == s)
  }

  /** `t` is `s` after mkdir linked cluster `n` as `name`: only the first free slot changes. */
  ghost predicate LinkedTo(s: Sector, t: Sector, name: Text, n: nat) {
    && (forall i :: 0 <= i < 16 && FirstFree(s, i) ==> forall k :: 0 <= k < 512 ==>
          t[k] == if 32 * i <= k < 32 * i + 32 then LinkByte(name, n, k - 32 * i, s[k]) else s[k])
    && ((forall i :: 0 <= i < 16 ==> !FirstFree(s, i)) ==> t == s)
  }

  /** `t` is `s` after rm of `name`: the first byte of the first slot named like it, in use or not, becomes 0xE5. */
  ghost predicate Removed(s: Sector, t: Sector, name: Text) {
    && (forall i :: 0 <= i < 16 && NamedLike(s, i, name) && (forall j :: 0 <= j < i ==> !NamedLike(s, j, name)) ==>
          t == s[32 * i := 0xE5])
    && ((forall i :: 0 <= i < 16 ==> !NamedLike(s, i, name)) ==> t == s)
  }

  /** The first sector of a new directory `n` in directory `cwd`. */
  ghost predicate NewDirectory(t: Sector, n: nat, cwd: nat) {
    var up := if cwd == 2 then 0 else cwd;
    forall k :: 0 <= k < 512 ==>
      t[k] == if k == 0 || k == 32 || k == 33 then 46
              else if k < 11 || 33 < k < 43 then 32
              else if k == 11 || k == 43 then 0x10
              else if k == 26 then n % 0x100
              else if k == 27 then n / 0x100 % 0x100
              else if k == 20 then n / 0x1_0000 % 0x100
              else if k == 21 then n / 0x100_0000 % 0x100
              else if k == 58 then up % 0x100
              else if k == 59 then up / 0x100 % 0x100
              else if k == 52 then up / 0x1_0000 % 0x100
              else if k == 53 then up / 0x100_0000 % 0x100
              else 0
  }

  lemma FreeSlotBytes(s: Sector, i: nat)
    requires i < 16
    ensures FirstFree(s, i) <==> FreeSlot(DirOf(s)) == i
  {
    forall j: nat | j < 16
      ensures Live(DirOf(s)[j]) <==> s[32 * j] != 0 && s[32 * j] != 0xE5
    {
      SlotIs(s, j, []);
    }
    hide Live;
    if FirstFree(s, i) {
      FreeSlotIs(DirOf(s), i);
    }
  }

  lemma SectorFromDir(s: Sector, t: Sector)
    requires DirOf(s) == DirOf(t)
    ensures s == t
  {
    hide DirOf, EncodeEntry;
    forall k | 0 <= k < 512
      ensures s[k] == t[k]
    {
      SlotBytes(s, k / 32, k % 32);
      SlotBytes(t, k / 32, k % 32);
      assert k == 32 * (k / 32) + k % 32;
    }
  }

  /**
   A sector in which one slot was replaced: the bytes of that slot are those of the entry, the others are as
   before.
   */
  lemma OneSlot(s: Sector, t: Sector, i: nat, e: Entry, k: nat)
    requires i < 16 && k < 512 && DirOf(t) == DirOf(s)[i := e]
    ensures k < 32 * i || k >= 32 * i + 32 ==> t[k] == s[k]
    ensures 32 * i <= k < 32 * i + 32 ==>
              t[k] == EncodeEntry(e)[k - 32 * i] && s[k] == EncodeEntry(DirOf(s)[i])[k - 32 * i]
  {
    hide DirOf, EncodeEntry;
    var j, m := k / 32, k % 32;
    assert k == 32 * j + m;
    SlotBytes(s, j, m);
    SlotBytes(t, j, m);
  }

  lemma TouchedByte(s: Sector, t: Sector, name: Text, i: nat, k: nat)
    requires i < 16 && k < 512 && DirOf(t) == DirOf(s)[i := FileEntry(DirOf(s)[i], name)]
    ensures t[k] == if 32 * i <= k < 32 * i + 32 then TouchByte(name, k - 32 * i, s[k]) else s[k]
  {
    hide DirOf, EncodeEntry, StoredName;
    var e := FileEntry(DirOf(s)[i], name);
    OneSlot(s, t, i, e, k);
    if 32 * i <= k < 32 * i + 32 {
      EncodedBytes(e, k - 32 * i);
      EncodedBytes(DirOf(s)[i], k - 32 * i);
      if k < 32 * i + 11 {
        StoredNameBytes(name, k - 32 * i);
      }
    }
  }

  /** Touch, byte by byte. */
  lemma TouchWrites(s: Sector, t: Sector, name: Text)
    requires DirOf(t) == AfterTouch(DirOf(s), name)
    ensures Touched(s, t, name)
  {
    hide DirOf, FreeSlot, FirstFree, FileEntry;
    var i := FreeSlot(DirOf(s));
    forall j: nat | j < 16
      ensures FirstFree(s, j) <==> i == j
    {
      FreeSlotBytes(s, j);
    }
    if i < SLOTS {
      assert DirOf(t) == DirOf(s)[i := FileEntry(DirOf(s)[i], name)];
      forall k: nat | k < 512 {
        TouchedByte(s, t, name, i, k);
      }
      assert FirstFree(s, i);
    } else {
      SectorFromDir(s, t);
      assert t == s;
    }
  }

  lemma LinkedByte(s: Sector, t: Sector, name: Text, n: nat, i: nat, k: nat)
    requires i < 16 && k < 512 && n < 0x1_0000_0000 && DirOf(t) == DirOf(s)[i := DirectoryEntry(DirOf(s)[i], name, n)]
    ensures t[k] == if 32 * i <= k < 32 * i + 32 then LinkByte(name, n, k - 32 * i, s[k]) else s[k]
  {
    hide DirOf, EncodeEntry, StoredName;
    var e := DirectoryEntry(DirOf(s)[i], name, n);
    OneSlot(s, t, i, e, k);
    if 32 * i <= k < 32 * i + 32 {
      EncodedBytes(e, k - 32 * i);
      EncodedBytes(DirOf(s)[i], k - 32 * i);
      ClusterParts(n);
      if k < 32 * i + 11 {
        StoredNameBytes(name, k - 32 * i);
      }
    }
  }

  lemma ClusterParts(n: nat)
    requires n < 0x1_0000_0000
    ensures n % 0x1_0000 % 0x100 == n % 0x100 && n % 0x1_0000 / 0x100 == n / 0x100 % 0x100
    ensures n / 0x1_0000 % 0x1_0000 == n / 0x1_0000 && n / 0x1_0000 / 0x100 == n / 0x100_0000 % 0x100
  {
    DivTwice(n);
  }

  /** The link of mkdir, byte by byte. */
  lemma LinkWrites(s: Sector, t: Sector, name: Text, n: nat)
    requires var i := FreeSlot(DirOf(s)); i < SLOTS && DirOf(t) == DirOf(s)[i := DirectoryEntry(DirOf(s)[i], name, n)]
    requires n < 0x1_0000_0000
    ensures LinkedTo(s, t, name, n)
  {
    hide DirOf, FreeSlot, FirstFree, DirectoryEntry;
    var i := FreeSlot(DirOf(s));
    forall j: nat | j < 16
      ensures FirstFree(s, j) <==> i == j
    {
      FreeSlotBytes(s, j);
    }
    forall k: nat | k < 512 {
      LinkedByte(s, t, name, n, i, k);
    }
    assert FirstFree(s, i);
  }

  /** Rm, byte by byte. */
  lemma RmWrites(s: Sector, t: Sector, name: Text)
    requires DirOf(t) == AfterRm(DirOf(s), name)
    ensures Removed(s, t, name)
  {
    hide DirOf, MatchSlot, Matches, NamedLike;
    var i := MatchSlot(DirOf(s), name);
    MatchSlotLeast(DirOf(s), name);
    forall j: nat | j < 16
      ensures NamedLike(s, j, name) <==> Matches(name, DirOf(s)[j])
    {
      SlotIs(s, j, name);
    }
    if i < SLOTS {
      DeletedBytes(s, t, i);
    } else {
      SectorFromDir(s, t);
    }
  }

  lemma DeletedBytes(s: Sector, t: Sector, i: nat)
    requires i < 16 && DirOf(t) == DirOf(s)[i := Deleted(DirOf(s)[i])]
    ensures t == s[32 * i := 0xE5]
  {
    hide DirOf, EncodeEntry;
    var e := Deleted(DirOf(s)[i]);
    forall k: nat | k < 512
      ensures t[k] == s[32 * i := 0xE5][k]
    {
      OneSlot(s, t, i, e, k);
      if 32 * i <= k < 32 * i + 32 {
        EncodedBytes(e, k - 32 * i);
        EncodedBytes(DirOf(s)[i], k - 32 * i);
      }
    }
  }

  lemma ChildByte(t: Sector, n: nat, up: nat, k: nat)
    requires DirOf(t) == ChildDir(n, up) && k < 512 && n < 0x1_0000_0000 && up < 0x1_0000_0000
    ensures t[k] == if k == 0 || k == 32 || k == 33 then 46
                    else if k < 11 || 33 < k < 43 then 32
                    else if k == 11 || k == 43 then 0x10
                    else if k == 26 then n % 0x100
                    else if k == 27 then n / 0x100 % 0x100
                    else if k == 20 then n / 0x1_0000 % 0x100
                    else if k == 21 then n / 0x100_0000 % 0x100
                    else if k == 58 then up % 0x100
                    else if k == 59 then up / 0x100 % 0x100
                    else if k == 52 then up / 0x1_0000 % 0x100
                    else if k == 53 then up / 0x100_0000 % 0x100
                    else 0
  {
    hide DirOf, EncodeEntry;
    var j, m := k / 32, k % 32;
    assert k == 32 * j + m;
    SlotBytes(t, j, m);
    EncodedBytes(DirOf(t)[j], m);
    ClusterParts(n);
    ClusterParts(up);
  }

  /** The new directory of mkdir, byte by byte. */
  lemma ChildWrites(t: Sector, n: nat, cwd: nat)
    requires DirOf(t) == ChildDir(n, ContainerLink(cwd)) && n < 0x1_0000_0000 && cwd < 0x1_0000_0000
    ensures NewDirectory(t, n, cwd)
  {
    hide DirOf, ChildDir;
    forall k: nat | k < 512 {
      ChildByte(t, n, ContainerLink(cwd), k);
    }
  }

  // ----- what a command writes on the disk

  /** Touch on the disk: the sector of the current directory. */
  lemma TouchOnDisk(l: Layout, clusters: nat, before: seq<Sector>, after: seq<Sector>, cwd: nat, name: Text)
    requires Geometry(l, clusters, |before|) && |after| == |before| && 2 <= cwd < clusters
    requires VolumeOf(l, clusters, after) == Touch(VolumeOf(l, clusters, before), cwd, name)
    ensures l.SectorOf(cwd) as int < |before|
    ensures Touched(before[l.SectorOf(cwd)], after[l.SectorOf(cwd)], name)
  {
    hide AfterTouch, Touched;
    DirectoryRead(l, clusters, before, cwd);
    DirectoryRead(l, clusters, after, cwd);
    hide VolumeOf;
    TouchWrites(before[l.SectorOf(cwd)], after[l.SectorOf(cwd)], name);
  }

  /** Rm on the disk: the same sector. */
  lemma RmOnDisk(l: Layout, clusters: nat, before: seq<Sector>, after: seq<Sector>, cwd: nat, name: Text)
    requires Geometry(l, clusters, |before|) && |after| == |before| && 2 <= cwd < clusters
    requires VolumeOf(l, clusters, after) == Rm(VolumeOf(l, clusters, before), cwd, name)
    ensures l.SectorOf(cwd) as int < |before|
    ensures Removed(before[l.SectorOf(cwd)], after[l.SectorOf(cwd)], name)
  {
    hide AfterRm, Removed;
    DirectoryRead(l, clusters, before, cwd);
    DirectoryRead(l, clusters, after, cwd);
    hide VolumeOf;
    RmWrites(before[l.SectorOf(cwd)], after[l.SectorOf(cwd)], name);
  }

  /** The FAT sector of cluster `n` after its cell was set to 0x0FFFFFFF. */
  predicate Chained(s: Sector, t: Sector, n: nat) {
    forall k :: 0 <= k < 512 ==>
      t[k] == if 4 * (n % 128) <= k < 4 * (n % 128) + 3 then 0xFF
              else if k == 4 * (n % 128) + 3 then 0x0F
              else s[k]
  }

  lemma ChainedBytes(s: Sector, t: Sector, n: nat)
    requires forall j :: 0 <= j < 128 ==> CellAt(t, j) == if j == n % 128 then END_OF_CHAIN else CellAt(s, j)
    ensures Chained(s, t, n)
  {
    hide CellAt, SetCell;
    var u := SetCell(s, n % 128, END_OF_CHAIN);
    forall j: nat | j < 128
      ensures CellAt(u, j) == CellAt(t, j)
    {
      SetCellAt(s, n % 128, END_OF_CHAIN, j);
    }
    SectorFromCells(u, t);
    forall k: nat | k < 512 {
      SetCellBytes(s, n % 128, END_OF_CHAIN, k);
    }
  }

  lemma SectorFromCells(s: Sector, t: Sector)
    requires forall j :: 0 <= j < 128 ==> CellAt(s, j) == CellAt(t, j)
    ensures s == t
  {
    forall k | 0 <= k < 512
      ensures s[k] == t[k]
    {
      var j, m := k / 4, k % 4;
      BytesOfWord32(s[4 * j..4 * j + 4]);
      BytesOfWord32(t[4 * j..4 * j + 4]);
      assert CellAt(s, j) == CellAt(t, j);
      assert s[k] == s[4 * j..4 * j + 4][m] && t[k] == t[4 * j..4 * j + 4][m];
    }
  }

  /** The two or three sectors that mkdir writes. */
  ghost predicate Made(l: Layout, clusters: nat, before: seq<Sector>, after: seq<Sector>, cwd: nat, name: Text, n: nat)
    requires Geometry(l, clusters, |before|) && |after| == |before| && 2 <= cwd < clusters && 2 <= n < clusters
  {
    SectorsApart(l, clusters, |before|, cwd, n);
    SectorsApart(l, clusters, |before|, n, cwd);
    && Chained(before[l.fatStart as int + n / 128], after[l.fatStart as int + n / 128], n)
    && NewDirectory(after[l.SectorOf(n)], n, cwd)
    && LinkedTo(before[l.SectorOf(cwd)], after[l.SectorOf(cwd)], name, n)
  }

  /** Mkdir on the disk, when the name is not found and `n` is the first free cluster. */
  lemma MkdirOnDisk(l: Layout, clusters: nat, before: seq<Sector>, after: seq<Sector>, cwd: nat, name: Text)
    requires Geometry(l, clusters, |before|) && |after| == |before| && 2 <= cwd < clusters
    requires var v := VolumeOf(l, clusters, before);
             && VolumeOf(l, clusters, after) == Mkdir(v, cwd, name)
             && FindFile(DirAt(v, cwd), name) == None && FreeCluster(v.fat) != 0 && v.fat[cwd] != 0
    ensures Made(l, clusters, before, after, cwd, name, FreeCluster(VolumeOf(l, clusters, before).fat))
  {
    hide Chained, NewDirectory, LinkedTo, Mkdir, VolumeOf, FindSlot, DirOf, ChildDir, FreeSlot;
    var v := VolumeOf(l, clusters, before);
    var n := FreeCluster(v.fat);
    MkdirDirectories(v, cwd, name);
    SectorsApart(l, clusters, |before|, cwd, n);
    SectorsApart(l, clusters, |before|, n, cwd);
    hide Geometry, FreeCluster;
    DirectoryRead(l, clusters, after, n);
    ChildWrites(after[l.SectorOf(n)], n, cwd);
    MkdirParent(l, clusters, before, after, cwd, name, n);
    MkdirTable(l, clusters, before, after, n);
  }

  lemma MkdirParent(l: Layout, clusters: nat, before: seq<Sector>, after: seq<Sector>, cwd: nat, name: Text, n: nat)
    requires Geometry(l, clusters, |before|) && |after| == |before| && 2 <= cwd < clusters && n < clusters
    requires var d := DirAt(VolumeOf(l, clusters, before), cwd);
             DirAt(VolumeOf(l, clusters, after), cwd) ==
               if FreeSlot(d) == SLOTS then d else d[FreeSlot(d) := DirectoryEntry(d[FreeSlot(d)], name, n)]
    ensures l.SectorOf(cwd) as int < |before| && LinkedTo(before[l.SectorOf(cwd)], after[l.SectorOf(cwd)], name, n)
  {
    hide LinkedTo, VolumeOf, DirOf, FreeSlot;
    DirectoryRead(l, clusters, before, cwd);
    DirectoryRead(l, clusters, after, cwd);
    var s, t := before[l.SectorOf(cwd)], after[l.SectorOf(cwd)];
    if FreeSlot(DirOf(s)) < SLOTS {
      LinkWrites(s, t, name, n);
    } else {
      LinkFails(s, t, name, n);
    }
  }

  lemma MkdirTable(l: Layout, clusters: nat, before: seq<Sector>, after: seq<Sector>, n: nat)
    requires Geometry(l, clusters, |before|) && |after| == |before| && 2 <= n < SCAN_LIMIT
    requires VolumeOf(l, clusters, after).fat == VolumeOf(l, clusters, before).fat[n := END_OF_CHAIN]
    ensures var at := l.fatStart as int + n / 128;
            at < |before| && Chained(before[at], after[at], n)
  {
    hide Chained, VolumeOf, CellAt;
    TableCells(l, clusters, before, n / 128);
    TableCells(l, clusters, after, n / 128);
    var at := l.fatStart as int + n / 128;
    ChainedInTable(before[at], after[at], VolumeOf(l, clusters, before).fat, VolumeOf(l, clusters, after).fat, n);
  }

  lemma ChainedInTable(s: Sector, t: Sector, fat: seq<Word32>, next: seq<Word32>, n: nat)
    requires |fat| >= SCAN_LIMIT && 2 <= n < SCAN_LIMIT && next == fat[n := END_OF_CHAIN]
    requires forall c :: 128 * (n / 128) <= c < 128 * (n / 128) + 128 ==>
               c < |fat| && fat[c] == CellAt(s, c - 128 * (n / 128)) && next[c] == CellAt(t, c - 128 * (n / 128))
    ensures Chained(s, t, n)
  {
    hide CellAt, Chained;
    forall j | 0 <= j < 128
      ensures CellAt(t, j) == if j == n % 128 then END_OF_CHAIN else CellAt(s, j)
    {
      var c := 128 * (n / 128) + j;
      assert fat[c] == CellAt(s, j) && next[c] == CellAt(t, j);
    }
    ChainedBytes(s, t, n);
  }

  lemma MkdirDirectories(v: Vol, cwd: nat, name: Text)
    requires FindFile(DirAt(v, cwd), name) == None && FreeCluster(v.fat) != 0 && cwd < |v.dirs| && v.fat[cwd] != 0
    ensures var d, w, n := DirAt(v, cwd), Mkdir(v, cwd, name), FreeCluster(v.fat);
            && w.fat == v.fat[n := END_OF_CHAIN] && n != cwd && 2 <= n < SCAN_LIMIT <= |v.fat|
            && DirAt(w, n) == ChildDir(n, ContainerLink(cwd))
            && DirAt(w, cwd) == if FreeSlot(d) == SLOTS then d
                                else d[FreeSlot(d) := DirectoryEntry(d[FreeSlot(d)], name, n)]
  {
    hide FindSlot;
  }

  lemma LinkFails(s: Sector, t: Sector, name: Text, n: nat)
    requires FreeSlot(DirOf(s)) == SLOTS && DirOf(t) == DirOf(s)
    ensures LinkedTo(s, t, name, n)
  {
    hide DirOf, FreeSlot, FirstFree;
    forall j: nat | j < 16
      ensures !FirstFree(s, j)
    {
      FreeSlotBytes(s, j);
    }
    SectorFromDir(s, t);
  }
}
