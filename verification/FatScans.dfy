/** The loops over the sixteen slots of a directory buffer and the 128 cells of a FAT buffer. */
module FatScans {
  import opened Words
  import opened Sectors
  import opened FatNames
  import opened FatSpec

  lemma FindSlotIs(d: Dir, name: Text, r: nat)
    requires r <= SLOTS
    requires forall k :: 0 <= k < r ==> !(Live(d[k]) && Matches(name, d[k]))
    requires r < SLOTS ==> Live(d[r]) && Matches(name, d[r])
    ensures FindSlot(d, name) == r
  {
    FindSlotLeast(d, name);
  }

  lemma MatchSlotIs(d: Dir, name: Text, r: nat)
    requires r <= SLOTS
    requires forall k :: 0 <= k < r ==> !Matches(name, d[k])
    requires r < SLOTS ==> Matches(name, d[r])
    ensures MatchSlot(d, name) == r
  {
    MatchSlotLeast(d, name);
  }

  lemma FreeSlotIs(d: Dir, r: nat)
    requires r <= SLOTS
    requires forall k :: 0 <= k < r ==> Live(d[k])
    requires r < SLOTS ==> !Live(d[r])
    ensures FreeSlot(d) == r
  {
    var m := FreeSlot(d);
    assert m < SLOTS ==> !Live(d[m]);
  }

  lemma FreeClusterIs(fat: seq<Word32>, r: nat)
    requires |fat| >= SCAN_LIMIT && (r == 0 || (ROOT <= r < SCAN_LIMIT && fat[r] == 0))
    requires forall k :: ROOT <= k < (if r == 0 then SCAN_LIMIT else r) ==> fat[k] != 0
    ensures FreeCluster(fat) == r
  {
    var m := FreeCluster(fat);
    assert m != 0 ==> fat[m] == 0;
  }

  /** The loop of fat32_find_file. */
  method ScanLive(entries: Dir, name: Text) returns (i: nat)
    ensures i == FindSlot(entries, name)
  {
    i := 0;
    while i < SLOTS
      invariant i <= SLOTS
      invariant forall k :: 0 <= k < i ==> !(Live(entries[k]) && Matches(name, entries[k]))
    {
      var first := entries[i].name[0];
      if first != 0 && first != DELETED {
        var same := NameMatch(name, entries[i].name);
        if same {
          break;
        }
      }
      i := i + 1;
    }
    FindSlotIs(entries, name, i);
  }

  /** The loop of fat32_rm and fat32_cat. */
  method ScanMatch(entries: Dir, name: Text) returns (i: nat)
    ensures i == MatchSlot(entries, name)
  {
    i := 0;
    while i < SLOTS
      invariant i <= SLOTS
      invariant forall k :: 0 <= k < i ==> !Matches(name, entries[k])
    {
      var same := NameMatch(name, entries[i].name);
      if same {
        break;
      }
      i := i + 1;
    }
    MatchSlotIs(entries, name, i);
  }

  /** The loop of fat32_mkdir and fat32_touch. */
  method ScanFree(entries: Dir) returns (i: nat)
    ensures i == FreeSlot(entries)
  {
    i := 0;
    while i < SLOTS
      invariant i <= SLOTS
      invariant forall k :: 0 <= k < i ==> Live(entries[k])
    {
      if entries[i].name[0] == 0 || entries[i].name[0] == DELETED {
        break;
      }
      i := i + 1;
    }
    FreeSlotIs(entries, i);
  }

  /** One iteration of ls. */
  lemma ListingStep(d: Dir, i: nat, printed: seq<Entry>)
    requires i < SLOTS && d[i].name[0] != 0
    ensures var next := if d[i].name[0] == DELETED then printed else printed + [d[i]];
            printed + Listing(d, i) == next + Listing(d, i + 1)
  {
  }

  /** The loop of fat32_ls: the entries printed. */
  method ScanListing(entries: Dir) returns (printed: seq<Entry>)
    ensures printed == Listing(entries)
  {
    printed := [];
    var i := 0;
    while i < SLOTS
      invariant 0 <= i <= SLOTS
      invariant Listing(entries) == printed + Listing(entries, i)
    {
      var e := entries[i];
      if e.name[0] == 0 {
        break;
      }
      ListingStep(entries, i, printed);
      i := i + 1;
      if e.name[0] == DELETED {
        continue;
      }
      printed := printed + [e];
    }
  }

  /**
   The inner loop of fat32_find_free_cluster: the first zero cell of the table that stands for a cluster from 2
   on.
   */
  method ScanCells(table: Sector, first: nat) returns (j: nat)
    ensures j <= CELLS_PER_SECTOR
    ensures forall k :: 0 <= k < j ==> first + k < ROOT || CellAt(table, k) != 0
    ensures j < CELLS_PER_SECTOR ==> CellAt(table, j) == 0 && first + j >= ROOT
  {
    j := 0;
    while j < CELLS_PER_SECTOR
      invariant j <= CELLS_PER_SECTOR
      invariant forall k :: 0 <= k < j ==> first + k < ROOT || CellAt(table, k) != 0
    {
      if CellAt(table, j) == 0 {
        var cluster := first + j;
        if cluster >= 2 {
          return;
        }
      }
      j := j + 1;
    }
  }
}
