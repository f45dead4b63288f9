/** What lookups, listings and the allocator promise across commands. */
module FatLaws {
  import opened Words
  import opened Sectors
  import opened FatNames
  import opened FatSpec
  import opened FatTree
  import opened FatScans
  import FatPaths

  // ----- listings and lookups agree

  function LiveEntries(d: Dir, i: nat := 0): seq<Entry>
    requires i <= SLOTS
    decreases SLOTS - i
  {
    if i == SLOTS then [] else (if Live(d[i]) then [d[i]] else []) + LiveEntries(d, i + 1)
  }

  /** The first of `entries` that `name` matches. */
  function FirstMatch(entries: seq<Entry>, name: Text): Option<Entry>
    decreases |entries|
  {
    if entries == [] then None
    else if Matches(name, entries[0]) then Some(entries[0])
    else FirstMatch(entries[1..], name)
  }

  lemma {:induction false} NothingAfterZero(d: Dir, i: nat)
    requires i <= SLOTS && forall j :: i <= j < SLOTS ==> !Live(d[j])
    ensures LiveEntries(d, i) == []
    decreases SLOTS - i
  {
    if i < SLOTS {
      NothingAfterZero(d, i + 1);
    }
  }

  lemma {:induction false} LiveEntriesExist(d: Dir, i: nat, j: nat)
    requires i <= j < SLOTS && Live(d[j])
    ensures LiveEntries(d, i) != []
    decreases SLOTS - i
  {
    if i < j {
      LiveEntriesExist(d, i + 1, j);
    }
  }

  ghost predicate ZeroTailFrom(d: Dir, i: nat) {
    forall j, k :: i <= j < k < SLOTS && d[j].name[0] == 0 ==> !Live(d[k])
  }

  lemma ZeroTailLater(d: Dir, i: nat)
    requires i < SLOTS && d[i].name[0] != 0
    ensures ZeroTailFrom(d, i) <==> ZeroTailFrom(d, i + 1)
  {
  }

  lemma {:induction false} ListingFrom(d: Dir, i: nat)
    requires i <= SLOTS
    ensures |Listing(d, i)| <= |LiveEntries(d, i)|
    ensures Listing(d, i) == LiveEntries(d, i) <==> ZeroTailFrom(d, i)
    decreases SLOTS - i
  {
    if i == SLOTS {
    } else if d[i].name[0] == 0 {
      if ZeroTailFrom(d, i) {
        NothingAfterZero(d, i);
      } else {
        var j, k :| i <= j < k < SLOTS && d[j].name[0] == 0 && Live(d[k]);
        LiveEntriesExist(d, i, k);
      }
    } else {
      ListingFrom(d, i + 1);
      ZeroTailLater(d, i);
      var head := if Live(d[i]) then [d[i]] else [];
      assert Listing(d, i) == head + Listing(d, i + 1) && LiveEntries(d, i) == head + LiveEntries(d, i + 1);
      assert Listing(d, i)[|head|..] == Listing(d, i + 1) && LiveEntries(d, i)[|head|..] == LiveEntries(d, i + 1);
    }
  }

  lemma {:induction false} FindFrom(d: Dir, name: Text, i: nat)
    requires i <= FindSlot(d, name)
    ensures FirstMatch(LiveEntries(d, i), name) == FindFile(d, name)
    decreases SLOTS - i
  {
    if i < SLOTS {
      FindSlotLeast(d, name);
      var rest := LiveEntries(d, i + 1);
      if Live(d[i]) {
        assert LiveEntries(d, i)[1..] == rest;
      } else {
        assert LiveEntries(d, i) == rest;
      }
      if i < FindSlot(d, name) {
        FindFrom(d, name, i + 1);
      }
    }
  }

  /**
   ls prints every live entry exactly when no live slot follows a slot never used (which every command
   keeps), and then lookups select the first printed entry that matches.
   */
  lemma ListingAgrees(d: Dir)
    ensures Listing(d) == LiveEntries(d) <==> ZeroTail(d)
    ensures ZeroTail(d) ==> forall name :: FindFile(d, name) == FirstMatch(Listing(d), name)
  {
    hide FindFile, Listing, LiveEntries, FirstMatch;
    ListingFrom(d, 0);
    forall name
      ensures FirstMatch(LiveEntries(d), name) == FindFile(d, name)
    {
      FindFrom(d, name, 0);
    }
  }

  /**
   Over every run from a well-formed state, in every directory of the tree ls prints exactly the live entries,
   and lookups select among them.
   */
  lemma RunListingsAgree(st: State, cmds: seq<Command>, c: nat)
    requires FatPaths.WellFormed(st) && Reached(Run(st, cmds).vol, c)
    ensures var d := DirAt(Run(st, cmds).vol, c);
            Listing(d) == LiveEntries(d) && forall name :: FindFile(d, name) == FirstMatch(Listing(d), name)
  {
    hide Run, Listing, LiveEntries, FindFile, FirstMatch;
    FatPaths.RunKeepsWellFormed(st, cmds);
    ReachedOnVolume(Run(st, cmds).vol, c);
    ListingAgrees(DirAt(Run(st, cmds).vol, c));
  }

  /**
   rm and cat, which do not ask whether a slot is live, select the slot of a lookup unless the name starts with
   the deletion mark; such a name is never found.
   */
  lemma MatchSlotAgrees(d: Dir, name: Text)
    ensures Visible(name) ==> MatchSlot(d, name) == FindSlot(d, name)
    ensures !Visible(name) ==> FindSlot(d, name) == SLOTS && AfterRm(d, name) == d
  {
    var m := MatchSlot(d, name);
    MatchSlotLeast(d, name);
    if Visible(name) {
      if m < SLOTS && !Live(d[m]) {
        MatchesDeleted(name, d[m]);
      }
      FindSlotIs(d, name, m);
    } else {
      forall k | 0 <= k < SLOTS && Matches(name, d[k])
        ensures !Live(d[k]) && Deleted(d[k]) == d[k]
      {
        assert d[k].name[..NAME_SIZE][0] == d[k].name[0] == SearchKey(name)[0];
        assert d[k].name[0 := DELETED] == d[k].name;
      }
      FindSlotIs(d, name, SLOTS);
    }
  }

  // ----- lookups after mkdir

  /** mkdir succeeded in all three writes, into a current directory that has its own cluster. */
  predicate MkdirLinks(v: Vol, cwd: nat, name: Text) {
    MkdirStarts(v, cwd, name) && FreeSlot(DirAt(v, cwd)) < SLOTS && cwd < |v.dirs| && v.fat[cwd] != 0
  }

  /** What mkdir leaves in the current directory and everywhere else. */
  lemma MkdirFrame(v: Vol, cwd: nat, name: Text)
    requires MkdirLinks(v, cwd, name)
    ensures var d, w, n := DirAt(v, cwd), Mkdir(v, cwd, name), FreeCluster(v.fat);
            && DirAt(w, cwd) == d[FreeSlot(d) := NewLink(v, d, name)]
            && DirAt(w, n) == ChildDir(n, ContainerLink(cwd))
            && (forall c :: c != cwd && c != n ==> DirAt(w, c) == DirAt(v, c))
            && (forall c :: 0 <= c < |v.fat| && c != n ==> w.fat[c] == v.fat[c])
            && w.fat[n] == END_OF_CHAIN
  {
  }

  /** What a lookup selects after an entry was stored over a slot that held no live entry. */
  lemma FindAfterStore(d: Dir, i: nat, e: Entry, name: Text)
    requires i < SLOTS && !Live(d[i])
    ensures FindFile(d[i := e], name) ==
              if Live(e) && Matches(name, e) && i < FindSlot(d, name) then Some(e) else FindFile(d, name)
  {
    hide FindSlot, Matches;
    var d' := d[i := e];
    var f := FindSlot(d, name);
    FindSlotLeast(d, name);
    assert forall k :: 0 <= k < SLOTS && k != i ==> d'[k] == d[k];
    if Live(e) && Matches(name, e) && i < f {
      FindSlotIs(d', name, i);
    } else {
      assert f != i;
      FindSlotIs(d', name, f);
    }
  }

  /** What mkdir leaves in the current directory when it does not link anything there. */
  lemma MkdirUnlinked(v: Vol, cwd: nat, name: Text)
    requires cwd < |v.dirs| && v.fat[cwd] != 0 && !MkdirLinks(v, cwd, name)
    ensures DirAt(Mkdir(v, cwd, name), cwd) == DirAt(v, cwd)
  {
  }

  /**
   The law of lookups after mkdir, for every name: the name leads to the cluster just allocated exactly when
   mkdir linked it and it is storable; otherwise the lookup gives what it gave before. So does every lookup of
   a name with another search key.
   */
  lemma MkdirThenFind(v: Vol, cwd: nat, name: Text)
    requires cwd < |v.dirs| && v.fat[cwd] != 0
    ensures var d, w := DirAt(v, cwd), Mkdir(v, cwd, name);
            var found := MkdirLinks(v, cwd, name) && Storable(name);
            && FindFile(DirAt(w, cwd), name) == (if found then Some(NewLink(v, d, name)) else FindFile(d, name))
            && Enter(w, cwd, name) == (if found then Some(FreeCluster(v.fat)) else Enter(v, cwd, name))
            && (found ==> FindFile(DirAt(w, cwd), name).value.fileSize == 0)
            && (forall other :: SearchKey(other) != StoredName(name)[..NAME_SIZE]
                  ==> FindFile(DirAt(w, cwd), other) == FindFile(d, other))
  {
    hide Mkdir, FindSlot, SearchKey, FreeCluster;
    var d := DirAt(v, cwd);
    if !MkdirLinks(v, cwd, name) {
      MkdirUnlinked(v, cwd, name);
    } else {
      var i, e := FreeSlot(d), NewLink(v, DirAt(v, cwd), name);
      MkdirFrame(v, cwd, name);
      StoredNameMatches(name);
      StoredNameLive(name, e);
      FindAfterStore(d, i, e, name);
      ClusterOfWithCluster(d[i].(name := StoredName(name), attributes := DIRECTORY, fileSize := 0), FreeCluster(v.fat));
      forall other | SearchKey(other) != StoredName(name)[..NAME_SIZE]
        ensures FindFile(DirAt(Mkdir(v, cwd, name), cwd), other) == FindFile(d, other)
      {
        FindAfterStore(d, i, e, other);
      }
    }
  }

  /** The law of lookups after touch within one directory, whether or not the name was there. */
  lemma FindAfterTouch(d: Dir, name: Text)
    ensures FindFile(AfterTouch(d, name), name) ==
              if Storable(name) && FreeSlot(d) < FindSlot(d, name) then Some(FileEntry(d[FreeSlot(d)], name))
              else FindFile(d, name)
    ensures forall other :: SearchKey(other) != StoredName(name)[..NAME_SIZE] ==>
              FindFile(AfterTouch(d, name), other) == FindFile(d, other)
  {
    hide FindSlot, SearchKey;
    var i, f := FreeSlot(d), FindSlot(d, name);
    if i < SLOTS {
      var e := FileEntry(d[i], name);
      StoredNameMatches(name);
      StoredNameLive(name, e);
      FindAfterStore(d, i, e, name);
      forall other | SearchKey(other) != StoredName(name)[..NAME_SIZE]
        ensures FindFile(d[i := e], other) == FindFile(d, other)
      {
        FindAfterStore(d, i, e, other);
      }
    }
  }

  /**
   The law of lookups after touch: the name leads to the new, empty file exactly when it is storable and the
   first free slot lies before the entry it led to; otherwise, and for every name with another search key, the
   lookup gives what it gave before. No other directory and no FAT cell changes.
   */
  lemma TouchThenFind(v: Vol, cwd: nat, name: Text)
    requires cwd < |v.dirs|
    ensures var d, w := DirAt(v, cwd), Touch(v, cwd, name);
            var found := Storable(name) && FreeSlot(d) < FindSlot(d, name);
            && FindFile(DirAt(w, cwd), name) ==
                 (if found then Some(FileEntry(d[FreeSlot(d)], name)) else FindFile(d, name))
            && (found ==> var e := FindFile(DirAt(w, cwd), name).value;
                          !IsDirectory(e) && ClusterOf(e) == 0 && e.fileSize == 0)
            && (forall other :: SearchKey(other) != StoredName(name)[..NAME_SIZE]
                  ==> FindFile(DirAt(w, cwd), other) == FindFile(d, other))
            && w.fat == v.fat && (forall c :: c != cwd ==> DirAt(w, c) == DirAt(v, c))
  {
    hide FindSlot, SearchKey, AfterTouch, FindFile;
    FindAfterTouch(DirAt(v, cwd), name);
  }

  /** Names that differ only in case are the same name to every lookup and every command. */
  lemma CaseFinds(d: Dir, a: Text, b: Text)
    requires SameLetters(a, b)
    ensures FindFile(d, a) == FindFile(d, b)
    ensures AfterTouch(d, a) == AfterTouch(d, b) && AfterRm(d, a) == AfterRm(d, b)
  {
    hide SearchKey, StoredName, FreeSlot, FindSlot, MatchSlot, SameLetters;
    CaseIgnored(a, b);
    FindSlotLeast(d, a);
    FindSlotIs(d, b, FindSlot(d, a));
    MatchSlotLeast(d, a);
    MatchSlotIs(d, b, MatchSlot(d, a));
  }

  /** After touch of a storable name that no lookup found, every case variant of it leads to the new, empty file. */
  lemma TouchThenFindCase(v: Vol, cwd: nat, name: Text, other: Text)
    requires cwd < |v.dirs| && Storable(name) && SameLetters(name, other)
    requires FindFile(DirAt(v, cwd), name) == None && FreeSlot(DirAt(v, cwd)) < SLOTS
    ensures var d := DirAt(v, cwd);
            var found := FindFile(DirAt(Touch(v, cwd, name), cwd), other);
            && found == Some(FileEntry(d[FreeSlot(d)], name))
            && found.value.attributes == 0x20 && ClusterOf(found.value) == 0 && found.value.fileSize == 0
  {
    hide SearchKey, StoredName, FreeSlot, AfterTouch, FindSlot;
    TouchThenFind(v, cwd, name);
    CaseFinds(DirAt(Touch(v, cwd, name), cwd), name, other);
  }

  /** After a complete mkdir of a storable name, every case variant of it leads to the new directory. */
  lemma MkdirThenFindCase(v: Vol, cwd: nat, name: Text, other: Text)
    requires MkdirLinks(v, cwd, name) && Storable(name) && SameLetters(name, other)
    ensures var w := Mkdir(v, cwd, name);
            && FindFile(DirAt(w, cwd), other) == Some(NewLink(v, DirAt(v, cwd), name))
            && Enter(w, cwd, other) == Some(FreeCluster(v.fat))
  {
    hide SearchKey, StoredName, FreeSlot, FindSlot, Mkdir, FreeCluster;
    MkdirThenFind(v, cwd, name);
    CaseFinds(DirAt(Mkdir(v, cwd, name), cwd), name, other);
  }

  /**
   touch hides a directory of the same name from cd exactly when the name is storable and a slot before it is
   free.
   */
  lemma TouchThenCd(st: State, name: Text)
    requires st.cwd < |st.vol.dirs| && name != UP && name != HERE && CdStep(st, name).Some?
    ensures var d := DirAt(st.vol, st.cwd);
            CdStep(Step(st, TouchCmd(name)), name) == None <==> Storable(name) && FreeSlot(d) < FindSlot(d, name)
  {
    hide FindSlot, FindFile, Touch;
    TouchThenFind(st.vol, st.cwd, name);
  }

  /** In every well-formed state, mkdir of a proper, storable name and cd enter the new directory. */
  lemma MkdirThenCd(st: State, name: Text)
    requires FatPaths.WellFormed(st) && FatPaths.Proper(name) && Storable(name)
    requires MkdirStarts(st.vol, st.cwd, name) && FreeSlot(DirAt(st.vol, st.cwd)) < SLOTS
    ensures var made := Step(st, MkdirCmd(name));
            var child := made.(cwd := FreeCluster(st.vol.fat), path := PushPath(st.path, name));
            CdStep(made, name) == Some(child) && FatPaths.WellFormed(made) && FatPaths.WellFormed(child)
    ensures FreeCluster(st.vol.fat) != ROOT
  {
    hide Mkdir, FatPaths.WellFormed, SearchKey, FindSlot;
    FatPaths.WellFormedCells(st);
    MkdirThenFind(st.vol, st.cwd, name);
    FatPaths.MkdirKeeps(st, name);
    FatPaths.CdStepKeeps(Step(st, MkdirCmd(name)), name);
  }

  lemma CdOfName(st: State, name: Text)
    requires name != [] && SLASH !in name
    ensures CdResult(st, name) == CdStep(st, name)
  {
    hide CdStep;
    FatPaths.ComponentsOfName(name);
    assert [name][1..] == [];
    assert CdFold(st, [name]) == CdStep(st, name);
  }

  /**
   A concrete case where ".." fails: on a fresh volume, after mkdir and cd of a one-letter name, "cd .." does
   not lead back to the root.
   */
  lemma UpFailsBelowRoot(v: Vol)
    requires v.fat[ROOT] != 0 && v.dirs[ROOT] == EmptyDir() && FreeCluster(v.fat) != 0
    ensures var made := Step(State(v, ROOT, [SLASH]), MkdirCmd([65]));
            var child := Step(made, CdCmd([65]));
            child.cwd == FreeCluster(v.fat) != ROOT && Step(child, CdCmd(UP)) == child
  {
    hide Mkdir, FatPaths.WellFormed, FreeCluster, CdStep, CdResult, FindSlot;
    var letter: Text := [65];
    var st := State(v, ROOT, [SLASH]);
    FatPaths.FreshVolumeWellFormed(v);
    FindSlotIs(EmptyDir(), letter, SLOTS);
    MkdirThenCd(st, letter);
    var made := Step(st, MkdirCmd(letter));
    CdOfName(made, letter);
    FatPaths.EnterThenUp(made, letter);
    CdOfName(CdStep(made, letter).value, UP);
  }

  // ----- unique names

  ghost predicate UniqueNames(d: Dir) {
    forall i, j :: 0 <= i < j < SLOTS && Live(d[i]) && Live(d[j]) ==> d[i].name[..NAME_SIZE] != d[j].name[..NAME_SIZE]
  }

  ghost predicate Taken(d: Dir, field: Name11) {
    exists k :: 0 <= k < SLOTS && Live(d[k]) && d[k].name[..NAME_SIZE] == field[..NAME_SIZE]
  }

  /** Filling a slot without a live entry keeps names unique exactly when the new entry is dead or its name is new. */
  lemma StoreUnique(d: Dir, i: nat, e: Entry)
    requires i < SLOTS && !Live(d[i]) && UniqueNames(d)
    ensures UniqueNames(d[i := e]) <==> !(Live(e) && Taken(d, e.name))
  {
    var d' := d[i := e];
    if Live(e) && Taken(d, e.name) {
      var k :| 0 <= k < SLOTS && Live(d[k]) && d[k].name[..NAME_SIZE] == e.name[..NAME_SIZE];
      assert d'[k] == d[k] && d'[i] == e;
      assert k < i || i < k;
    }
  }

  /** For a name without line breaks, its stored form is in the directory exactly when a lookup finds the name. */
  lemma TakenIsFound(d: Dir, name: Text)
    requires Plain(name)
    ensures Taken(d, StoredName(name)) <==> FindSlot(d, name) < SLOTS
  {
    hide FindSlot, SearchKey, StoredName;
    StoredNameMatches(name);
    FindSlotLeast(d, name);
  }

  /**
   Names stay unique over mkdir exactly when the stored name was not there, which its lookup guarantees for a
   name without line breaks.
   */
  lemma MkdirKeepsUnique(v: Vol, cwd: nat, name: Text)
    requires MkdirLinks(v, cwd, name) && UniqueNames(DirAt(v, cwd))
    ensures UniqueNames(DirAt(Mkdir(v, cwd, name), cwd)) <==> !(Visible(name) && Taken(DirAt(v, cwd), StoredName(name)))
    ensures Plain(name) ==> UniqueNames(DirAt(Mkdir(v, cwd, name), cwd))
  {
    hide Mkdir, FindSlot, SearchKey, FreeCluster, UniqueNames, StoredName;
    var d := DirAt(v, cwd);
    var i, e := FreeSlot(d), NewLink(v, DirAt(v, cwd), name);
    MkdirFrame(v, cwd, name);
    StoreUnique(d, i, e);
    StoredNameMatches(name);
    StoredNameLive(name, e);
    FindSlotLeast(d, name);
  }

  /** touch has no check: names stay unique exactly when the name is hidden or its stored form was not there. */
  lemma TouchKeepsUnique(v: Vol, cwd: nat, name: Text)
    requires cwd < |v.dirs| && FreeSlot(DirAt(v, cwd)) < SLOTS && UniqueNames(DirAt(v, cwd))
    ensures UniqueNames(DirAt(Touch(v, cwd, name), cwd)) <==> !(Visible(name) && Taken(DirAt(v, cwd), StoredName(name)))
    ensures Storable(name) ==>
              (UniqueNames(DirAt(Touch(v, cwd, name), cwd)) <==> FindSlot(DirAt(v, cwd), name) == SLOTS)
  {
    hide UniqueNames, StoredName, FindSlot, Taken;
    var d := DirAt(v, cwd);
    var i := FreeSlot(d);
    var e := FileEntry(d[i], name);
    assert DirAt(Touch(v, cwd, name), cwd) == d[i := e];
    StoreUnique(d, i, e);
    StoredNameLive(name, e);
    if Plain(name) {
      TakenIsFound(d, name);
    }
  }

  /**
   The failing family is not empty: a lookup misses a directory called by a lone line feed, and a second mkdir
   stores the name again.
   */
  lemma LineFeedTwice(v: Vol, cwd: nat)
    requires MkdirLinks(v, cwd, [LF]) && UniqueNames(DirAt(v, cwd))
    requires var w := Mkdir(v, cwd, [LF]); FreeCluster(w.fat) != 0 && FreeSlot(DirAt(w, cwd)) < SLOTS
    ensures var w := Mkdir(v, cwd, [LF]);
            MkdirLinks(w, cwd, [LF]) && !UniqueNames(DirAt(Mkdir(w, cwd, [LF]), cwd))
  {
    var d, w := DirAt(v, cwd), Mkdir(v, cwd, [LF]);
    var i, e := FreeSlot(d), NewLink(v, DirAt(v, cwd), [LF]);
    assert !Plain([LF]) by {
      assert Cut([LF], WRITE_STOPS) == 1;
    }
    MkdirThenFind(v, cwd, [LF]);
    MkdirFrame(v, cwd, [LF]);
    StoredNameLive([LF], e);
    if UniqueNames(DirAt(w, cwd)) {
      MkdirKeepsUnique(w, cwd, [LF]);
      assert DirAt(w, cwd)[i] == e;
    } else {
      StillShared(DirAt(w, cwd), FreeSlot(DirAt(w, cwd)), NewLink(w, DirAt(w, cwd), [LF]));
      MkdirFrame(w, cwd, [LF]);
    }
  }

  /** Filling a slot without a live entry does not make names unique again. */
  lemma StillShared(d: Dir, i: nat, e: Entry)
    requires i < SLOTS && !Live(d[i]) && !UniqueNames(d)
    ensures !UniqueNames(d[i := e])
  {
    var a, b :| 0 <= a < b < SLOTS && Live(d[a]) && Live(d[b]) && d[a].name[..NAME_SIZE] == d[b].name[..NAME_SIZE];
    assert d[i := e][a] == d[a] && d[i := e][b] == d[b];
  }

  /**
   The law of rm, for every directory and name: the name is not found any more exactly when no later live slot
   matches it.
   */
  lemma RmThenFind(d: Dir, name: Text)
    ensures FindFile(AfterRm(d, name), name) == None <==>
              forall k :: FindSlot(d, name) < k < SLOTS ==> !(Live(d[k]) && Matches(name, d[k]))
    ensures UniqueNames(d) ==> FindFile(AfterRm(d, name), name) == None
  {
    hide FindSlot, MatchSlot, SearchKey;
    var i := FindSlot(d, name);
    MatchSlotAgrees(d, name);
    FindSlotLeast(d, name);
    if i < SLOTS {
      RmKeepsLater(d, name, i);
    }
  }

  /** After rm of the name found in slot `i`, its lookup is a lookup among the slots behind `i`. */
  lemma RmKeepsLater(d: Dir, name: Text, i: nat)
    requires i == FindSlot(d, name) < SLOTS
    ensures FindFile(d[i := Deleted(d[i])], name) == None <==>
              forall k :: i < k < SLOTS ==> !(Live(d[k]) && Matches(name, d[k]))
    ensures UniqueNames(d) ==> forall k :: i < k < SLOTS ==> !(Live(d[k]) && Matches(name, d[k]))
  {
    hide FindSlot, SearchKey;
    var d' := d[i := Deleted(d[i])];
    FindSlotLeast(d, name);
    FindSlotLeast(d', name);
    assert !Live(d'[i]) && forall k :: 0 <= k < SLOTS && k != i ==> d'[k] == d[k];
    if forall k :: i < k < SLOTS ==> !(Live(d[k]) && Matches(name, d[k])) {
      forall k | 0 <= k < SLOTS
        ensures !(Live(d'[k]) && Matches(name, d'[k]))
      {
      }
      FindSlotIs(d', name, SLOTS);
    }
  }

  /** Lookups of names with another search key are not affected by rm. */
  lemma RmThenFindOther(d: Dir, name: Text, other: Text)
    requires SearchKey(other) != SearchKey(name)
    ensures FindFile(AfterRm(d, name), other) == FindFile(d, other)
  {
    hide FindSlot, MatchSlot, SearchKey;
    MatchSlotAgrees(d, name);
    var i, f := FindSlot(d, name), FindSlot(d, other);
    if i < SLOTS {
      FindSlotLeast(d, name);
      FindSlotLeast(d, other);
      var d' := d[i := Deleted(d[i])];
      assert forall k :: 0 <= k < SLOTS && k != i ==> d'[k] == d[k];
      FindSlotIs(d', other, f);
    }
  }

  // ----- the allocator over runs

  /** The clusters handed out over a run, in order. A full parent directory does not give its cluster back. */
  function Allocations(st: State, cmds: seq<Command>): seq<nat>
    decreases |cmds|
  {
    if cmds == [] then []
    else
      (if cmds[0].MkdirCmd? && MkdirStarts(st.vol, st.cwd, cmds[0].name) then [FreeCluster(st.vol.fat)] else [])
      + Allocations(Step(st, cmds[0]), cmds[1..])
  }

  /** The number of zero cells from cluster `c` to the limit of the scan. */
  function ZeroCells(fat: seq<Word32>, c: nat := ROOT): nat
    requires |fat| >= SCAN_LIMIT && c <= SCAN_LIMIT
    decreases SCAN_LIMIT - c
  {
    if c == SCAN_LIMIT then 0 else (if fat[c] == 0 then 1 else 0) + ZeroCells(fat, c + 1)
  }

  lemma {:induction false} ZeroCellsAfterClaim(fat: seq<Word32>, n: nat, x: Word32, c: nat)
    requires |fat| >= SCAN_LIMIT && c <= SCAN_LIMIT && n < SCAN_LIMIT && fat[n] == 0 && x != 0
    ensures ZeroCells(fat[n := x], c) == ZeroCells(fat, c) - (if c <= n then 1 else 0)
    decreases SCAN_LIMIT - c
  {
    if c < SCAN_LIMIT {
      ZeroCellsAfterClaim(fat, n, x, c + 1);
    }
  }

  /**
   The FAT after one command: mkdir that gets past its checks claims the least free cell; nothing else writes a
   cell.
   */
  lemma StepFat(st: State, cmd: Command)
    ensures Step(st, cmd).vol.fat ==
              if cmd.MkdirCmd? && MkdirStarts(st.vol, st.cwd, cmd.name)
              then st.vol.fat[FreeCluster(st.vol.fat) := END_OF_CHAIN] else st.vol.fat
  {
    match cmd
    case CdCmd(arg) =>
      CdFoldVolume(CdStart(st, arg), Components(arg));
    case _ =>
  }

  lemma {:induction false} CdFoldVolume(st: State, names: seq<Text>)
    ensures CdFold(st, names).Some? ==> CdFold(st, names).value.vol == st.vol
    decreases |names|
  {
    if names != [] && CdStep(st, names[0]).Some? {
      CdFoldVolume(CdStep(st, names[0]).value, names[1..]);
    }
  }

  /**
   `all` are clusters that were free in `before`, in increasing order, and are the only cells that differ in
   `after`.
   */
  ghost predicate HandedOut(before: seq<Word32>, all: seq<nat>, after: seq<Word32>)
    requires |before| >= SCAN_LIMIT
  {
    && |after| == |before|
    && (forall i :: 0 <= i < |all| ==> ROOT <= all[i] < SCAN_LIMIT && before[all[i]] == 0)
    && (forall i, j :: 0 <= i < j < |all| ==> all[i] < all[j])
    && (forall c :: 0 <= c < |before| ==> after[c] == if c in all then END_OF_CHAIN else before[c])
    && ZeroCells(after) + |all| == ZeroCells(before)
  }

  lemma HandedOutOneMore(before: seq<Word32>, rest: seq<nat>, after: seq<Word32>)
    requires |before| >= SCAN_LIMIT && FreeCluster(before) != 0
    requires HandedOut(before[FreeCluster(before) := END_OF_CHAIN], rest, after)
    ensures HandedOut(before, [FreeCluster(before)] + rest, after)
  {
    hide ZeroCells;
    var n := FreeCluster(before);
    FreeClusterFirst(before);
    OneMore(before, n, rest, after);
  }

  lemma FreeClusterFirst(fat: seq<Word32>)
    requires |fat| >= SCAN_LIMIT && FreeCluster(fat) != 0
    ensures var n := FreeCluster(fat);
            ROOT <= n < SCAN_LIMIT && fat[n] == 0 && forall c :: ROOT <= c < SCAN_LIMIT && fat[c] == 0 ==> n <= c
  {
    assert forall c :: ROOT <= c < FreeCluster(fat) ==> fat[c] != 0;
  }

  lemma OneMore(before: seq<Word32>, n: nat, rest: seq<nat>, after: seq<Word32>)
    requires |before| >= SCAN_LIMIT && ROOT <= n < SCAN_LIMIT && before[n] == 0
    requires forall c :: ROOT <= c < SCAN_LIMIT && before[c] == 0 ==> n <= c
    requires HandedOut(before[n := END_OF_CHAIN], rest, after)
    ensures HandedOut(before, [n] + rest, after)
  {
    hide ZeroCells;
    var claimed := before[n := END_OF_CHAIN];
    var all := [n] + rest;
    ZeroCellsAfterClaim(before, n, END_OF_CHAIN, ROOT);
    forall i | 0 <= i < |rest|
      ensures n < rest[i] < SCAN_LIMIT && before[rest[i]] == 0
    {
      assert claimed[rest[i]] == 0;
    }
    forall c | 0 <= c < |before|
      ensures after[c] == if c in all then END_OF_CHAIN else before[c]
    {
      assert c in all <==> c == n || c in rest;
      assert after[c] == if c in rest then END_OF_CHAIN else claimed[c];
    }
  }

  /**
   Over every run, from any state: the clusters handed out strictly increase, each was free at the start and
   is taken at the end, no cell is ever cleared, and the zero cells lost are exactly the clusters handed out.
   */
  lemma {:induction false} AllocationLaw(st: State, cmds: seq<Command>)
    ensures HandedOut(st.vol.fat, Allocations(st, cmds), Run(st, cmds).vol.fat)
    decreases |cmds|
  {
    if cmds != [] {
      var next := Step(st, cmds[0]);
      var rest := Allocations(next, cmds[1..]);
      StepFat(st, cmds[0]);
      AllocationLaw(next, cmds[1..]);
      if cmds[0].MkdirCmd? && MkdirStarts(st.vol, st.cwd, cmds[0].name) {
        HandedOutOneMore(st.vol.fat, rest, Run(st, cmds).vol.fat);
      } else {
        assert Allocations(st, cmds) == rest;
      }
    }
  }

  /** The current directories of a run. */
  function Visited(st: State, cmds: seq<Command>): set<nat>
    decreases |cmds|
  {
    {st.cwd} + if cmds == [] then {} else Visited(Step(st, cmds[0]), cmds[1..])
  }

  lemma StepKeepsSector(st: State, cmd: Command, c: nat)
    requires c < |st.vol.dirs| && st.vol.fat[c] != 0 && c != st.cwd
    ensures c < |Step(st, cmd).vol.dirs| && Step(st, cmd).vol.dirs[c] == st.vol.dirs[c]
  {
    match cmd
    case MkdirCmd(name) => MkdirKeepsSector(st.vol, st.cwd, name, c);
    case TouchCmd(name) =>
    case RmCmd(name) =>
    case CdCmd(arg) => CdFoldVolume(CdStart(st, arg), Components(arg));
  }

  lemma MkdirKeepsSector(v: Vol, cwd: nat, name: Text, c: nat)
    requires c < |v.dirs| && v.fat[c] != 0 && c != cwd
    ensures Mkdir(v, cwd, name).dirs[c] == v.dirs[c]
  {
  }

  /**
   Over every run, from any state: the sector of a cluster in use is written only while its cluster is the
   current directory.
   */
  lemma {:induction false} RunKeepsSectors(st: State, cmds: seq<Command>, c: nat)
    requires c < |st.vol.dirs| && st.vol.fat[c] != 0 && c !in Visited(st, cmds)
    ensures c < |Run(st, cmds).vol.dirs| && Run(st, cmds).vol.dirs[c] == st.vol.dirs[c]
    decreases |cmds|
  {
    if cmds != [] {
      StepFat(st, cmds[0]);
      StepKeepsSector(st, cmds[0], c);
      RunKeepsSectors(Step(st, cmds[0]), cmds[1..], c);
    }
  }
}
