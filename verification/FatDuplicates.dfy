/** Names that a directory holds twice: how they arise, what they do, and which runs never make one. */
module FatDuplicates {
  import opened Words
  import opened Sectors
  import opened FatNames
  import opened FatSpec
  import opened FatTree
  import opened FatScans
  import opened FatLaws
  import FatPaths

  // ----- cases in which lookups fail their caller

  /** A second touch of a name stores it twice, and rm then leaves one of the two to be found. */
  lemma TouchTwice(d: Dir, name: Text)
    requires Storable(name) && FindSlot(d, name) == SLOTS
    requires FreeSlot(d) < SLOTS && FreeSlot(AfterTouch(d, name)) < SLOTS
    ensures var twice := AfterTouch(AfterTouch(d, name), name);
            !UniqueNames(twice) && FindFile(AfterRm(twice, name), name).Some?
  {
    hide FindSlot, MatchSlot, SearchKey, StoredName, UniqueNames;
    var i := FreeSlot(d);
    var once := AfterTouch(d, name);
    var j := FreeSlot(once);
    var twice := AfterTouch(once, name);
    StoredNameMatches(name);
    StoredNameLive(name, once[i]);
    StoredNameLive(name, twice[j]);
    assert Live(twice[i]) && Live(twice[j]) && Matches(name, twice[i]) && Matches(name, twice[j]);
    assert i < j;
    FindSlotLeast(d, name);
    assert forall k :: 0 <= k < i ==> twice[k] == d[k];
    FindSlotIs(twice, name, i);
    RmThenFind(twice, name);
  }

  const LETTER_A: Text := [65]
  const LETTER_B: Text := [66]

  /** So it is on a fresh volume: after touch A, touch A, rm A, a lookup still finds A. */
  lemma RemovedButFound(v: Vol)
    requires v.dirs[ROOT] == EmptyDir()
    ensures var twice := Run(State(v, ROOT, [SLASH]), [TouchCmd(LETTER_A), TouchCmd(LETTER_A)]);
            && !UniqueNames(DirAt(twice.vol, ROOT))
            && FindFile(DirAt(Step(twice, RmCmd(LETTER_A)).vol, ROOT), LETTER_A).Some?
  {
    hide FindSlot, MatchSlot, SearchKey, StoredName, UniqueNames, AfterRm;
    var st := State(v, ROOT, [SLASH]);
    var d := EmptyDir();
    FindSlotIs(d, LETTER_A, SLOTS);
    assert !Live(d[0]) && !Live(AfterTouch(d, LETTER_A)[1]);
    TouchTwice(d, LETTER_A);
    RunTwo(st, TouchCmd(LETTER_A), TouchCmd(LETTER_A));
  }

  /** Slot 0 held B, which is removed; slot 1 holds the directory A, which is found until A is touched. */
  lemma FirstSlotFreed(w: Vol)
    requires DirAt(w, ROOT)[0].name == StoredName(LETTER_B) && Enter(w, ROOT, LETTER_A).Some?
    ensures var freed := Rm(w, ROOT, LETTER_B);
            && Enter(freed, ROOT, LETTER_A).Some?
            && FreeSlot(DirAt(freed, ROOT)) == 0 < FindSlot(DirAt(freed, ROOT), LETTER_A)
  {
    hide FindSlot, MatchSlot, SearchKey, StoredName;
    var d := DirAt(w, ROOT);
    StoredNameMatches(LETTER_B);
    MatchSlotIs(d, LETTER_B, 0);
    DifferentLetters();
    RmThenFindOther(d, LETTER_B, LETTER_A);
    var freed := AfterRm(d, LETTER_B);
    assert freed == d[0 := Deleted(d[0])];
    FreeSlotIs(freed, 0);
    FindSlotLeast(freed, LETTER_A);
  }

  lemma DifferentLetters()
    ensures SearchKey(LETTER_A) != SearchKey(LETTER_B)
    ensures SearchKey(LETTER_A) != StoredName(LETTER_B)[..NAME_SIZE]
    ensures Storable(LETTER_A) && Storable(LETTER_B)
  {
    StoredNameMatches(LETTER_B);
    SearchKeyAt(LETTER_A, 0);
    SearchKeyAt(LETTER_B, 0);
    assert Cut(LETTER_A, MATCH_STOPS) == 1 && Cut(LETTER_B, MATCH_STOPS) == 1;
  }

  /**
   A directory is lost to cd: on a fresh volume, after touch B, mkdir A and rm B, the name A leads to the new
   directory; one touch A later it does not.
   */
  lemma DirectoryHidden(v: Vol)
    requires v.fat[ROOT] != 0 && v.dirs[ROOT] == EmptyDir() && FreeCluster(v.fat) != 0
    ensures var st := State(Rm(Mkdir(Touch(v, ROOT, LETTER_B), ROOT, LETTER_A), ROOT, LETTER_B), ROOT, [SLASH]);
            && Run(State(v, ROOT, [SLASH]), [TouchCmd(LETTER_B), MkdirCmd(LETTER_A), RmCmd(LETTER_B)]) == st
            && CdStep(st, LETTER_A).Some? && CdStep(Step(st, TouchCmd(LETTER_A)), LETTER_A) == None
  {
    hide Mkdir, FindSlot, MatchSlot, SearchKey, FreeCluster, StoredName, Touch, Rm;
    var d := EmptyDir();
    FindSlotIs(d, LETTER_A, SLOTS);
    DifferentLetters();
    var one := Touch(v, ROOT, LETTER_B);
    TouchThenFind(v, ROOT, LETTER_B);
    FirstTouch(v);
    assert FindFile(DirAt(one, ROOT), LETTER_A) == None;
    MkdirThenFind(one, ROOT, LETTER_A);
    MkdirFrame(one, ROOT, LETTER_A);
    var two := Mkdir(one, ROOT, LETTER_A);
    FirstSlotFreed(two);
    var three := Rm(two, ROOT, LETTER_B);
    RunThree(v, LETTER_B, LETTER_A);
    TouchThenCd(State(three, ROOT, [SLASH]), LETTER_A);
  }

  lemma FirstTouch(v: Vol)
    requires v.dirs[ROOT] == EmptyDir()
    ensures var d := DirAt(Touch(v, ROOT, LETTER_B), ROOT);
            d[0].name == StoredName(LETTER_B) && FreeSlot(d) == 1
  {
    hide StoredName;
    FreeSlotIs(EmptyDir(), 0);
    var d := AfterTouch(EmptyDir(), LETTER_B);
    assert d == EmptyDir()[0 := FileEntry(ZeroEntry(), LETTER_B)];
    StoredNameLive(LETTER_B, d[0]);
    FreeSlotIs(d, 1);
  }

  lemma RunTwo(st: State, a: Command, b: Command)
    ensures Run(st, [a, b]) == Step(Step(st, a), b)
  {
    hide Step;
    assert [a, b][1..] == [b] && [b][1..] == [];
    assert Run(Step(st, a), [b]) == Run(Step(Step(st, a), b), []);
  }

  lemma RunThree(v: Vol, b: Text, a: Text)
    ensures Run(State(v, ROOT, [SLASH]), [TouchCmd(b), MkdirCmd(a), RmCmd(b)]) ==
            State(Rm(Mkdir(Touch(v, ROOT, b), ROOT, a), ROOT, b), ROOT, [SLASH])
  {
    hide Mkdir, Touch, Rm;
    var cmds := [TouchCmd(b), MkdirCmd(a), RmCmd(b)];
    assert cmds[1..] == [MkdirCmd(a), RmCmd(b)];
    RunTwo(State(Touch(v, ROOT, b), ROOT, [SLASH]), MkdirCmd(a), RmCmd(b));
  }

  // ----- runs that keep names unique

  ghost predicate AllUnique(v: Vol) {
    forall c :: Reached(v, c) ==> UniqueNames(DirAt(v, c))
  }

  /** The command stores a live entry whose name the current directory already holds. */
  ghost predicate Duplicates(st: State, cmd: Command) {
    var d := DirAt(st.vol, st.cwd);
    match cmd
    case MkdirCmd(name) => MkdirLinks(st.vol, st.cwd, name) && Visible(name) && Taken(d, StoredName(name))
    case TouchCmd(name) => FreeSlot(d) < SLOTS && Visible(name) && Taken(d, StoredName(name))
    case _ => false
  }

  /**
   What a caller can check: mkdir and touch get names without line breaks, and touch only names that a lookup
   misses.
   */
  predicate Careful(st: State, cmd: Command) {
    match cmd
    case MkdirCmd(name) => Plain(name)
    case TouchCmd(name) => Plain(name) && FindFile(DirAt(st.vol, st.cwd), name) == None
    case _ => true
  }

  lemma CarefulIsEnough(st: State, cmd: Command)
    requires Careful(st, cmd)
    ensures !Duplicates(st, cmd)
  {
    hide FindSlot, Taken, StoredName;
    if cmd.MkdirCmd? || cmd.TouchCmd? {
      TakenIsFound(DirAt(st.vol, st.cwd), cmd.name);
    }
  }

  lemma UniqueElsewhere(w: Vol, cwd: nat)
    requires Reached(w, cwd) && forall c :: Reached(w, c) && c != cwd ==> UniqueNames(DirAt(w, c))
    ensures AllUnique(w) <==> UniqueNames(DirAt(w, cwd))
  {
  }

  /** The new directory of mkdir has only its two dot entries, whose names differ. */
  lemma ChildUnique(n: nat, parent: nat)
    ensures UniqueNames(ChildDir(n, parent))
  {
    var d := ChildDir(n, parent);
    assert d[0].name[..NAME_SIZE][1] != d[1].name[..NAME_SIZE][1];
  }

  /** mkdir reaches no cluster that was not reached before but the new directory, once it is linked. */
  lemma MkdirReaches(v: Vol, cwd: nat, name: Text, c: nat)
    requires TreeVolume(v) && Reached(v, cwd) && Reached(Mkdir(v, cwd, name), c)
    ensures Reached(v, c) || (MkdirStarts(v, cwd, name) && FreeSlot(DirAt(v, cwd)) < SLOTS && c == FreeCluster(v.fat))
  {
    hide Walk, FreeCluster, TreeVolume, FindSlot, Claimed, Filled, Linked;
    var w := Mkdir(v, cwd, name);
    var p :| Walk(w, p) == Some(c);
    if MkdirStarts(v, cwd, name) {
      if FreeSlot(DirAt(v, cwd)) == SLOTS {
        FilledTree(v, cwd);
      } else if Visible(name) {
        LinkedGrows(v, cwd, name);
      } else {
        LinkedHidden(v, cwd, name);
      }
    }
    assert Walk(v, p) == Some(c) ==> Reached(v, c);
  }

  lemma MkdirSameDirs(v: Vol, cwd: nat, name: Text)
    requires TreeVolume(v) && Reached(v, cwd)
    ensures SameDirs(v, Mkdir(v, cwd, name), {cwd})
  {
    hide TreeVolume, Reached, FreeCluster, FindSlot, Claimed, Filled, Linked;
    var stages := MkdirStages(v, cwd, name);
    if stages != [] {
      assert stages[|stages| - 1] == Mkdir(v, cwd, name);
      MkdirPrefixKeepsTree(v, cwd, name, Mkdir(v, cwd, name));
    }
  }

  /** After mkdir every reached directory but the current one is the new directory or as it was. */
  lemma MkdirElsewhere(v: Vol, cwd: nat, name: Text, c: nat)
    requires TreeVolume(v) && Reached(v, cwd) && AllUnique(v)
    requires Reached(Mkdir(v, cwd, name), c) && c != cwd
    ensures UniqueNames(DirAt(Mkdir(v, cwd, name), c))
  {
    hide Walk, UniqueNames, FreeCluster, FindSlot, Mkdir;
    MkdirReaches(v, cwd, name, c);
    MkdirSameDirs(v, cwd, name);
    ReachedOnVolume(v, cwd);
    if !Reached(v, c) {
      MkdirFrame(v, cwd, name);
      ChildUnique(c, ContainerLink(cwd));
    }
  }

  lemma TreeOf(st: State)
    requires FatPaths.WellFormed(st)
    ensures TreeVolume(st.vol) && Reached(st.vol, st.cwd)
  {
    FatPaths.CwdReached(st);
  }

  /** After touch and rm every reached directory but the current one is as it was. */
  lemma EditElsewhere(v: Vol, cwd: nat, i: nat, e: Entry, c: nat)
    requires AllUnique(v) && cwd < |v.dirs| && i < SLOTS && !IsLink(e)
    requires Reached(SetDir(v, cwd, v.dirs[cwd][i := e]), c) && c != cwd
    ensures UniqueNames(DirAt(SetDir(v, cwd, v.dirs[cwd][i := e]), c))
  {
    hide UniqueNames, Walk, IsLink;
    var p :| Walk(SetDir(v, cwd, v.dirs[cwd][i := e]), p) == Some(c);
    WalkShrinks(v, cwd, i, e, p);
    assert Reached(v, c);
  }

  lemma MkdirUnique(st: State, name: Text)
    requires FatPaths.WellFormed(st) && AllUnique(st.vol)
    ensures AllUnique(Step(st, MkdirCmd(name)).vol) <==> !Duplicates(st, MkdirCmd(name))
  {
    hide FatPaths.WellFormed, UniqueNames, Taken, Mkdir, Reached, MkdirLinks, StoredName;
    var v := st.vol;
    var w := Mkdir(v, st.cwd, name);
    TreeOf(st);
    FatPaths.WellFormedCells(st);
    FatPaths.MkdirKeeps(st, name);
    TreeOf(st.(vol := w));
    forall c | Reached(w, c) && c != st.cwd
      ensures UniqueNames(DirAt(w, c))
    {
      MkdirElsewhere(v, st.cwd, name, c);
    }
    UniqueElsewhere(w, st.cwd);
    if MkdirLinks(v, st.cwd, name) {
      MkdirKeepsUnique(v, st.cwd, name);
    } else {
      MkdirUnlinked(v, st.cwd, name);
    }
  }

  lemma TouchUnique(st: State, name: Text)
    requires FatPaths.WellFormed(st) && AllUnique(st.vol)
    ensures AllUnique(Step(st, TouchCmd(name)).vol) <==> !Duplicates(st, TouchCmd(name))
  {
    hide FatPaths.WellFormed, UniqueNames, Taken, Reached, StoredName, FindSlot;
    var v := st.vol;
    var d := DirAt(v, st.cwd);
    var i := FreeSlot(d);
    TreeOf(st);
    FatPaths.WellFormedCells(st);
    if i < SLOTS {
      var w := Touch(v, st.cwd, name);
      FatPaths.TouchKeeps(st, name);
      TreeOf(st.(vol := w));
      forall c | Reached(w, c) && c != st.cwd
        ensures UniqueNames(DirAt(w, c))
      {
        EditElsewhere(v, st.cwd, i, FileEntry(d[i], name), c);
      }
      UniqueElsewhere(w, st.cwd);
      TouchKeepsUnique(v, st.cwd, name);
    } else {
      SetDirSame(v, st.cwd);
    }
  }

  lemma RmUnique(st: State, name: Text)
    requires FatPaths.WellFormed(st) && AllUnique(st.vol)
    ensures AllUnique(Step(st, RmCmd(name)).vol)
  {
    hide FatPaths.WellFormed, UniqueNames, Reached, MatchSlot;
    var v := st.vol;
    var d := DirAt(v, st.cwd);
    var i := MatchSlot(d, name);
    TreeOf(st);
    FatPaths.WellFormedCells(st);
    if i < SLOTS {
      var w := Rm(v, st.cwd, name);
      FatPaths.RmKeeps(st, name);
      TreeOf(st.(vol := w));
      forall c | Reached(w, c) && c != st.cwd
        ensures UniqueNames(DirAt(w, c))
      {
        EditElsewhere(v, st.cwd, i, Deleted(d[i]), c);
      }
      UniqueElsewhere(w, st.cwd);
      DeletedUnique(d, i);
    } else {
      SetDirSame(v, st.cwd);
    }
  }

  lemma DeletedUnique(d: Dir, i: nat)
    requires i < SLOTS && UniqueNames(d)
    ensures UniqueNames(d[i := Deleted(d[i])])
  {
  }

  /** A fresh volume is a start with unique names. */
  lemma FreshUnique(v: Vol)
    requires v.dirs[ROOT] == EmptyDir()
    ensures AllUnique(v)
  {
    forall c: nat | Reached(v, c)
      ensures UniqueNames(DirAt(v, c))
    {
      var p :| Walk(v, p) == Some(c);
      FatPaths.OnlyTheRoot(v, p);
    }
  }

  /** Exact law of one command: names stay unique in the whole tree unless the command stores a duplicate. */
  lemma StepUnique(st: State, cmd: Command)
    requires FatPaths.WellFormed(st) && AllUnique(st.vol)
    ensures AllUnique(Step(st, cmd).vol) <==> !Duplicates(st, cmd)
  {
    hide FatPaths.WellFormed, AllUnique;
    match cmd
    case MkdirCmd(name) => MkdirUnique(st, name);
    case TouchCmd(name) => TouchUnique(st, name);
    case RmCmd(name) => RmUnique(st, name);
    case CdCmd(arg) => FatPaths.CdKeeps(st, arg);
  }

  /** Names are unique in the whole tree after every prefix of the run. */
  ghost predicate UniqueAlong(st: State, cmds: seq<Command>)
    decreases |cmds|
  {
    AllUnique(st.vol) && (cmds == [] || UniqueAlong(Step(st, cmds[0]), cmds[1..]))
  }

  ghost predicate NeverDuplicates(st: State, cmds: seq<Command>)
    decreases |cmds|
  {
    cmds == [] || (!Duplicates(st, cmds[0]) && NeverDuplicates(Step(st, cmds[0]), cmds[1..]))
  }

  predicate AllCareful(st: State, cmds: seq<Command>)
    decreases |cmds|
  {
    cmds == [] || (Careful(st, cmds[0]) && AllCareful(Step(st, cmds[0]), cmds[1..]))
  }

  /**
   Over every run: names are unique all along exactly when no command stores a duplicate, which careful commands
   never do.
   */
  lemma {:induction false} RunKeepsUnique(st: State, cmds: seq<Command>)
    requires FatPaths.WellFormed(st) && AllUnique(st.vol)
    ensures UniqueAlong(st, cmds) <==> NeverDuplicates(st, cmds)
    ensures AllCareful(st, cmds) ==> UniqueAlong(st, cmds) && AllUnique(Run(st, cmds).vol)
    decreases |cmds|
  {
    hide FatPaths.WellFormed, AllUnique, Duplicates, Careful, Step;
    if cmds != [] {
      StepUnique(st, cmds[0]);
      if Careful(st, cmds[0]) {
        CarefulIsEnough(st, cmds[0]);
      }
      if !Duplicates(st, cmds[0]) {
        FatPaths.StepKeeps(st, cmds[0]);
        RunKeepsUnique(Step(st, cmds[0]), cmds[1..]);
      }
    }
  }
}
