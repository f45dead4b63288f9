/** The live directories form a tree, and no write of a command breaks it. */
module FatTree {
  import opened Words
  import opened Sectors
  import opened FatNames
  import opened FatSpec

  /** A live entry that leads to a child directory. */
  predicate IsLink(e: Entry) {
    Live(e) && IsDirectory(e) && e.name[0] != DOT
  }

  function Follow(v: Vol, c: nat, i: nat): Option<nat> {
    if i < SLOTS && IsLink(DirAt(v, c)[i]) then Some(ClusterOf(DirAt(v, c)[i])) else None
  }

  /** The cluster reached from the root by following the slots of `p` in order. */
  function Walk(v: Vol, p: seq<nat>): Option<nat>
    decreases |p|
  {
    if p == [] then Some(ROOT)
    else
      match Walk(v, p[..|p| - 1])
      case None => None
      case Some(c) => Follow(v, c, p[|p| - 1])
  }

  ghost predicate Reached(v: Vol, c: nat) {
    exists p :: Walk(v, p) == Some(c)
  }

  /**
   Every cluster is reached along at most one sequence of slots: no directory is linked twice,
   none contains itself, and nothing links to the root.
   */
  ghost predicate Tree(v: Vol) {
    forall p, q :: Walk(v, p).Some? && Walk(v, p) == Walk(v, q) ==> p == q
  }

  /** No live slot after a slot that was never used. */
  predicate ZeroTail(d: Dir) {
    forall i, j :: 0 <= i < j < SLOTS && d[i].name[0] == 0 ==> !Live(d[j])
  }

  /** Directory `c` holds "." and ".." in its first two slots, and `parent` is its container. */
  predicate Dots(d: Dir, c: nat, parent: nat) {
    && d[0].name == DOT_NAME && IsDirectory(d[0]) && ClusterOf(d[0]) == c
    && d[1].name == DOT_DOT_NAME && IsDirectory(d[1]) && ClusterOf(d[1]) == ContainerLink(parent)
  }

  /** The clusters that the live entries of `d` name, if they have a cell, have a nonzero one. */
  predicate Held(fat: seq<Word32>, d: Dir) {
    forall i :: 0 <= i < SLOTS && Live(d[i]) && d[i].name[0] != DOT && ROOT <= ClusterOf(d[i]) < |fat|
      ==> fat[ClusterOf(d[i])] != 0
  }

  ghost predicate SoundAt(v: Vol, p: seq<nat>)
    requires Walk(v, p).Some?
  {
    var c := Walk(v, p).value;
    && ROOT <= c < |v.dirs|
    && v.fat[c] != 0
    && ZeroTail(v.dirs[c])
    && Held(v.fat, v.dirs[c])
    && (p != [] ==> Dots(v.dirs[c], c, Walk(v, p[..|p| - 1]).value))
  }

  /** Every reached directory is on the volume, allocated, initialised, and knows its container. */
  ghost predicate Sound(v: Vol) {
    forall p :: Walk(v, p).Some? ==> SoundAt(v, p)
  }

  ghost predicate TreeVolume(v: Vol) {
    Tree(v) && Sound(v)
  }

  /**
   In words: two links of the tree lead to different directories, none leads to the root, and each target is
   allocated, initialised and knows where it is.
   */
  lemma LinksDistinct(v: Vol, c: nat, i: nat, b: nat, j: nat)
    requires TreeVolume(v) && Reached(v, c) && Reached(v, b)
    requires Follow(v, c, i).Some? && Follow(v, c, i) == Follow(v, b, j)
    ensures c == b && i == j
    ensures var n := Follow(v, c, i).value;
            ROOT < n < |v.dirs| && v.fat[n] != 0 && Dots(v.dirs[n], n, c)
  {
    hide Walk, Follow, SoundAt, Dots;
    var p :| Walk(v, p) == Some(c);
    var q :| Walk(v, q) == Some(b);
    WalkOn(v, p, i);
    WalkOn(v, q, j);
    SameLast(p, i, q, j);
    assert SoundAt(v, p + [i]);
    ExtendedSound(v, p, i);
  }

  lemma SameLast(p: seq<nat>, i: nat, q: seq<nat>, j: nat)
    ensures p + [i] == q + [j] ==> p == q && i == j
  {
    if p + [i] == q + [j] {
      assert p == (p + [i])[..|p|] == (q + [j])[..|q|] == q;
      assert (p + [i])[|p|] == (q + [j])[|q|];
    }
  }

  lemma WalkRoot(v: Vol)
    ensures Walk(v, []) == Some(ROOT)
  {
  }

  lemma WalkFront(v: Vol, p: seq<nat>)
    requires p != []
    ensures Walk(v, p).Some? ==> Walk(v, p[..|p| - 1]).Some?
  {
  }

  lemma WalkOn(v: Vol, p: seq<nat>, i: nat)
    requires Walk(v, p).Some?
    ensures Walk(v, p + [i]) == Follow(v, Walk(v, p).value, i)
  {
    assert (p + [i])[..|p|] == p;
  }

  lemma ExtendedSound(v: Vol, p: seq<nat>, i: nat)
    requires Tree(v) && Walk(v, p).Some? && Walk(v, p + [i]).Some? && SoundAt(v, p + [i])
    ensures var n := Walk(v, p + [i]).value;
            ROOT < n < |v.dirs| && v.fat[n] != 0 && Dots(v.dirs[n], n, Walk(v, p).value)
  {
    assert (p + [i])[..|p|] == p;
    assert Walk(v, []) == Some(ROOT);
  }

  // ----- walks after a change

  lemma {:induction false} WalkAgrees(v: Vol, w: Vol, p: seq<nat>)
    requires forall c: nat, i: nat :: Reached(v, c) ==> Follow(w, c, i) == Follow(v, c, i)
    ensures Walk(w, p) == Walk(v, p)
    decreases |p|
  {
    if p != [] {
      var front := p[..|p| - 1];
      WalkAgrees(v, w, front);
      if Walk(v, front).Some? {
        assert Reached(v, Walk(v, front).value);
      }
    }
  }

  /** Overwriting a slot with something that is no link only removes walks. */
  lemma {:induction false} WalkShrinks(v: Vol, cwd: nat, i: nat, e: Entry, p: seq<nat>)
    requires i < SLOTS && cwd < |v.dirs| && !IsLink(e)
    ensures var w := SetDir(v, cwd, v.dirs[cwd][i := e]);
            Walk(w, p).Some? ==> Walk(w, p) == Walk(v, p)
    decreases |p|
  {
    if p != [] {
      WalkShrinks(v, cwd, i, e, p[..|p| - 1]);
    }
  }

  /** Overwriting a slot with a link to a fresh, empty directory adds exactly the walks that end in that slot. */
  lemma {:induction false} WalkGrows(v: Vol, cwd: nat, i: nat, e: Entry, p: seq<nat>)
    requires i < SLOTS && cwd < |v.dirs| && !IsLink(v.dirs[cwd][i]) && IsLink(e)
    requires cwd != ClusterOf(e) && forall k: nat :: Follow(v, ClusterOf(e), k) == None
    requires !Reached(v, ClusterOf(e))
    ensures var w := SetDir(v, cwd, v.dirs[cwd][i := e]);
            Walk(w, p) == if p != [] && p[|p| - 1] == i && Walk(v, p[..|p| - 1]) == Some(cwd)
                          then Some(ClusterOf(e)) else Walk(v, p)
    decreases |p|
  {
    if p != [] {
      var front := p[..|p| - 1];
      var w := SetDir(v, cwd, v.dirs[cwd][i := e]);
      WalkGrows(v, cwd, i, e, front);
      if Walk(w, front) == Walk(v, front) {
        assert Walk(v, front).Some? ==> Reached(v, Walk(v, front).value);
      } else {
        assert Walk(v, front) == Follow(v, cwd, i) == None;
        assert Walk(w, p) == Follow(w, ClusterOf(e), p[|p| - 1]) == Follow(v, ClusterOf(e), p[|p| - 1]);
      }
    }
  }

  // ----- touch and rm: one slot becomes something that is no link

  /**
   Every directory stays sound when one slot of one directory gets an entry that keeps its zero tail and names no
   free cluster.
   */
  lemma EditKeepsSound(v: Vol, cwd: nat, i: nat, e: Entry, p: seq<nat>)
    requires Sound(v) && cwd < |v.dirs|
    requires i < SLOTS && !IsLink(e) && v.dirs[cwd][i].name[0] != DOT
    requires ZeroTail(v.dirs[cwd][i := e])
    requires Live(e) && ROOT <= ClusterOf(e) < |v.fat| ==> v.fat[ClusterOf(e)] != 0
    requires Walk(SetDir(v, cwd, v.dirs[cwd][i := e]), p).Some?
    ensures SoundAt(SetDir(v, cwd, v.dirs[cwd][i := e]), p)
  {
    var w := SetDir(v, cwd, v.dirs[cwd][i := e]);
    WalkShrinks(v, cwd, i, e, p);
    assert SoundAt(v, p);
    hide Sound, Walk, IsLink, ZeroTail;
    if p != [] {
      WalkShrinks(v, cwd, i, e, p[..|p| - 1]);
      WalkFront(w, p);
    }
  }

  lemma EditKeepsTree(v: Vol, cwd: nat, i: nat, e: Entry)
    requires TreeVolume(v) && Reached(v, cwd)
    requires i < SLOTS && !IsLink(e) && DirAt(v, cwd)[i].name[0] != DOT
    requires ZeroTail(DirAt(v, cwd)[i := e])
    requires Live(e) && ROOT <= ClusterOf(e) < |v.fat| ==> v.fat[ClusterOf(e)] != 0
    ensures TreeVolume(SetDir(v, cwd, DirAt(v, cwd)[i := e]))
  {
    hide Walk, SoundAt, IsLink, ZeroTail;
    ReachedOnVolume(v, cwd);
    var w := SetDir(v, cwd, DirAt(v, cwd)[i := e]);
    forall p | Walk(w, p).Some?
      ensures Walk(w, p) == Walk(v, p) && SoundAt(w, p)
    {
      WalkShrinks(v, cwd, i, e, p);
      EditKeepsSound(v, cwd, i, e, p);
    }
  }

  lemma ReachedOnVolume(v: Vol, c: nat)
    requires Sound(v) && Reached(v, c)
    ensures ROOT <= c < |v.dirs| && v.fat[c] != 0 && ZeroTail(v.dirs[c])
  {
    var at :| Walk(v, at) == Some(c);
    assert SoundAt(v, at);
  }

  lemma TouchKeepsTree(v: Vol, cwd: nat, name: Text)
    requires TreeVolume(v) && Reached(v, cwd)
    ensures TreeVolume(Touch(v, cwd, name))
  {
    ReachedOnVolume(v, cwd);
    hide TreeVolume, Reached;
    var d := DirAt(v, cwd);
    var i := FreeSlot(d);
    if i < SLOTS {
      EditKeepsTree(v, cwd, i, FileEntry(d[i], name));
    } else {
      SetDirSame(v, cwd);
    }
  }

  lemma RmKeepsTree(v: Vol, cwd: nat, name: Text)
    requires TreeVolume(v) && Reached(v, cwd)
    ensures TreeVolume(Rm(v, cwd, name))
  {
    ReachedOnVolume(v, cwd);
    hide TreeVolume, Reached, MatchSlot;
    var d := DirAt(v, cwd);
    var i := MatchSlot(d, name);
    if i < SLOTS {
      MatchSlotLeast(d, name);
      if d[i].name[0] == DOT || d[i].name[0] == 0 {
        NeverMatches(name, d[i]);
      }
      EditKeepsTree(v, cwd, i, Deleted(d[i]));
    } else {
      SetDirSame(v, cwd);
    }
  }

  // ----- mkdir: three writes

  lemma ClusterOfWithCluster(e: Entry, c: nat)
    requires c < 0x1_0000_0000
    ensures ClusterOf(WithCluster(e, c)) == c
  {
  }

  /** The cluster that the scan hands out is not part of the tree. */
  lemma FreshCluster(v: Vol)
    requires Sound(v)
    ensures var n := FreeCluster(v.fat); n != 0 ==> !Reached(v, n)
  {
    var n := FreeCluster(v.fat);
    forall p
      ensures n != 0 ==> Walk(v, p) != Some(n)
    {
      assert Walk(v, p).Some? ==> SoundAt(v, p);
    }
  }

  /** Writing the cell or the first sector of a cluster outside the tree changes no walk and breaks nothing. */
  lemma OutsideKeepsTree(v: Vol, w: Vol, n: nat, x: Word32)
    requires TreeVolume(v) && !Reached(v, n) && n < |v.dirs|
    requires |w.dirs| == |v.dirs| && w.dirs == v.dirs[n := w.dirs[n]] && x != 0 && w.fat == v.fat[n := x]
    ensures TreeVolume(w)
    ensures forall p :: Walk(w, p) == Walk(v, p)
  {
    forall p
      ensures Walk(w, p) == Walk(v, p)
    {
      WalkAgrees(v, w, p);
    }
    forall p | Walk(w, p).Some?
      ensures SoundAt(w, p)
    {
      assert SoundAt(v, p);
      assert Reached(v, Walk(v, p).value);
    }
  }

  /**
   What the last write of mkdir needs: the slot is the first free one, the cluster is allocated, initialised and
   outside the tree.
   */
  ghost predicate ReadyToLink(v: Vol, cwd: nat, i: nat, e: Entry) {
    && cwd < |v.dirs|
    && i < SLOTS && !Live(v.dirs[cwd][i]) && (forall k :: 0 <= k < i ==> Live(v.dirs[cwd][k]))
    && IsLink(e)
    && ROOT <= ClusterOf(e) < |v.dirs| && v.fat[ClusterOf(e)] != 0 && !Reached(v, ClusterOf(e)) && ClusterOf(e) != cwd
    && v.dirs[ClusterOf(e)] == ChildDir(ClusterOf(e), ContainerLink(cwd))
  }

  function WithLink(v: Vol, cwd: nat, i: nat, e: Entry): Vol
    requires cwd < |v.dirs| && i < SLOTS
  {
    SetDir(v, cwd, v.dirs[cwd][i := e])
  }

  /**
   The new directory is reached along the slots of its parent and then slot `i`; all other walks stay as they
   were.
   */
  lemma WalkLinked(v: Vol, cwd: nat, i: nat, e: Entry, p: seq<nat>)
    requires ReadyToLink(v, cwd, i, e)
    ensures Walk(WithLink(v, cwd, i, e), p) == if p != [] && p[|p| - 1] == i && Walk(v, p[..|p| - 1]) == Some(cwd)
                                             then Some(ClusterOf(e)) else Walk(v, p)
  {
    ChildIsSound(ClusterOf(e), cwd);
    WalkGrows(v, cwd, i, e, p);
  }

  lemma LinkKeepsShape(v: Vol, cwd: nat, i: nat, e: Entry)
    requires ReadyToLink(v, cwd, i, e) && Tree(v)
    ensures Tree(WithLink(v, cwd, i, e))
  {
    hide Walk, WithLink;
    var n := ClusterOf(e);
    var w := WithLink(v, cwd, i, e);
    forall p, q | Walk(w, p).Some? && Walk(w, p) == Walk(w, q)
      ensures p == q
    {
      WalkLinked(v, cwd, i, e, p);
      WalkLinked(v, cwd, i, e, q);
      if Walk(w, p) == Some(n) {
        assert p == p[..|p| - 1] + [i] && q == q[..|q| - 1] + [i];
      }
    }
  }

  /** A link stored over a dead slot spoils no directory. */
  lemma LinkKeepsDirectory(d: Dir, fat: seq<Word32>, i: nat, e: Entry, c: nat, parent: nat)
    requires i < SLOTS && !Live(d[i]) && (forall k :: 0 <= k < i ==> Live(d[k]))
    requires IsLink(e) && ClusterOf(e) < |fat| && fat[ClusterOf(e)] != 0
    requires ZeroTail(d) && Held(fat, d)
    ensures ZeroTail(d[i := e]) && Held(fat, d[i := e])
    ensures Dots(d, c, parent) ==> Dots(d[i := e], c, parent)
  {
  }

  /** The walks of a linked volume are the old ones and those to the new directory. */
  lemma WalkLinkedCases(v: Vol, cwd: nat, i: nat, e: Entry, p: seq<nat>)
    requires ReadyToLink(v, cwd, i, e) && Walk(WithLink(v, cwd, i, e), p).Some?
    ensures p != [] ==> Walk(WithLink(v, cwd, i, e), p[..|p| - 1]).Some?
    ensures if Walk(v, p).Some? then
              Walk(WithLink(v, cwd, i, e), p) == Walk(v, p)
              && (p != [] ==>
                    Walk(v, p[..|p| - 1]).Some? && Walk(WithLink(v, cwd, i, e), p[..|p| - 1]) == Walk(v, p[..|p| - 1]))
            else
              p != [] && Walk(WithLink(v, cwd, i, e), p) == Some(ClusterOf(e))
              && Walk(WithLink(v, cwd, i, e), p[..|p| - 1]) == Some(cwd)
  {
    var w := WithLink(v, cwd, i, e);
    hide WithLink, ReadyToLink, Walk;
    WalkLinked(v, cwd, i, e, p);
    NothingBeforeLink(v, cwd, i, e, p);
    if p != [] {
      var front := p[..|p| - 1];
      WalkLinked(v, cwd, i, e, front);
      NothingBeforeLink(v, cwd, i, e, front);
      WalkFront(v, p);
      WalkFront(w, p);
    } else {
      WalkRoot(v);
    }
  }

  /** Before the link is stored, no walk goes through its slot. */
  lemma NothingBeforeLink(v: Vol, cwd: nat, i: nat, e: Entry, p: seq<nat>)
    requires ReadyToLink(v, cwd, i, e)
    ensures p != [] && p[|p| - 1] == i && Walk(v, p[..|p| - 1]) == Some(cwd) ==> Walk(v, p) == None
  {
  }

  lemma LinkKeepsSound(v: Vol, cwd: nat, i: nat, e: Entry, p: seq<nat>)
    requires ReadyToLink(v, cwd, i, e) && Sound(v)
    requires Walk(WithLink(v, cwd, i, e), p).Some?
    ensures SoundAt(WithLink(v, cwd, i, e), p)
  {
    hide Walk;
    WalkLinkedCases(v, cwd, i, e, p);
    if Walk(v, p).Some? {
      assert SoundAt(v, p);
      var parent := if p == [] then ROOT else Walk(v, p[..|p| - 1]).value;
      if Walk(v, p) == Some(cwd) {
        LinkKeepsDirectory(v.dirs[cwd], v.fat, i, e, cwd, parent);
      }
    } else {
      ChildIsSound(ClusterOf(e), cwd);
    }
  }

  lemma LinkKeepsTree(v: Vol, cwd: nat, i: nat, e: Entry)
    requires ReadyToLink(v, cwd, i, e) && TreeVolume(v)
    ensures TreeVolume(WithLink(v, cwd, i, e))
  {
    LinkKeepsShape(v, cwd, i, e);
    forall p | Walk(WithLink(v, cwd, i, e), p).Some?
      ensures SoundAt(WithLink(v, cwd, i, e), p)
    {
      LinkKeepsSound(v, cwd, i, e, p);
    }
  }

  lemma ChildIsSound(n: nat, cwd: nat)
    requires n < 0x1_0000_0000 && cwd < 0x1_0000_0000
    ensures var d := ChildDir(n, ContainerLink(cwd));
            Dots(d, n, cwd) && ZeroTail(d) && forall i :: 0 <= i < SLOTS ==> !Live(d[i]) || d[i].name[0] == DOT
  {
    ClusterOfWithCluster(ZeroEntry().(name := DOT_NAME, attributes := DIRECTORY), n);
    ClusterOfWithCluster(ZeroEntry().(name := DOT_DOT_NAME, attributes := DIRECTORY), ContainerLink(cwd));
  }

  /**
   The walks after mkdir stored its link, in terms of the walks before: those to the new cluster `n` through slot
   `i`, and the old ones.
   */
  ghost predicate GrownBy(v: Vol, w: Vol, cwd: nat, i: nat, n: nat) {
    forall p ::
      Walk(w, p) == if p != [] && p[|p| - 1] == i && Walk(v, p[..|p| - 1]) == Some(cwd) then Some(n) else Walk(v, p)
  }

  ghost predicate SameWalks(v: Vol, w: Vol) {
    forall p :: Walk(w, p) == Walk(v, p)
  }

  ghost predicate SameDirs(v: Vol, w: Vol, changed: set<nat>) {
    forall c :: Reached(v, c) && c !in changed ==> DirAt(w, c) == DirAt(v, c)
  }

  /** mkdir's first write leaves the tree as it was. */
  lemma ClaimedTree(v: Vol)
    requires TreeVolume(v) && FreeCluster(v.fat) != 0
    ensures TreeVolume(Claimed(v)) && SameWalks(v, Claimed(v)) && SameDirs(v, Claimed(v), {})
  {
    FreshCluster(v);
    OutsideKeepsTree(v, Claimed(v), FreeCluster(v.fat), END_OF_CHAIN);
  }

  /** So does its second. */
  lemma FilledTree(v: Vol, cwd: nat)
    requires TreeVolume(v) && FreeCluster(v.fat) != 0
    ensures TreeVolume(Filled(v, cwd)) && SameWalks(v, Filled(v, cwd)) && SameDirs(v, Filled(v, cwd), {})
  {
    FreshCluster(v);
    OutsideKeepsTree(v, Filled(v, cwd), FreeCluster(v.fat), END_OF_CHAIN);
  }

  lemma FilledReachesParent(v: Vol, cwd: nat)
    requires TreeVolume(v) && FreeCluster(v.fat) != 0 && Reached(v, cwd)
    ensures Reached(Filled(v, cwd), cwd) && cwd < |v.dirs| && DirAt(Filled(v, cwd), cwd) == DirAt(v, cwd)
    ensures !Reached(Filled(v, cwd), FreeCluster(v.fat)) && cwd != FreeCluster(v.fat)
  {
    var at :| Walk(v, at) == Some(cwd);
    assert SoundAt(v, at);
    FilledTree(v, cwd);
    FreshCluster(v);
    var w := Filled(v, cwd);
    assert Walk(w, at) == Walk(v, at);
    forall p
      ensures Walk(w, p) != Some(FreeCluster(v.fat))
    {
      assert Walk(w, p) == Walk(v, p);
      assert Walk(v, p).Some? ==> Reached(v, Walk(v, p).value);
    }
  }

  /** The second write leaves a child directory ready to be linked. */
  lemma FilledReadyToLink(v: Vol, cwd: nat, name: Text)
    requires Visible(name) && FreeCluster(v.fat) != 0 && FreeSlot(DirAt(v, cwd)) < SLOTS
    requires cwd < |v.dirs| && cwd != FreeCluster(v.fat) && !Reached(Filled(v, cwd), FreeCluster(v.fat))
    ensures ReadyToLink(Filled(v, cwd), cwd, FreeSlot(DirAt(v, cwd)), NewLink(v, DirAt(v, cwd), name))
    ensures ClusterOf(NewLink(v, DirAt(v, cwd), name)) == FreeCluster(v.fat)
  {
    var d := DirAt(v, cwd);
    StoredNameLive(name, NewLink(v, d, name));
    var e := d[FreeSlot(d)].(name := StoredName(name), attributes := DIRECTORY, fileSize := 0);
    ClusterOfWithCluster(e, FreeCluster(v.fat));
    assert IsLink(NewLink(v, d, name));
  }

  /** mkdir's third write adds exactly the link to the new directory. */
  lemma LinkedGrows(v: Vol, cwd: nat, name: Text)
    requires TreeVolume(v) && Reached(v, cwd) && Visible(name)
    requires FreeCluster(v.fat) != 0 && FreeSlot(DirAt(v, cwd)) < SLOTS
    ensures TreeVolume(Linked(v, cwd, name))
    ensures GrownBy(v, Linked(v, cwd, name), cwd, FreeSlot(DirAt(v, cwd)), FreeCluster(v.fat))
  {
    var i, e := FreeSlot(DirAt(v, cwd)), NewLink(v, DirAt(v, cwd), name);
    FilledTree(v, cwd);
    FilledReachesParent(v, cwd);
    FilledReadyToLink(v, cwd, name);
    LinkKeepsTree(Filled(v, cwd), cwd, i, e);
    GrownFromFilled(v, Filled(v, cwd), cwd, i, e);
  }

  lemma GrownFromFilled(v: Vol, u: Vol, cwd: nat, i: nat, e: Entry)
    requires SameWalks(v, u) && ReadyToLink(u, cwd, i, e)
    ensures GrownBy(v, WithLink(u, cwd, i, e), cwd, i, ClusterOf(e))
  {
    forall p
      ensures Walk(WithLink(u, cwd, i, e), p) ==
        if p != [] && p[|p| - 1] == i && Walk(v, p[..|p| - 1]) == Some(cwd) then Some(ClusterOf(e)) else Walk(v, p)
    {
      WalkLinked(u, cwd, i, e, p);
      assert Walk(u, p) == Walk(v, p);
      assert p != [] ==> Walk(u, p[..|p| - 1]) == Walk(v, p[..|p| - 1]);
    }
  }

  /** With a name that starts with the deletion mark it adds no link. */
  lemma LinkedHidden(v: Vol, cwd: nat, name: Text)
    requires TreeVolume(v) && Reached(v, cwd) && !Visible(name)
    requires FreeCluster(v.fat) != 0 && FreeSlot(DirAt(v, cwd)) < SLOTS
    ensures TreeVolume(Linked(v, cwd, name))
    ensures SameWalks(v, Linked(v, cwd, name))
  {
    FilledTree(v, cwd);
    FilledReachesParent(v, cwd);
    HiddenLink(Filled(v, cwd), cwd, FreeSlot(DirAt(v, cwd)), NewLink(v, DirAt(v, cwd), name), name);
    SameWalksTransitive(v, Filled(v, cwd), Linked(v, cwd, name));
  }

  lemma SameWalksTransitive(u: Vol, v: Vol, w: Vol)
    requires SameWalks(u, v) && SameWalks(v, w)
    ensures SameWalks(u, w)
  {
    forall p
      ensures Walk(w, p) == Walk(u, p)
    {
      assert Walk(v, p) == Walk(u, p);
    }
  }

  /** Of the old tree, the third write changes only the current directory. */
  lemma LinkedDirs(v: Vol, cwd: nat, name: Text)
    requires TreeVolume(v) && FreeCluster(v.fat) != 0 && FreeSlot(DirAt(v, cwd)) < SLOTS
    ensures SameDirs(v, Linked(v, cwd, name), {cwd})
  {
    FreshCluster(v);
  }

  /** An entry that starts with the deletion mark, stored over the first free slot, adds nothing. */
  lemma HiddenLink(v: Vol, cwd: nat, i: nat, e: Entry, name: Text)
    requires TreeVolume(v) && Reached(v, cwd) && i == FreeSlot(DirAt(v, cwd)) < SLOTS
    requires !Visible(name) && e.name == StoredName(name)
    ensures TreeVolume(SetDir(v, cwd, DirAt(v, cwd)[i := e])) && SameWalks(v, SetDir(v, cwd, DirAt(v, cwd)[i := e]))
  {
    hide Walk, SoundAt;
    ReachedOnVolume(v, cwd);
    var w := SetDir(v, cwd, DirAt(v, cwd)[i := e]);
    StoredNameLive(name, e);
    EditKeepsTree(v, cwd, i, e);
    assert forall c: nat, k: nat :: Follow(w, c, k) == Follow(v, c, k);
    WalksAgree(v, w);
  }

  lemma WalksAgree(v: Vol, w: Vol)
    requires forall c: nat, i: nat :: Reached(v, c) ==> Follow(w, c, i) == Follow(v, c, i)
    ensures SameWalks(v, w)
  {
    forall p
      ensures Walk(w, p) == Walk(v, p)
    {
      WalkAgrees(v, w, p);
    }
  }

  /**
   Every prefix of mkdir's sector writes leaves a tree of allocated, initialised directories, and only the
   last one touches a directory of the old tree, the current one.
   */
  lemma MkdirPrefixKeepsTree(v: Vol, cwd: nat, name: Text, w: Vol)
    requires TreeVolume(v) && Reached(v, cwd) && w in MkdirStages(v, cwd, name)
    ensures TreeVolume(w) && SameDirs(v, w, {cwd})
    ensures w != Mkdir(v, cwd, name) ==> SameDirs(v, w, {}) && SameWalks(v, w)
  {
    if w == Claimed(v) {
      ClaimedTree(v);
    } else if w == Filled(v, cwd) {
      FilledTree(v, cwd);
    } else {
      assert w == Linked(v, cwd, name);
      LinkedDirs(v, cwd, name);
      if Visible(name) {
        LinkedGrows(v, cwd, name);
      } else {
        LinkedHidden(v, cwd, name);
      }
    }
  }
}
