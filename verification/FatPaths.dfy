/** The text of the path and the current cluster agree over every run; the laws of cd. */
module FatPaths {
  import opened Words
  import opened Sectors
  import opened FatNames
  import opened FatSpec
  import opened FatTree

  // ----- the text of a path

  /** A component as the path holds it: nonempty, without a slash, and not "." or "..". */
  predicate Proper(name: Text) {
    name != [] && SLASH !in name && name != HERE && name != UP
  }

  predicate AllProper(names: seq<Text>) {
    forall i :: 0 <= i < |names| ==> Proper(names[i])
  }

  function JoinAll(names: seq<Text>): Text
    decreases |names|
  {
    if names == [] then [] else JoinAll(names[..|names| - 1]) + [SLASH] + names[|names| - 1]
  }

  /** The absolute path with the given components; "/" for none. */
  function Join(names: seq<Text>): Text {
    if names == [] then [SLASH] else JoinAll(names)
  }

  lemma ComponentLengthIs(t: Text, n: nat)
    requires n <= |t| && SLASH !in t[..n] && (n == |t| || t[n] == SLASH)
    ensures ComponentLength(t) == n
  {
    var m := ComponentLength(t);
    forall k | 0 <= k < m || 0 <= k < n
      ensures t[k] != SLASH
    {
      assert k < m ==> t[k] in t[..m];
      assert k < n ==> t[k] in t[..n];
    }
  }

  /** Splitting a path at a slash splits its components. */
  lemma {:induction false} ComponentsOfConcat(a: Text, b: Text)
    ensures Components(a + [SLASH] + b) == Components(a) + Components(b)
    decreases |a|
  {
    var t := a + [SLASH] + b;
    if a == [] {
      assert t[1..] == b;
    } else if a[0] == SLASH {
      assert t[1..] == a[1..] + [SLASH] + b;
      ComponentsOfConcat(a[1..], b);
    } else {
      ComponentsOfConcat(a[ComponentLength(a)..], b);
      FirstOfConcat(a, b);
    }
  }

  /** The first component of a concatenation at a slash. */
  lemma FirstOfConcat(a: Text, b: Text)
    requires a != [] && a[0] != SLASH
    ensures var t, n := a + [SLASH] + b, ComponentLength(a);
            && 0 < n == ComponentLength(t) && t[..n] == a[..n] && t[n..] == a[n..] + [SLASH] + b
            && Components(t) == [t[..n]] + Components(t[n..]) && Components(a) == [a[..n]] + Components(a[n..])
  {
    var t, n := a + [SLASH] + b, ComponentLength(a);
    assert t[..n] == a[..n];
    assert n == |a| ==> t[n] == SLASH;
    ComponentLengthIs(t, n);
  }

  lemma ComponentsOfName(name: Text)
    requires name != [] && SLASH !in name
    ensures Components(name) == [name]
  {
    ComponentLengthIs(name, |name|);
    assert name[..|name|] == name;
    assert Components(name[|name|..]) == [];
  }

  lemma {:induction false} ComponentsOfJoinAll(names: seq<Text>)
    requires AllProper(names)
    ensures Components(JoinAll(names)) == names
    decreases |names|
  {
    if names != [] {
      var front, last := names[..|names| - 1], names[|names| - 1];
      ComponentsOfJoinAll(front);
      ComponentsOfConcat(JoinAll(front), last);
      ComponentsOfName(last);
    }
  }

  /** Splitting a path undoes joining its components. */
  lemma ComponentsOfJoin(names: seq<Text>)
    requires AllProper(names)
    ensures Components(Join(names)) == names
  {
    if names == [] {
      assert Components([SLASH]) == Components([SLASH][1..]);
    } else {
      ComponentsOfJoinAll(names);
    }
  }

  lemma {:induction false} ComponentsAreNames(t: Text)
    ensures forall i :: 0 <= i < |Components(t)| ==> Components(t)[i] != [] && SLASH !in Components(t)[i]
    decreases |t|
  {
    if t != [] {
      if t[0] == SLASH {
        ComponentsAreNames(t[1..]);
      } else {
        ComponentsAreNames(t[ComponentLength(t)..]);
      }
    }
  }

  /** Entering a directory appends its name to the path. */
  lemma PushOfJoin(names: seq<Text>, name: Text)
    requires AllProper(names) && Proper(name)
    ensures PushPath(Join(names), name) == Join(names + [name])
  {
    assert (names + [name])[..|names|] == names;
    if names == [] {
      assert JoinAll([]) + [SLASH] + name == [SLASH] + name;
    } else {
      var last := names[|names| - 1];
      assert Join(names)[|Join(names)| - 1] == last[|last| - 1];
      assert last[|last| - 1] in last;
    }
  }

  /** Leaving a directory cuts its name off the path. */
  lemma PopOfJoin(names: seq<Text>)
    requires AllProper(names) && names != []
    ensures PopPath(Join(names)) == Join(names[..|names| - 1])
  {
    var front, last := names[..|names| - 1], names[|names| - 1];
    var t := Join(names);
    var k := |JoinAll(front)|;
    assert t == JoinAll(front) + [SLASH] + last;
    assert t[k] == SLASH && t[k + 1..] == last;
    assert forall j :: k < j < |t| ==> t[j] == last[j - k - 1];
    assert LastSlash(t) == k;
    assert t[..k] == JoinAll(front);
    if front != [] {
      assert k > 0;
    }
  }

  // ----- resolving a path

  /** The cluster reached from the root by looking up each name in turn. */
  function Resolve(v: Vol, names: seq<Text>): Option<nat>
    decreases |names|
  {
    if names == [] then Some(ROOT)
    else
      match Resolve(v, names[..|names| - 1])
      case None => None
      case Some(c) => Enter(v, c, names[|names| - 1])
  }

  lemma EnterFollows(v: Vol, c: nat, name: Text)
    requires Enter(v, c, name).Some?
    ensures Follow(v, c, FindSlot(DirAt(v, c), name)) == Enter(v, c, name)
  {
    FindSlotLeast(DirAt(v, c), name);
    var e := DirAt(v, c)[FindSlot(DirAt(v, c), name)];
    if e.name[0] == DOT {
      NeverMatches(name, e);
    }
  }

  /** The slots along which a list of names is resolved. */
  lemma {:induction false} ResolveWalks(v: Vol, names: seq<Text>) returns (p: seq<nat>)
    requires Resolve(v, names).Some?
    ensures |p| == |names| && Walk(v, p) == Resolve(v, names)
    ensures forall k :: 0 <= k <= |names| ==> Walk(v, p[..k]) == Resolve(v, names[..k])
    decreases |names|
  {
    if names == [] {
      p := [];
    } else {
      var front, last := names[..|names| - 1], names[|names| - 1];
      var q := ResolveWalks(v, front);
      var c := Resolve(v, front).value;
      EnterFollows(v, c, last);
      p := q + [FindSlot(DirAt(v, c), last)];
      assert p[..|p| - 1] == q;
      forall k | 0 <= k <= |names|
        ensures Walk(v, p[..k]) == Resolve(v, names[..k])
      {
        if k < |names| {
          assert p[..k] == q[..k] && names[..k] == front[..k];
        } else {
          assert p[..k] == p && names[..k] == names;
        }
      }
    }
  }

  /** A path through the tree meets its last directory only at its end. */
  lemma ResolveMeetsOnce(v: Vol, names: seq<Text>, k: nat)
    requires Tree(v) && Resolve(v, names).Some? && k < |names|
    ensures Resolve(v, names[..k]).Some? && Resolve(v, names[..k]) != Resolve(v, names)
  {
    var p := ResolveWalks(v, names);
    WalkPrefix(v, p, k);
    assert p[..k] != p;
  }

  lemma {:induction false} WalkPrefix(v: Vol, p: seq<nat>, k: nat)
    requires Walk(v, p).Some? && k <= |p|
    ensures Walk(v, p[..k]).Some?
    decreases |p|
  {
    if k == |p| {
      assert p[..k] == p;
    } else {
      WalkPrefix(v, p[..|p| - 1], k);
      assert p[..|p| - 1][..k] == p[..k];
    }
  }

  /** Changing no directory of the tree but the last one of a path does not change what the path resolves to. */
  lemma {:induction false} ResolveFrame(v: Vol, w: Vol, names: seq<Text>, c: nat, k: nat)
    requires Tree(v) && Resolve(v, names) == Some(c) && SameDirs(v, w, {c}) && k <= |names|
    ensures Resolve(w, names[..k]) == Resolve(v, names[..k])
    decreases k
  {
    if k > 0 {
      ResolveFrame(v, w, names, c, k - 1);
      assert names[..k][..k - 1] == names[..k - 1];
      ResolveMeetsOnce(v, names, k - 1);
      var b := Resolve(v, names[..k - 1]).value;
      var p := ResolveWalks(v, names[..k - 1]);
      assert Reached(v, b);
    }
  }

  // ----- the invariant

  /** The path is a canonical absolute path and names the current directory. */
  ghost predicate PathAgrees(st: State) {
    var names := Components(st.path);
    AllProper(names) && st.path == Join(names) && Resolve(st.vol, names) == Some(st.cwd)
  }

  ghost predicate WellFormed(st: State) {
    TreeVolume(st.vol) && PathAgrees(st)
  }

  lemma CwdReached(st: State)
    requires PathAgrees(st)
    ensures Reached(st.vol, st.cwd)
  {
    var p := ResolveWalks(st.vol, Components(st.path));
  }

  /** In a well-formed state the current cluster is on the volume and the path starts with a slash. */
  lemma WellFormedBounds(st: State)
    requires WellFormed(st)
    ensures ROOT <= st.cwd < |st.vol.dirs| && Absolute(st.path)
  {
    var names := Components(st.path);
    var p := ResolveWalks(st.vol, names);
    assert SoundAt(st.vol, p);
    if names != [] {
      JoinStartsWithSlash(names);
    }
  }

  /** The current cluster and the root are in use. */
  lemma WellFormedCells(st: State)
    requires WellFormed(st)
    ensures st.cwd < |st.vol.dirs| && st.vol.fat[st.cwd] != 0 && st.vol.fat[ROOT] != 0
  {
    var p := ResolveWalks(st.vol, Components(st.path));
    assert SoundAt(st.vol, p) && SoundAt(st.vol, []);
  }

  /** The path keeps naming the current directory while no other directory of the tree changes. */
  lemma PathSurvives(st: State, w: Vol)
    requires WellFormed(st) && SameDirs(st.vol, w, {st.cwd})
    ensures PathAgrees(st.(vol := w))
  {
    var names := Components(st.path);
    ResolveFrame(st.vol, w, names, st.cwd, |names|);
    assert names[..|names|] == names;
  }

  // ----- one component of cd

  lemma WellFormedAt(v: Vol, names: seq<Text>, c: nat)
    requires TreeVolume(v) && AllProper(names) && Resolve(v, names) == Some(c)
    ensures WellFormed(State(v, c, Join(names)))
  {
    ComponentsOfJoin(names);
  }

  /** The second slot of a directory holds its container, which reads as "none" in the root's children. */
  lemma ParentLaw(v: Vol, names: seq<Text>)
    requires TreeVolume(v) && Resolve(v, names).Some?
    ensures |names| > 0 ==> Resolve(v, names[..|names| - 1]).Some?
    ensures ParentOf(v, Resolve(v, names).value) == if |names| <= 1 then 0 else Resolve(v, names[..|names| - 1]).value
    ensures |names| > 1 ==> Resolve(v, names[..|names| - 1]).value != 0
  {
    if names != [] {
      var front := names[..|names| - 1];
      var p := ResolveWalks(v, names);
      assert SoundAt(v, p);
      assert Walk(v, p[..|p| - 1]) == Resolve(v, front);
      NotTheRoot(v, names);
      if |names| > 1 {
        NotTheRoot(v, front);
        WalkPrefix(v, p, |p| - 1);
        assert SoundAt(v, p[..|p| - 1]);
      }
    }
  }

  lemma NotTheRoot(v: Vol, names: seq<Text>)
    requires Tree(v) && Resolve(v, names).Some? && names != []
    ensures Resolve(v, names) != Some(ROOT)
  {
    ResolveMeetsOnce(v, names, 0);
    assert names[..0] == [];
  }

  /** Exact law of "..": nothing changes in the root and in its children; elsewhere the last component is dropped. */
  lemma UpLaw(st: State)
    requires WellFormed(st)
    ensures var names := Components(st.path);
            && (|names| > 1 ==> Resolve(st.vol, names[..|names| - 1]).Some?)
            && CdStep(st, UP) ==
                 if |names| <= 1 then Some(st)
                 else Some(State(st.vol, Resolve(st.vol, names[..|names| - 1]).value, Join(names[..|names| - 1])))
  {
    var names := Components(st.path);
    ParentLaw(st.vol, names);
    if names != [] {
      PopOfJoin(names);
    }
  }

  /** When ".." changes anything, it cuts the path behind its first character, never at the slash of the root. */
  lemma UpNeverCutsTheRoot(st: State)
    requires WellFormed(st)
    ensures CdStep(st, UP) != Some(st) ==> LastSlash(st.path) > 0
  {
    hide TreeVolume, Resolve, ParentOf;
    var names := Components(st.path);
    UpLaw(st);
    if |names| > 1 {
      var front, last := names[..|names| - 1], names[|names| - 1];
      JoinStartsWithSlash(front);
      assert st.path == JoinAll(front) + [SLASH] + last;
      assert st.path[|JoinAll(front)|] == SLASH;
    }
  }

  /** Entering a named directory appends the name and keeps the invariant. */
  lemma EnterLaw(st: State, name: Text)
    requires WellFormed(st) && Proper(name)
    ensures var names := Components(st.path);
            CdStep(st, name) ==
              match Resolve(st.vol, names + [name])
              case None => None
              case Some(c) => Some(State(st.vol, c, Join(names + [name])))
  {
    var names := Components(st.path);
    assert (names + [name])[..|names|] == names;
    PushOfJoin(names, name);
  }

  lemma CdStepKeeps(st: State, name: Text)
    requires WellFormed(st) && name != [] && SLASH !in name
    ensures CdStep(st, name).Some? ==> WellFormed(CdStep(st, name).value) && CdStep(st, name).value.vol == st.vol
  {
    hide TreeVolume, Enter, ParentOf, PopPath, PushPath, Resolve, Join;
    var names := Components(st.path);
    if name == UP {
      UpLaw(st);
      if |names| > 1 {
        var front := names[..|names| - 1];
        WellFormedAt(st.vol, front, Resolve(st.vol, front).value);
      }
    } else if name != HERE {
      EnterLaw(st, name);
      if Resolve(st.vol, names + [name]).Some? {
        WellFormedAt(st.vol, names + [name], Resolve(st.vol, names + [name]).value);
      }
    }
  }

  lemma {:induction false} CdFoldKeeps(st: State, names: seq<Text>)
    requires WellFormed(st) && forall i :: 0 <= i < |names| ==> names[i] != [] && SLASH !in names[i]
    ensures CdFold(st, names).Some? ==> WellFormed(CdFold(st, names).value) && CdFold(st, names).value.vol == st.vol
    decreases |names|
  {
    if names != [] {
      CdStepKeeps(st, names[0]);
      if CdStep(st, names[0]).Some? {
        CdFoldKeeps(CdStep(st, names[0]).value, names[1..]);
      }
    }
  }

  lemma CdStartKeeps(st: State, arg: Text)
    requires WellFormed(st)
    ensures WellFormed(CdStart(st, arg))
  {
    WellFormedAt(st.vol, [], ROOT);
  }

  /** cd, whatever its argument, keeps the invariant and changes nothing on the volume. */
  lemma CdKeeps(st: State, arg: Text)
    requires WellFormed(st)
    ensures WellFormed(Cd(st, arg)) && Cd(st, arg).vol == st.vol
  {
    CdStartKeeps(st, arg);
    ComponentsAreNames(arg);
    CdFoldKeeps(CdStart(st, arg), Components(arg));
  }

  // ----- laws of cd

  lemma {:induction false} CdFoldConcat(st: State, a: seq<Text>, b: seq<Text>)
    ensures CdFold(st, a + b) ==
              match CdFold(st, a)
              case None => None
              case Some(next) => CdFold(next, b)
    decreases |a|
  {
    if a == [] {
      assert a + b == b;
    } else {
      assert (a + b)[1..] == a[1..] + b;
      if CdStep(st, a[0]).Some? {
        CdFoldConcat(CdStep(st, a[0]).value, a[1..], b);
      }
    }
  }

  /** cd of "a/b" is cd of a and then of b, all or nothing. */
  lemma CdComposes(st: State, a: Text, b: Text)
    requires a != [] && !Absolute(b)
    ensures CdResult(st, a + [47] + b) ==
              match CdResult(st, a)
              case None => None
              case Some(next) => CdResult(next, b)
    ensures CdResult(st, a + [47] + b) == None ==> Cd(st, a + [47] + b) == st
  {
    ComponentsOfConcat(a, b);
    CdFoldConcat(CdStart(st, a), Components(a), Components(b));
  }

  /** Doubling a slash, or a component "." between slashes, changes nothing. */
  lemma CdIgnores(st: State, a: Text, b: Text)
    requires a != []
    ensures CdResult(st, a + [47] + [47] + b) == CdResult(st, a + [47] + b)
    ensures CdResult(st, a + [47] + [46] + [47] + b) == CdResult(st, a + [47] + b)
  {
    ComponentsOfConcat(a, b);
    ComponentsOfConcat(a, [SLASH] + b);
    assert a + [SLASH] + [SLASH] + b == a + [SLASH] + ([SLASH] + b);
    assert ([SLASH] + b)[1..] == b;
    ComponentsOfConcat(a, HERE + [SLASH] + b);
    assert a + [SLASH] + HERE + [SLASH] + b == a + [SLASH] + (HERE + [SLASH] + b);
    ComponentsOfConcat(HERE, b);
    ComponentsOfName(HERE);
    var start := CdStart(st, a);
    CdFoldConcat(start, Components(a), Components(b));
    CdFoldConcat(start, Components(a), [HERE] + Components(b));
    assert forall next: State :: CdFold(next, [HERE] + Components(b)) == CdFold(next, ([HERE] + Components(b))[1..]);
    assert ([HERE] + Components(b))[1..] == Components(b);
  }

  /** Entering proper names from a well-formed state resolves them, or fails if they do not resolve. */
  lemma {:induction false} CdFoldResolves(st: State, names: seq<Text>)
    requires WellFormed(st) && AllProper(names)
    ensures var all := Components(st.path) + names;
            CdFold(st, names) ==
              match Resolve(st.vol, all)
              case None => None
              case Some(c) => Some(State(st.vol, c, Join(all)))
    decreases |names|
  {
    var here := Components(st.path);
    if names == [] {
      assert here + names == here;
    } else {
      var longer := here + [names[0]];
      assert here + names == longer + names[1..];
      EnterLaw(st, names[0]);
      CdStepKeeps(st, names[0]);
      if Resolve(st.vol, longer).Some? {
        ComponentsOfJoin(longer);
        CdFoldResolves(CdStep(st, names[0]).value, names[1..]);
      } else {
        ResolveFails(st.vol, longer, names[1..]);
      }
    }
  }

  lemma {:induction false} ResolveFails(v: Vol, a: seq<Text>, b: seq<Text>)
    requires Resolve(v, a).None?
    ensures Resolve(v, a + b).None?
    decreases |b|
  {
    if b == [] {
      assert a + b == a;
    } else {
      ResolveFails(v, a, b[..|b| - 1]);
      assert (a + b)[..|a + b| - 1] == a + b[..|b| - 1];
    }
  }

  /**
   The text of the path is a faithful name of the current directory: cd to it leads back there from anywhere on
   the volume.
   */
  lemma CdToPath(st: State, from: State)
    requires WellFormed(st) && from.vol == st.vol
    ensures Cd(from, st.path) == st
  {
    var names := Components(st.path);
    if names != [] {
      JoinStartsWithSlash(names);
    }
    var start := CdStart(from, st.path);
    assert start == State(st.vol, ROOT, Join([]));
    WellFormedAt(st.vol, [], ROOT);
    ComponentsOfJoin([]);
    CdFoldResolves(start, names);
    assert [] + names == names;
  }

  lemma {:induction false} JoinStartsWithSlash(names: seq<Text>)
    requires names != []
    ensures JoinAll(names) != [] && JoinAll(names)[0] == SLASH
    decreases |names|
  {
    if |names| > 1 {
      JoinStartsWithSlash(names[..|names| - 1]);
    }
  }

  /** An absolute argument gives a result that does not depend on where cd starts. */
  lemma CdAbsolute(st: State, from: State, arg: Text)
    requires arg != [] && arg[0] == 47 && from.vol == st.vol
    ensures CdResult(from, arg) == CdResult(st, arg)
  {
    assert CdStart(from, arg) == CdStart(st, arg);
  }

  /**
   Entering a child and then ".." leads back exactly when the starting directory is not the root; from the root
   it stays in the child.
   */
  lemma EnterThenUp(st: State, name: Text)
    requires WellFormed(st) && Proper(name) && CdStep(st, name).Some?
    ensures var child := CdStep(st, name).value;
            && CdStep(child, UP) == Some(if st.cwd == ROOT then child else st)
            && child != st
  {
    var names := Components(st.path);
    var all := names + [name];
    EnterLaw(st, name);
    var child := CdStep(st, name).value;
    WellFormedAt(st.vol, all, child.cwd);
    ComponentsOfJoin(all);
    UpLaw(child);
    assert all[..|all| - 1] == names;
    if names != [] {
      NotTheRoot(st.vol, names);
    }
    ResolveMeetsOnce(st.vol, all, |all| - 1);
  }

  // ----- runs

  lemma TouchKeeps(st: State, name: Text)
    requires WellFormed(st)
    ensures WellFormed(st.(vol := Touch(st.vol, st.cwd, name)))
  {
    CwdReached(st);
    TouchKeepsTree(st.vol, st.cwd, name);
    PathSurvives(st, Touch(st.vol, st.cwd, name));
  }

  lemma RmKeeps(st: State, name: Text)
    requires WellFormed(st)
    ensures WellFormed(st.(vol := Rm(st.vol, st.cwd, name)))
  {
    CwdReached(st);
    RmKeepsTree(st.vol, st.cwd, name);
    PathSurvives(st, Rm(st.vol, st.cwd, name));
  }

  lemma StepKeeps(st: State, cmd: Command)
    requires WellFormed(st)
    ensures WellFormed(Step(st, cmd))
  {
    match cmd
    case MkdirCmd(name) => MkdirKeeps(st, name);
    case TouchCmd(name) => TouchKeeps(st, name);
    case RmCmd(name) => RmKeeps(st, name);
    case CdCmd(arg) => CdKeeps(st, arg);
  }

  /**
   mkdir interrupted after any of its sector writes leaves a well-formed state: the path still names the
   current directory, and so does "/" after a restart that begins in the root.
   */
  lemma MkdirPrefixKeeps(st: State, name: Text, w: Vol)
    requires WellFormed(st) && w in MkdirStages(st.vol, st.cwd, name)
    ensures WellFormed(st.(vol := w)) && WellFormed(State(w, ROOT, [SLASH]))
  {
    CwdReached(st);
    MkdirPrefixKeepsTree(st.vol, st.cwd, name, w);
    PathSurvives(st, w);
    WellFormedAt(w, [], ROOT);
  }

  lemma MkdirKeeps(st: State, name: Text)
    requires WellFormed(st)
    ensures WellFormed(st.(vol := Mkdir(st.vol, st.cwd, name)))
  {
    var w := Mkdir(st.vol, st.cwd, name);
    var stages := MkdirStages(st.vol, st.cwd, name);
    if stages != [] {
      assert stages[|stages| - 1] == w;
      MkdirPrefixKeeps(st, name, w);
    }
  }

  /**
   Over every run of mkdir, touch, rm and cd: the live directories form a tree of allocated, initialised
   directories with correct dot entries, and the path names the current directory, which is part of the tree.
   */
  lemma {:induction false} RunKeepsWellFormed(st: State, cmds: seq<Command>)
    requires WellFormed(st)
    ensures WellFormed(Run(st, cmds)) && Reached(Run(st, cmds).vol, Run(st, cmds).cwd)
    decreases |cmds|
  {
    if cmds == [] {
      CwdReached(st);
    } else {
      StepKeeps(st, cmds[0]);
      RunKeepsWellFormed(Step(st, cmds[0]), cmds[1..]);
    }
  }

  /** A freshly formatted volume, whose root was never written, is a well-formed start. */
  lemma FreshVolumeWellFormed(v: Vol)
    requires v.fat[ROOT] != 0 && v.dirs[ROOT] == EmptyDir()
    ensures WellFormed(State(v, ROOT, [SLASH]))
  {
    forall p
      ensures Walk(v, p) == if p == [] then Some(ROOT) else None
    {
      OnlyTheRoot(v, p);
    }
    WellFormedAt(v, [], ROOT);
  }

  lemma {:induction false} OnlyTheRoot(v: Vol, p: seq<nat>)
    requires v.dirs[ROOT] == EmptyDir()
    ensures Walk(v, p) == if p == [] then Some(ROOT) else None
    decreases |p|
  {
    if p != [] {
      OnlyTheRoot(v, p[..|p| - 1]);
    }
  }
}
