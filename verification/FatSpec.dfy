/**
 The file system on values: the FAT, the directory of every cluster, the current directory and its path,
 and what one command does to them.
 */
module FatSpec {
  import opened Words
  import opened Sectors
  import opened FatNames

  const ROOT := 2
  const FAT_SECTORS_SCANNED := 100
  const SCAN_LIMIT := FAT_SECTORS_SCANNED * CELLS_PER_SECTOR
  const END_OF_CHAIN: Word32 := 0x0FFF_FFFF
  const DIRECTORY: Byte := 0x10
  const ARCHIVE: Byte := 0x20

  function EmptyDir(): Dir {
    seq(SLOTS, _ => ZeroEntry())
  }

  /** `fat[c]` is the FAT cell of cluster c and `dirs[c]` its first sector, read as a directory. */
  datatype Volume = Volume(fat: seq<Word32>, dirs: seq<Dir>)

  type Vol = v: Volume | SCAN_LIMIT <= |v.fat| == |v.dirs| <= 0x1_0000_0000
    witness Volume(seq(SCAN_LIMIT, _ => 0), seq(SCAN_LIMIT, _ => EmptyDir()))

  datatype State = State(vol: Vol, cwd: nat, path: Text)

  function DirAt(v: Vol, c: nat): Dir {
    if c < |v.dirs| then v.dirs[c] else EmptyDir()
  }

  function SetDir(v: Vol, c: nat, d: Dir): Vol {
    if c < |v.dirs| then v.(dirs := v.dirs[c := d]) else v
  }

  // ----- directory scans

  /** The least index from `i` on whose entry satisfies `p`, or 16. */
  function FirstSlot(d: Dir, p: Entry -> bool, i: nat := 0): (r: nat)
    requires i <= SLOTS
    ensures r <= SLOTS
    decreases SLOTS - i
  {
    if i == SLOTS || p(d[i]) then i else FirstSlot(d, p, i + 1)
  }

  lemma {:induction false} FirstSlotLeast(d: Dir, p: Entry -> bool, i: nat)
    requires i <= SLOTS
    ensures var r := FirstSlot(d, p, i);
            i <= r && (forall k :: i <= k < r ==> !p(d[k])) && (r < SLOTS ==> p(d[r]))
    decreases SLOTS - i
  {
    if i < SLOTS && !p(d[i]) {
      FirstSlotLeast(d, p, i + 1);
    }
  }

  /** The slot that a lookup of `name` selects. */
  function FindSlot(d: Dir, name: Text): (r: nat)
    ensures r <= SLOTS
  {
    FirstSlot(d, e => Live(e) && Matches(name, e))
  }

  /** It is the first live slot that the name matches. */
  lemma FindSlotLeast(d: Dir, name: Text)
    ensures var r := FindSlot(d, name);
            && (forall k :: 0 <= k < r ==> !(Live(d[k]) && Matches(name, d[k])))
            && (r < SLOTS ==> Live(d[r]) && Matches(name, d[r]))
  {
    FirstSlotLeast(d, e => Live(e) && Matches(name, e), 0);
  }

  /** The slot that rm and cat select: they compare names without asking whether the slot is live. */
  function MatchSlot(d: Dir, name: Text): (r: nat)
    ensures r <= SLOTS
  {
    FirstSlot(d, e => Matches(name, e))
  }

  lemma MatchSlotLeast(d: Dir, name: Text)
    ensures var r := MatchSlot(d, name);
            && (forall k :: 0 <= k < r ==> !Matches(name, d[k]))
            && (r < SLOTS ==> Matches(name, d[r]))
  {
    FirstSlotLeast(d, e => Matches(name, e), 0);
  }

  /** The slot that mkdir and touch fill. */
  function FreeSlot(d: Dir): (r: nat)
    ensures r <= SLOTS
    ensures forall k :: 0 <= k < r ==> Live(d[k])
    ensures r < SLOTS ==> !Live(d[r])
  {
    FirstSlotLeast(d, e => !Live(e), 0);
    FirstSlot(d, e => !Live(e))
  }

  function FindFile(d: Dir, name: Text): Option<Entry> {
    var i := FindSlot(d, name);
    if i < SLOTS then Some(d[i]) else None
  }

  /** The entries that ls prints: it stops at the first slot never used and skips deleted slots. */
  function Listing(d: Dir, i: nat := 0): seq<Entry>
    requires i <= SLOTS
    decreases SLOTS - i
  {
    if i == SLOTS || d[i].name[0] == 0 then []
    else (if d[i].name[0] == DELETED then [] else [d[i]]) + Listing(d, i + 1)
  }

  function ClusterOf(e: Entry): nat {
    e.clusterHigh as int * 0x1_0000 + e.clusterLow as int
  }

  /** The least cluster from `c` on whose cell is zero, below the limit of the scan, or 0. */
  function FreeCluster(fat: seq<Word32>, c: nat := ROOT): (r: nat)
    requires |fat| >= SCAN_LIMIT && c >= ROOT
    ensures r == 0 || (c <= r < 12800 && fat[r] == 0)
    ensures forall k :: c <= k < (if r == 0 then 12800 else r) ==> fat[k] != 0
    decreases SCAN_LIMIT - c
  {
    if c >= SCAN_LIMIT then 0
    else if fat[c] == 0 then c
    else FreeCluster(fat, c + 1)
  }

  // ----- commands that write

  function WithCluster(e: Entry, c: nat): Entry {
    e.(clusterLow := c % 0x1_0000, clusterHigh := c / 0x1_0000 % 0x1_0000)
  }

  const DOT_NAME: Name11 := [DOT, SPACE, SPACE, SPACE, SPACE, SPACE, SPACE, SPACE, SPACE, SPACE, SPACE]
  const DOT_DOT_NAME: Name11 := [DOT, DOT, SPACE, SPACE, SPACE, SPACE, SPACE, SPACE, SPACE, SPACE, SPACE]

  function DotEntry(name: Name11, c: nat): Entry {
    WithCluster(ZeroEntry().(name := name, attributes := DIRECTORY), c)
  }

  /** The first sector of a new directory. */
  function ChildDir(c: nat, parent: nat): Dir {
    [DotEntry(DOT_NAME, c), DotEntry(DOT_DOT_NAME, parent)] + seq(SLOTS - 2, _ => ZeroEntry())
  }

  /** The link that mkdir stores over the entry `e` of a free slot. */
  function DirectoryEntry(e: Entry, name: Text, c: nat): Entry {
    WithCluster(e.(name := StoredName(name), attributes := DIRECTORY, fileSize := 0), c)
  }

  function FileEntry(e: Entry, name: Text): Entry {
    e.(name := StoredName(name), attributes := ARCHIVE, clusterLow := 0, clusterHigh := 0, fileSize := 0)
  }

  /** What ".." of a child of `c` holds. */
  function ContainerLink(c: nat): nat {
    if c == ROOT then 0 else c
  }

  /** mkdir gets past its checks: the name is not found and a cluster is free. */
  predicate MkdirStarts(v: Vol, cwd: nat, name: Text) {
    FindSlot(DirAt(v, cwd), name) == SLOTS && FreeCluster(v.fat) != 0
  }

  /** mkdir's first write: the FAT cell of the new cluster. */
  function Claimed(v: Vol): Vol
    requires FreeCluster(v.fat) != 0
  {
    v.(fat := v.fat[FreeCluster(v.fat) := END_OF_CHAIN])
  }

  /** Its second write: the first sector of the new directory. */
  function Filled(v: Vol, cwd: nat): Vol
    requires FreeCluster(v.fat) != 0
  {
    SetDir(Claimed(v), FreeCluster(v.fat), ChildDir(FreeCluster(v.fat), ContainerLink(cwd)))
  }

  /** The link that mkdir stores in the first free slot of directory `d`. */
  function NewLink(v: Vol, d: Dir, name: Text): Entry
    requires FreeSlot(d) < SLOTS
  {
    DirectoryEntry(d[FreeSlot(d)], name, FreeCluster(v.fat))
  }

  /** Its third write: the directory read before the other two, with the link in its first free slot. */
  function Linked(v: Vol, cwd: nat, name: Text): Vol
    requires FreeCluster(v.fat) != 0 && FreeSlot(DirAt(v, cwd)) < SLOTS
  {
    var d := DirAt(v, cwd);
    SetDir(Filled(v, cwd), cwd, d[FreeSlot(d) := NewLink(v, d, name)])
  }

  /** The volume after each sector that mkdir writes, in order. */
  function MkdirStages(v: Vol, cwd: nat, name: Text): seq<Vol> {
    if !MkdirStarts(v, cwd, name) then []
    else if FreeSlot(DirAt(v, cwd)) == SLOTS then [Claimed(v), Filled(v, cwd)]
    else [Claimed(v), Filled(v, cwd), Linked(v, cwd, name)]
  }

  function Mkdir(v: Vol, cwd: nat, name: Text): Vol {
    if !MkdirStarts(v, cwd, name) then v
    else if FreeSlot(DirAt(v, cwd)) == SLOTS then Filled(v, cwd)
    else Linked(v, cwd, name)
  }

  /** The directory after touch. */
  function AfterTouch(d: Dir, name: Text): Dir {
    var i := FreeSlot(d);
    if i == SLOTS then d else d[i := FileEntry(d[i], name)]
  }

  function Touch(v: Vol, cwd: nat, name: Text): Vol {
    SetDir(v, cwd, AfterTouch(DirAt(v, cwd), name))
  }

  function Deleted(e: Entry): Entry {
    e.(name := e.name[0 := DELETED])
  }

  /** The directory after rm. */
  function AfterRm(d: Dir, name: Text): Dir {
    var i := MatchSlot(d, name);
    if i == SLOTS then d else d[i := Deleted(d[i])]
  }

  function Rm(v: Vol, cwd: nat, name: Text): Vol {
    SetDir(v, cwd, AfterRm(DirAt(v, cwd), name))
  }

  lemma SetDirSame(v: Vol, c: nat)
    ensures SetDir(v, c, DirAt(v, c)) == v
  {
  }

  // ----- paths

  /** The number of characters before the first slash. */
  function ComponentLength(t: Text): (n: nat)
    ensures n <= |t|
    ensures SLASH !in t[..n]
    ensures n < |t| ==> t[n] == SLASH
  {
    if t == [] || t[0] == SLASH then 0
    else
      var n := 1 + ComponentLength(t[1..]);
      assert t[..n] == [t[0]] + t[1..][..n - 1];
      n
  }

  /** The nonempty pieces of a path between its slashes. */
  function Components(t: Text): seq<Text>
    decreases |t|
  {
    if t == [] then []
    else if t[0] == SLASH then Components(t[1..])
    else
      var n := ComponentLength(t);
      [t[..n]] + Components(t[n..])
  }

  function PushPath(path: Text, component: Text): Text {
    (if path != [] && path[|path| - 1] == SLASH then path else path + [SLASH]) + component
  }

  /** The index of the last slash, or -1. */
  function LastSlash(t: Text): (k: int)
    ensures -1 <= k < |t|
    ensures k >= 0 ==> t[k] == SLASH
    ensures forall j :: k < j < |t| ==> t[j] != SLASH
  {
    if t == [] then -1
    else if t[|t| - 1] == SLASH then |t| - 1
    else LastSlash(t[..|t| - 1])
  }

  /** The path with its last component cut off, as ".." does it. */
  function PopPath(path: Text): Text {
    if |path| <= 1 then path
    else if LastSlash(path) <= 0 then path[..1]
    else path[..LastSlash(path)]
  }

  // ----- cd

  const HERE: Text := [DOT]
  const UP: Text := [DOT, DOT]

  /** The cluster of the directory called `name` in directory `c`. */
  function Enter(v: Vol, c: nat, name: Text): Option<nat> {
    match FindFile(DirAt(v, c), name)
    case None => None
    case Some(e) => if IsDirectory(e) then Some(ClusterOf(e)) else None
  }

  /** The cluster in the second slot of directory `c` if that slot looks like "..", and 0 otherwise or for the root. */
  function ParentOf(v: Vol, c: nat): nat {
    var e := DirAt(v, c)[1];
    if c == ROOT || e.name[0] != DOT then 0 else ClusterOf(e)
  }

  function CdStep(st: State, name: Text): Option<State> {
    if name == UP then
      var p := ParentOf(st.vol, st.cwd);
      Some(if p == 0 then st else st.(cwd := p, path := PopPath(st.path)))
    else if name == HERE then Some(st)
    else
      match Enter(st.vol, st.cwd, name)
      case None => None
      case Some(c) => Some(st.(cwd := c, path := PushPath(st.path, name)))
  }

  function CdFold(st: State, names: seq<Text>): Option<State>
    decreases |names|
  {
    if names == [] then Some(st)
    else
      match CdStep(st, names[0])
      case None => None
      case Some(next) => CdFold(next, names[1..])
  }

  predicate Absolute(arg: Text) {
    arg != [] && arg[0] == SLASH
  }

  function CdStart(st: State, arg: Text): State {
    if Absolute(arg) then st.(cwd := ROOT, path := [SLASH]) else st
  }

  function CdResult(st: State, arg: Text): Option<State> {
    CdFold(CdStart(st, arg), Components(arg))
  }

  function Cd(st: State, arg: Text): State {
    match CdResult(st, arg)
    case None => st
    case Some(next) => next
  }

  // ----- runs

  datatype Command = MkdirCmd(name: Text) | TouchCmd(name: Text) | RmCmd(name: Text) | CdCmd(arg: Text)

  function Step(st: State, cmd: Command): State {
    match cmd
    case MkdirCmd(name) => st.(vol := Mkdir(st.vol, st.cwd, name))
    case TouchCmd(name) => st.(vol := Touch(st.vol, st.cwd, name))
    case RmCmd(name) => st.(vol := Rm(st.vol, st.cwd, name))
    case CdCmd(arg) => Cd(st, arg)
  }

  function Run(st: State, cmds: seq<Command>): State
    decreases |cmds|
  {
    if cmds == [] then st else Run(Step(st, cmds[0]), cmds[1..])
  }
}
