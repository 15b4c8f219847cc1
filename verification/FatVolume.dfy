/**
 * A whole FAT32 volume: what a path reads as, what the driver needs to be true of the disk, and why
 * each kind of disk change `write_file` makes leaves every other file alone.
 */
module FatVolume {
  import opened Bytes
  import opened SdCard
  import opened Options
  import opened FatGeometry
  import opened FatChain
  import opened FatDir

  // ---------- what readers see ----------

  function ChainOf(g: Fat32, d: Disk, first: nat): (cs: seq<nat>)
    requires g.Valid(|d|)
    ensures InTable(g, cs)
  {
    Follow(Fat(g, d), first, g.MaxCluster())
  }

  function DirOf(g: Fat32, d: Disk, first: nat): seq<Slot>
    requires g.Valid(|d|)
  {
    var cs := ChainOf(g, d, first);
    LbasOnDisk(g, d, cs);
    Dir(d, Lbas(g, cs))
  }

  function ChainBytes(g: Fat32, d: Disk, first: nat): seq<byte>
    requires g.Valid(|d|)
  {
    var cs := ChainOf(g, d, first);
    LbasOnDisk(g, d, cs);
    Content(d, Lbas(g, cs))
  }

  /** A file's content: its chain's bytes up to the recorded size; first cluster 0 means empty. */
  function FileBytes(g: Fat32, d: Disk, first: nat, size: nat): seq<byte>
    requires g.Valid(|d|)
  {
    if first == 0 then []
    else
      var b := ChainBytes(g, d, first);
      b[..if size < |b| then size else |b|]
  }

  datatype Walk = Blocked | Missing | At(first: nat, size: nat, dir: bool)

  /**
   * Path resolution component by component, as the driver walks it: a component that is not a
   * directory leaves the walk where it was. `avoid` marks one root-directory name as off limits.
   */
  function Resolve(g: Fat32, d: Disk, dir: nat, path: seq<Name>, avoid: Option<Name>): Walk
    requires g.Valid(|d|)
    decreases |path|
  {
    if path == [] then At(dir, 0, true)
    else if dir == g.rootCluster && avoid == Some(path[0]) then Blocked
    else
      match Find(DirOf(g, d, dir), path[0])
      case None => Missing
      case Some(s) =>
        if |path| == 1 then At(FirstOf(s), SizeOf(s), IsDir(s))
        else Resolve(g, d, NextDir(g, dir, s), path[1..], avoid)
  }

  function NextDir(g: Fat32, dir: nat, s: Slot): nat {
    if !IsDir(s) then dir else if FirstOf(s) == 0 then g.rootCluster else FirstOf(s)
  }

  function Reading(g: Fat32, d: Disk, w: Walk): Option<seq<byte>>
    requires g.Valid(|d|)
  {
    if w.At? && !w.dir then Some(FileBytes(g, d, w.first, w.size)) else None
  }

  /** The content of the file a path names, from the root; None when there is no such file. */
  function PathBytes(g: Fat32, d: Disk, path: seq<Name>): Option<seq<byte>>
    requires g.Valid(|d|)
  {
    Reading(g, d, Resolve(g, d, g.rootCluster, path, None))
  }

  /** The path never looks `name` up in the root directory. */
  ghost predicate Avoids(g: Fat32, d: Disk, path: seq<Name>, name: Name)
    requires g.Valid(|d|)
  {
    Resolve(g, d, g.rootCluster, path, Some(name)) != Blocked
  }

  /** Walking the path looks something up in the directory that starts at `t`. */
  ghost predicate Enters(g: Fat32, d: Disk, dir: nat, path: seq<Name>, t: nat)
    requires g.Valid(|d|)
    decreases |path|
  {
    && path != []
    && (dir == t ||
        match Find(DirOf(g, d, dir), path[0])
        case None => false
        case Some(s) => Enters(g, d, NextDir(g, dir, s), path[1..], t))
  }

  /** Every file whose path avoids `name`, in the root or nested, reads byte for byte the same. */
  ghost predicate OthersKept(g: Fat32, d: Disk, d': Disk, name: Name)
    requires g.Valid(|d|) && |d'| == |d|
  {
    forall path :: Avoids(g, d, path, name) ==> PathBytes(g, d', path) == PathBytes(g, d, path)
  }

  /** The same, for the files whose paths stay out of the directory at `t` as well. */
  ghost predicate OutsidersKept(g: Fat32, d: Disk, d': Disk, name: Name, t: nat)
    requires g.Valid(|d|) && |d'| == |d|
  {
    forall path :: Avoids(g, d, path, name) && !Enters(g, d, g.rootCluster, path, t) ==>
      PathBytes(g, d', path) == PathBytes(g, d, path) && Avoids(g, d', path, name)
  }

  ghost predicate AllKept(g: Fat32, d: Disk, d': Disk)
    requires g.Valid(|d|) && |d'| == |d|
  {
    forall path :: PathBytes(g, d', path) == PathBytes(g, d, path)
  }

  // ---------- well-formed volumes ----------

  /** The chains the directory tree refers to, by head, and which of those heads are directories. */
  datatype Layout = Layout(chains: map<nat, seq<nat>>, dirs: set<nat>)

  ghost predicate ChainsOk(fat: seq<nat>, chains: map<nat, seq<nat>>) {
    && (forall h :: h in chains ==> IsChain(fat, chains[h]) && chains[h][0] == h)
    && (forall h, h' :: h in chains && h' in chains && h != h' ==> Apart(chains[h], chains[h']))
  }

  lemma NoZeroHead(fat: seq<nat>, chains: map<nat, seq<nat>>)
    requires ChainsOk(fat, chains)
    ensures 0 !in chains
  {
  }

  ghost predicate EntryOk(lay: Layout, s: Slot) {
    FirstOf(s) == 0 || (FirstOf(s) in lay.chains && (IsDir(s) <==> FirstOf(s) in lay.dirs))
  }

  ghost predicate EntriesOk(g: Fat32, d: Disk, lay: Layout)
    requires g.Valid(|d|)
  {
    forall h, k :: h in lay.dirs && LiveAt(DirOf(g, d, h), k) ==> EntryOk(lay, DirOf(g, d, h)[k])
  }

  ghost predicate OwnsFile(slots: seq<Slot>, k: int, first: nat) {
    LiveAt(slots, k) && !IsDir(slots[k]) && FirstOf(slots[k]) == first
  }

  /** No two file entries anywhere share a chain. */
  ghost predicate SoleOwners(g: Fat32, d: Disk, lay: Layout)
    requires g.Valid(|d|)
  {
    forall h, k, h', k', f: nat ::
      (h in lay.dirs && h' in lay.dirs && f != 0
       && OwnsFile(DirOf(g, d, h), k, f) && OwnsFile(DirOf(g, d, h'), k', f)) ==> h == h' && k == k'
  }

  /**
   * Referenced chains are acyclic, in range and pairwise disjoint, entries point at their heads, and
   * the root directory has unique names and nothing after its first never-used slot. Clusters in use
   * that no entry refers to (leaks) are allowed.
   */
  ghost predicate Wf(g: Fat32, d: Disk, lay: Layout) {
    && g.Valid(|d|)
    && g.rootCluster in lay.dirs && lay.dirs <= lay.chains.Keys
    && ChainsOk(Fat(g, d), lay.chains)
    && EntriesOk(g, d, lay)
    && SoleOwners(g, d, lay)
    && Closed(DirOf(g, d, g.rootCluster))
    && UniqueNames(DirOf(g, d, g.rootCluster))
  }

  lemma WfValid(g: Fat32, d: Disk, lay: Layout)
    requires Wf(g, d, lay)
    ensures g.Valid(|d|) && g.rootCluster in lay.dirs && g.rootCluster in lay.chains
  {
  }

  // ---------- disk changes confined to some clusters ----------

  ghost predicate SameCluster(g: Fat32, d: Disk, d': Disk, c: nat)
    requires 2 <= c && |d'| == |d|
  {
    forall b :: 0 <= b < |d| && g.ClusterToLba(c) <= b < g.ClusterToLba(c) + g.sectorsPerCluster ==> d'[b] == d[b]
  }

  /** Outside `touched`, FAT entries and data are as they were; so is what is reserved. */
  ghost predicate OnlyClusters(g: Fat32, d: Disk, d': Disk, touched: set<nat>)
    requires g.Valid(|d|)
  {
    && |d'| == |d|
    && ReservedKept(g, d, d')
    && (forall c :: 0 <= c < g.MaxCluster() && c !in touched ==> Fat(g, d')[c] == Fat(g, d)[c])
    && (forall c :: 2 <= c < g.MaxCluster() && c !in touched ==> SameCluster(g, d, d', c))
  }

  lemma OnlyClustersTrans(g: Fat32, d: Disk, d1: Disk, d2: Disk, touched: set<nat>)
    requires g.Valid(|d|) && OnlyClusters(g, d, d1, touched) && OnlyClusters(g, d1, d2, touched)
    ensures OnlyClusters(g, d, d2, touched)
  {
    forall c | 2 <= c < g.MaxCluster() && c !in touched
      ensures SameCluster(g, d, d2, c)
    {
      assert SameCluster(g, d, d1, c) && SameCluster(g, d1, d2, c);
    }
  }

  lemma OnlyClustersJoin(g: Fat32, d: Disk, d1: Disk, d2: Disk, a: set<nat>, b: set<nat>, all: set<nat>)
    requires g.Valid(|d|) && OnlyClusters(g, d, d1, a) && OnlyClusters(g, d1, d2, b) && a + b <= all
    ensures OnlyClusters(g, d, d2, all) && |d| == |d1| == |d2|
  {
    OnlyClustersMono(g, d, d1, a, all);
    OnlyClustersMono(g, d1, d2, b, all);
    OnlyClustersTrans(g, d, d1, d2, all);
  }

  lemma OnlyClustersMono(g: Fat32, d: Disk, d': Disk, touched: set<nat>, more: set<nat>)
    requires g.Valid(|d|) && OnlyClusters(g, d, d', touched) && touched <= more
    ensures OnlyClusters(g, d, d', more) && |d'| == |d|
  {
  }

  lemma BlocksSame(g: Fat32, d: Disk, d': Disk, cs: seq<nat>)
    requires g.Valid(|d|) && |d'| == |d| && InTable(g, cs)
    requires forall c :: c in cs && 2 <= c ==> SameCluster(g, d, d', c)
    ensures OnDisk(d, Lbas(g, cs)) && OnDisk(d', Lbas(g, cs))
    ensures forall i :: 0 <= i < |Lbas(g, cs)| ==> d'[Lbas(g, cs)[i]] == d[Lbas(g, cs)[i]]
  {
    LbasOnDisk(g, d, cs);
    forall i | 0 <= i < |Lbas(g, cs)|
      ensures d'[Lbas(g, cs)[i]] == d[Lbas(g, cs)[i]]
    {
      var c, s := LbasOwner(g, cs, i);
      assert SameCluster(g, d, d', c);
    }
  }

  /** A chain's head leads back to its clusters, and so to its slots and bytes. */
  lemma ChainViews(g: Fat32, d: Disk, cs: seq<nat>)
    requires g.Valid(|d|) && IsChain(Fat(g, d), cs)
    ensures InTable(g, cs) && OnDisk(d, Lbas(g, cs)) && ChainOf(g, d, cs[0]) == cs
    ensures DirOf(g, d, cs[0]) == Dir(d, Lbas(g, cs))
    ensures ChainBytes(g, d, cs[0]) == Content(d, Lbas(g, cs))
  {
    FollowChain(Fat(g, d), cs);
    LbasOnDisk(g, d, cs);
  }

  lemma ViewsSame(g: Fat32, d: Disk, d': Disk, cs: seq<nat>)
    requires g.Valid(|d|) && |d'| == |d| && IsChain(Fat(g, d), cs) && IsChain(Fat(g, d'), cs)
    requires OnDisk(d, Lbas(g, cs))
    requires forall i :: 0 <= i < |Lbas(g, cs)| ==> d'[Lbas(g, cs)[i]] == d[Lbas(g, cs)[i]]
    ensures DirOf(g, d', cs[0]) == DirOf(g, d, cs[0])
    ensures ChainBytes(g, d', cs[0]) == ChainBytes(g, d, cs[0])
  {
    ChainViews(g, d, cs);
    ChainViews(g, d', cs);
    ContentSame(d, d', Lbas(g, cs));
    DirSame(d, d', Lbas(g, cs));
  }

  lemma ChainUntouched(g: Fat32, d: Disk, d': Disk, touched: set<nat>, cs: seq<nat>)
    requires g.Valid(|d|) && OnlyClusters(g, d, d', touched)
    requires IsChain(Fat(g, d), cs) && SetOf(cs) !! touched
    ensures IsChain(Fat(g, d'), cs)
    ensures DirOf(g, d', cs[0]) == DirOf(g, d, cs[0])
    ensures ChainBytes(g, d', cs[0]) == ChainBytes(g, d, cs[0])
  {
    forall c | c in cs
      ensures c !in touched
    {
      assert c in SetOf(cs);
    }
    ChainKept(Fat(g, d), Fat(g, d'), cs);
    BlocksSame(g, d, d', cs);
    ViewsSame(g, d, d', cs);
  }

  // ---------- frames ----------

  /** Everything a path that avoids `avoid` can reach is unchanged, the file or directory at `t` aside. */
  ghost predicate Unaffected(g: Fat32, d: Disk, d': Disk, lay: Layout, t: nat, avoid: Option<Name>)
    requires g.Valid(|d|)
  {
    && |d'| == |d|
    && (forall h :: h in lay.dirs && h != g.rootCluster && h != t ==> DirOf(g, d', h) == DirOf(g, d, h))
    && (forall n :: avoid != Some(n) ==>
          Find(DirOf(g, d', g.rootCluster), n) == Find(DirOf(g, d, g.rootCluster), n))
    && (forall h :: h in lay.chains && h !in lay.dirs && h != t ==> ChainBytes(g, d', h) == ChainBytes(g, d, h))
  }

  /** `t` is 0, or the first cluster of a directory, or that of the root-directory file called `avoid`. */
  ghost predicate Target(g: Fat32, d: Disk, lay: Layout, t: nat, avoid: Option<Name>)
    requires g.Valid(|d|)
  {
    var slots := DirOf(g, d, g.rootCluster);
    t == 0 || t in lay.dirs || (avoid.Some? && exists k :: OwnsFile(slots, k, t) && NameOf(slots[k]) == avoid.value)
  }

  /** A file entry other than the avoided one still reads the same. */
  lemma EntryKept(g: Fat32, d: Disk, d': Disk, lay: Layout, t: nat, avoid: Option<Name>, dir: nat, k: nat)
    requires Wf(g, d, lay) && Unaffected(g, d, d', lay, t, avoid) && Target(g, d, lay, t, avoid)
    requires dir in lay.dirs && LiveAt(DirOf(g, d, dir), k) && !IsDir(DirOf(g, d, dir)[k])
    requires !(dir == g.rootCluster && avoid == Some(NameOf(DirOf(g, d, dir)[k])))
    ensures var s := DirOf(g, d, dir)[k];
            FileBytes(g, d', FirstOf(s), SizeOf(s)) == FileBytes(g, d, FirstOf(s), SizeOf(s))
  {
    var s := DirOf(g, d, dir)[k];
    assert EntryOk(lay, s);
    if FirstOf(s) != 0 {
      assert OwnsFile(DirOf(g, d, dir), k, FirstOf(s));
      assert FirstOf(s) != t;
      assert ChainBytes(g, d', FirstOf(s)) == ChainBytes(g, d, FirstOf(s));
    }
  }

  lemma NextDirOk(g: Fat32, d: Disk, lay: Layout, dir: nat, k: nat)
    requires Wf(g, d, lay) && dir in lay.dirs && LiveAt(DirOf(g, d, dir), k)
    ensures NextDir(g, dir, DirOf(g, d, dir)[k]) in lay.dirs
  {
    assert EntryOk(lay, DirOf(g, d, dir)[k]);
  }

  lemma {:induction false} ResolveKept(
    g: Fat32, d: Disk, d': Disk, lay: Layout, t: nat, avoid: Option<Name>, dir: nat, path: seq<Name>)
    requires Wf(g, d, lay) && Unaffected(g, d, d', lay, t, avoid) && Target(g, d, lay, t, avoid)
    requires dir in lay.dirs && !Enters(g, d, dir, path, t) && (t == 0 || t != g.rootCluster)
    ensures Resolve(g, d', dir, path, avoid) == Resolve(g, d, dir, path, avoid)
    ensures Reading(g, d', Resolve(g, d', dir, path, avoid)) == Reading(g, d, Resolve(g, d, dir, path, avoid))
    decreases |path|
  {
    hide DirOf, Find, FileBytes, EntriesOk, SoleOwners, ChainsOk, Closed, UniqueNames, IsDir, FirstOf, SizeOf, Target;
    if path != [] && !(dir == g.rootCluster && avoid == Some(path[0])) {
      var slots := DirOf(g, d, dir);
      assert Find(DirOf(g, d', dir), path[0]) == Find(slots, path[0]);
      if Find(slots, path[0]).Some? {
        var k := FindWhere(slots, path[0]);
        if |path| > 1 {
          NextDirOk(g, d, lay, dir, k);
          ResolveKept(g, d, d', lay, t, avoid, NextDir(g, dir, slots[k]), path[1..]);
        } else if !IsDir(slots[k]) {
          EntryKept(g, d, d', lay, t, avoid, dir, k);
        }
      }
    }
  }

  /** Marking a name off limits changes nothing for paths that never look it up. */
  lemma {:induction false} ResolveAvoiding(g: Fat32, d: Disk, dir: nat, path: seq<Name>, name: Name)
    requires g.Valid(|d|)
    ensures var w := Resolve(g, d, dir, path, Some(name));
            w != Blocked ==> w == Resolve(g, d, dir, path, None)
    decreases |path|
  {
    if path != [] && !(dir == g.rootCluster && name == path[0]) {
      var f := Find(DirOf(g, d, dir), path[0]);
      if f.Some? && |path| > 1 {
        ResolveAvoiding(g, d, NextDir(g, dir, f.value), path[1..], name);
      }
    }
  }

  /** What is no directory is never looked into. */
  lemma {:induction false} NeverEnters(g: Fat32, d: Disk, lay: Layout, dir: nat, path: seq<Name>, t: nat)
    requires Wf(g, d, lay) && dir in lay.dirs && t !in lay.dirs
    ensures !Enters(g, d, dir, path, t)
    decreases |path|
  {
    hide DirOf, Find, EntriesOk, SoleOwners, ChainsOk, Closed, UniqueNames, IsDir, FirstOf;
    if path != [] && Find(DirOf(g, d, dir), path[0]).Some? {
      var k := FindWhere(DirOf(g, d, dir), path[0]);
      NextDirOk(g, d, lay, dir, k);
      NeverEnters(g, d, lay, NextDir(g, dir, DirOf(g, d, dir)[k]), path[1..], t);
    }
  }

  /** Changing the directory at `t` leaves every file alone whose path stays out of it and avoids the name. */
  lemma UnaffectedOutsiders(g: Fat32, d: Disk, d': Disk, lay: Layout, t: nat, name: Name)
    requires Wf(g, d, lay) && Unaffected(g, d, d', lay, t, Some(name)) && Target(g, d, lay, t, Some(name))
    requires t != g.rootCluster
    ensures OutsidersKept(g, d, d', name, t)
  {
    forall path | Avoids(g, d, path, name) && !Enters(g, d, g.rootCluster, path, t)
      ensures PathBytes(g, d', path) == PathBytes(g, d, path) && Avoids(g, d', path, name)
    {
      ResolveKept(g, d, d', lay, t, Some(name), g.rootCluster, path);
      ResolveAvoiding(g, d, g.rootCluster, path, name);
      ResolveAvoiding(g, d', g.rootCluster, path, name);
    }
  }

  lemma UnaffectedOthers(g: Fat32, d: Disk, d': Disk, lay: Layout, t: nat, name: Name)
    requires Wf(g, d, lay) && Unaffected(g, d, d', lay, t, Some(name)) && Target(g, d, lay, t, Some(name))
    requires t !in lay.dirs
    ensures OthersKept(g, d, d', name)
    ensures forall path :: Avoids(g, d', path, name) <==> Avoids(g, d, path, name)
  {
    forall path
      ensures Avoids(g, d', path, name) <==> Avoids(g, d, path, name)
      ensures Avoids(g, d, path, name) ==> PathBytes(g, d', path) == PathBytes(g, d, path)
    {
      NeverEnters(g, d, lay, g.rootCluster, path, t);
      ResolveKept(g, d, d', lay, t, Some(name), g.rootCluster, path);
      ResolveAvoiding(g, d, g.rootCluster, path, name);
      ResolveAvoiding(g, d', g.rootCluster, path, name);
    }
  }

  lemma UnaffectedAll(g: Fat32, d: Disk, d': Disk, lay: Layout, name: Name)
    requires Wf(g, d, lay) && Unaffected(g, d, d', lay, 0, None)
    ensures AllKept(g, d, d') && OthersKept(g, d, d', name)
    ensures forall path :: Avoids(g, d', path, name) <==> Avoids(g, d, path, name)
  {
    NoZeroHead(Fat(g, d), lay.chains);
    forall path
      ensures PathBytes(g, d', path) == PathBytes(g, d, path)
    {
      NeverEnters(g, d, lay, g.rootCluster, path, 0);
      ResolveKept(g, d, d', lay, 0, None, g.rootCluster, path);
    }
    UnaffectedOthers(g, d, d', lay, 0, name);
  }

  // ---------- the changes write_file makes ----------

  ghost function ChainSet(lay: Layout, t: nat): set<nat> {
    if t in lay.chains then SetOf(lay.chains[t]) else {}
  }

  lemma OthersUntouched(g: Fat32, d: Disk, d': Disk, lay: Layout, t: nat, h: nat)
    requires Wf(g, d, lay) && OnlyClusters(g, d, d', FreeSet(Fat(g, d)) + ChainSet(lay, t))
    requires h in lay.chains && h != t
    ensures SetOf(lay.chains[h]) !! FreeSet(Fat(g, d)) + ChainSet(lay, t)
    ensures IsChain(Fat(g, d'), lay.chains[h])
    ensures DirOf(g, d', h) == DirOf(g, d, h) && ChainBytes(g, d', h) == ChainBytes(g, d, h)
  {
    ChainNotFree(Fat(g, d), lay.chains[h]);
    ChainUntouched(g, d, d', FreeSet(Fat(g, d)) + ChainSet(lay, t), lay.chains[h]);
  }

  /** Working on free clusters and the target's chain leaves every other file and the directories alone. */
  lemma WorkUnaffected(g: Fat32, d: Disk, d': Disk, lay: Layout, t: nat, avoid: Option<Name>)
    requires Wf(g, d, lay) && OnlyClusters(g, d, d', FreeSet(Fat(g, d)) + ChainSet(lay, t))
    requires t != g.rootCluster
    ensures Unaffected(g, d, d', lay, t, avoid)
    ensures DirOf(g, d', g.rootCluster) == DirOf(g, d, g.rootCluster)
  {
    forall h | h in lay.chains && h != t
      ensures DirOf(g, d', h) == DirOf(g, d, h) && ChainBytes(g, d', h) == ChainBytes(g, d, h)
    {
      OthersUntouched(g, d, d', lay, t, h);
    }
  }

  /** Taking free clusters without linking them anywhere keeps the volume as it was. */
  lemma LeakKeepsWf(g: Fat32, d: Disk, d': Disk, lay: Layout)
    requires Wf(g, d, lay) && OnlyClusters(g, d, d', FreeSet(Fat(g, d)))
    ensures Wf(g, d', lay) && Unaffected(g, d, d', lay, 0, None)
  {
    NoZeroHead(Fat(g, d), lay.chains);
    assert FreeSet(Fat(g, d)) == FreeSet(Fat(g, d)) + ChainSet(lay, 0);
    forall h | h in lay.chains
      ensures IsChain(Fat(g, d'), lay.chains[h]) && DirOf(g, d', h) == DirOf(g, d, h)
    {
      OthersUntouched(g, d, d', lay, 0, h);
    }
    WorkUnaffected(g, d, d', lay, 0, None);
  }

  // ---------- adding a cluster to the root directory ----------

  ghost predicate ZeroedCluster(g: Fat32, d: Disk, c: nat)
    requires 2 <= c
  {
    forall b :: 0 <= b < |d| && g.ClusterToLba(c) <= b < g.ClusterToLba(c) + g.sectorsPerCluster ==> d[b] == ZERO_SECTOR
  }

  ghost function RootChain(g: Fat32, lay: Layout): seq<nat>
    requires g.rootCluster in lay.chains
  {
    lay.chains[g.rootCluster]
  }

  ghost function Extended(g: Fat32, lay: Layout, c: nat): Layout
    requires g.rootCluster in lay.chains
  {
    Layout(lay.chains[g.rootCluster := RootChain(g, lay) + [c]], lay.dirs)
  }

  ghost function GrownTouched(g: Fat32, d: Disk, lay: Layout): set<nat>
    requires g.Valid(|d|) && g.rootCluster in lay.chains && RootChain(g, lay) != []
  {
    FreeSet(Fat(g, d)) + {RootChain(g, lay)[|RootChain(g, lay)| - 1]}
  }

  /** Cluster `c`, free in `d`, hangs zeroed off the end of the root chain in `d'`. */
  ghost predicate RootGrown(g: Fat32, d: Disk, d': Disk, lay: Layout, c: nat) {
    && Wf(g, d, lay) && c in FreeSet(Fat(g, d))
    && var cs := RootChain(g, lay);
    && var last := cs[|cs| - 1];
    && OnlyClusters(g, d, d', GrownTouched(g, d, lay))
    && SameCluster(g, d, d', last)
    && Fat(g, d')[last] == c && Fat(g, d')[c] >= END_OF_CHAIN
    && ZeroedCluster(g, d', c)
  }

  lemma RootGrownChain(g: Fat32, d: Disk, d': Disk, lay: Layout, c: nat)
    requires RootGrown(g, d, d', lay, c)
    ensures |d'| == |d| && IsChain(Fat(g, d'), RootChain(g, lay) + [c])
    ensures RootChain(g, lay) != [] && (RootChain(g, lay) + [c])[0] == g.rootCluster
    ensures forall x :: x in RootChain(g, lay) && 2 <= x ==> SameCluster(g, d, d', x)
  {
    var cs := RootChain(g, lay);
    ChainNotFree(Fat(g, d), cs);
    forall x | x in cs && x != cs[|cs| - 1]
      ensures x !in FreeSet(Fat(g, d)) + {cs[|cs| - 1]}
    {
      assert x in SetOf(cs);
    }
    GrowChain(Fat(g, d), Fat(g, d'), cs, c);
  }

  lemma NewClusterBlocks(g: Fat32, d: Disk, c: nat)
    requires g.Valid(|d|) && 2 <= c < g.MaxCluster() && ZeroedCluster(g, d, c)
    ensures InTable(g, [c]) && OnDisk(d, Lbas(g, [c])) && |Lbas(g, [c])| == g.sectorsPerCluster
    ensures forall i :: 0 <= i < |Lbas(g, [c])| ==> d[Lbas(g, [c])[i]] == ZERO_SECTOR
  {
    LbasOnDisk(g, d, [c]);
    assert Lbas(g, [c]) == Run(g.ClusterToLba(c), g.sectorsPerCluster) + Lbas(g, []);
  }

  lemma RootGrownDir(g: Fat32, d: Disk, d': Disk, lay: Layout, c: nat) returns (pad: seq<Slot>)
    requires RootGrown(g, d, d', lay, c)
    ensures DirOf(g, d', g.rootCluster) == DirOf(g, d, g.rootCluster) + pad
    ensures forall j :: 0 <= j < |pad| ==> pad[j][0] == 0
    ensures |pad| == SLOTS_PER_SECTOR * g.sectorsPerCluster
  {
    hide DirOf, Lbas, EntriesOk, SoleOwners, Closed, UniqueNames, ChainBytes, Content, ZeroedCluster, SameCluster;
    var cs := RootChain(g, lay);
    RootGrownChain(g, d, d', lay, c);
    ChainViews(g, d, cs);
    ChainViews(g, d', cs + [c]);
    BlocksSame(g, d, d', cs);
    DirSame(d, d', Lbas(g, cs));
    NewClusterBlocks(g, d', c);
    LbasAppend(g, cs, [c]);
    var b := Lbas(g, [c]);
    DirZeroed(d', b);
    DirAppend(d', Lbas(g, cs), b);
    pad := Dir(d', b);
  }

  lemma GrownOther(g: Fat32, d: Disk, d': Disk, lay: Layout, c: nat, h: nat)
    requires RootGrown(g, d, d', lay, c) && h in lay.chains && h != g.rootCluster
    ensures IsChain(Fat(g, d'), lay.chains[h])
    ensures Apart(RootChain(g, lay), lay.chains[h]) && c !in lay.chains[h]
    ensures DirOf(g, d', h) == DirOf(g, d, h) && ChainBytes(g, d', h) == ChainBytes(g, d, h)
  {
    var cs := RootChain(g, lay);
    var last := cs[|cs| - 1];
    assert Apart(cs, lay.chains[h]);
    assert last in cs;
    ChainNotFree(Fat(g, d), lay.chains[h]);
    assert c !in SetOf(lay.chains[h]);
    ChainUntouched(g, d, d', FreeSet(Fat(g, d)) + {last}, lay.chains[h]);
  }

  lemma ApartAppend(a: seq<nat>, b: seq<nat>, c: nat)
    requires Apart(a, b) && c !in b
    ensures Apart(a + [c], b) && Apart(b, a + [c])
  {
  }

  /** A new chain in one head's place keeps a table of chains sound if the others stay off it. */
  lemma ReplaceChain(fat: seq<nat>, fat': seq<nat>, chains: map<nat, seq<nat>>, h: nat, cs: seq<nat>)
    requires ChainsOk(fat, chains) && IsChain(fat', cs) && cs[0] == h
    requires forall x :: x in chains && x != h ==>
               IsChain(fat', chains[x]) && Apart(chains[x], cs) && Apart(cs, chains[x])
    ensures ChainsOk(fat', chains[h := cs])
  {
    hide Apart, Distinct;
  }

  lemma GrownChains(g: Fat32, d: Disk, d': Disk, lay: Layout, c: nat)
    requires RootGrown(g, d, d', lay, c)
    ensures ChainsOk(Fat(g, d'), Extended(g, lay, c).chains)
  {
    hide IsChain, ChainsOk, OnlyClusters, Fat, FreeSet, EntriesOk, SoleOwners, Closed, UniqueNames, SameCluster, Apart,
      DirOf, ChainBytes, ZeroedCluster, LiveAt;
    RootGrownChain(g, d, d', lay, c);
    forall h | h in lay.chains && h != g.rootCluster
      ensures IsChain(Fat(g, d'), lay.chains[h])
      ensures Apart(lay.chains[h], RootChain(g, lay) + [c]) && Apart(RootChain(g, lay) + [c], lay.chains[h])
    {
      GrownOther(g, d, d', lay, c, h);
      ApartAppend(RootChain(g, lay), lay.chains[h], c);
    }
    ReplaceChain(Fat(g, d), Fat(g, d'), lay.chains, g.rootCluster, RootChain(g, lay) + [c]);
  }

  /** If every live entry of `d'` was already there in `d`, the entry invariants carry over. */
  lemma EntriesInherited(g: Fat32, d: Disk, d': Disk, lay: Layout, lay': Layout)
    requires g.Valid(|d|) && |d'| == |d| && EntriesOk(g, d, lay) && SoleOwners(g, d, lay)
    requires lay'.dirs == lay.dirs && lay'.chains.Keys == lay.chains.Keys
    requires forall h, k :: h in lay.dirs && LiveAt(DirOf(g, d', h), k) ==>
               LiveAt(DirOf(g, d, h), k) && DirOf(g, d, h)[k] == DirOf(g, d', h)[k]
    ensures EntriesOk(g, d', lay') && SoleOwners(g, d', lay')
  {
    forall h, k | h in lay.dirs && LiveAt(DirOf(g, d', h), k)
      ensures EntryOk(lay', DirOf(g, d', h)[k])
    {
      assert EntryOk(lay, DirOf(g, d, h)[k]);
    }
    forall h, k, f: nat | h in lay.dirs && OwnsFile(DirOf(g, d', h), k, f)
      ensures OwnsFile(DirOf(g, d, h), k, f)
    {
    }
  }

  /** The longer root directory shows exactly the entries it showed before. */
  lemma GrownRoot(g: Fat32, d: Disk, d': Disk, lay: Layout, c: nat)
    requires RootGrown(g, d, d', lay, c)
    ensures |d'| == |d|
    ensures var slots, slots' := DirOf(g, d, g.rootCluster), DirOf(g, d', g.rootCluster);
            && Closed(slots') && UniqueNames(slots')
            && (forall n :: Find(slots', n) == Find(slots, n))
            && (forall k :: LiveAt(slots', k) ==> LiveAt(slots, k) && slots'[k] == slots[k])
  {
    hide DirOf, Fat, IsChain, ChainsOk, Find, ZeroedCluster, SameCluster, FreeSet, EntriesOk, SoleOwners;
    var pad := RootGrownDir(g, d, d', lay, c);
    var slots := DirOf(g, d, g.rootCluster);
    PaddedLive(slots, pad);
    forall n
      ensures Find(slots + pad, n) == Find(slots, n)
    {
      FindPadded(slots, pad, n);
    }
  }

  lemma GrownUnaffected(g: Fat32, d: Disk, d': Disk, lay: Layout, c: nat)
    requires RootGrown(g, d, d', lay, c)
    ensures |d'| == |d| && Unaffected(g, d, d', lay, 0, None)
  {
    hide DirOf, OnlyClusters, Fat, ChainsOk, Find, ZeroedCluster, SameCluster, FreeSet, EntriesOk, SoleOwners,
      Closed, UniqueNames, ChainBytes, LiveAt;
    GrownRoot(g, d, d', lay, c);
    forall h | h in lay.chains && h != g.rootCluster
      ensures DirOf(g, d', h) == DirOf(g, d, h) && ChainBytes(g, d', h) == ChainBytes(g, d, h)
    {
      GrownOther(g, d, d', lay, c, h);
    }
  }

  lemma GrownEntries(g: Fat32, d: Disk, d': Disk, lay: Layout, c: nat)
    requires RootGrown(g, d, d', lay, c) && |d'| == |d| && Unaffected(g, d, d', lay, 0, None)
    ensures EntriesOk(g, d', Extended(g, lay, c)) && SoleOwners(g, d', Extended(g, lay, c))
  {
    hide DirOf, OnlyClusters, Fat, ChainsOk, Find, ZeroedCluster, SameCluster, FreeSet, EntriesOk, SoleOwners,
      Closed, UniqueNames, ChainBytes, LiveAt, RootChain;
    NoZeroHead(Fat(g, d), lay.chains);
    GrownRoot(g, d, d', lay, c);
    EntriesInherited(g, d, d', lay, Extended(g, lay, c));
  }

  /** A zeroed cluster on the end of the root directory shows no file and hides none. */
  lemma GrowKeepsWf(g: Fat32, d: Disk, d': Disk, lay: Layout, c: nat)
    requires RootGrown(g, d, d', lay, c)
    ensures Wf(g, d', Extended(g, lay, c)) && Unaffected(g, d, d', lay, 0, None)
  {
    hide DirOf, OnlyClusters, Fat, ChainsOk, Find, ZeroedCluster, SameCluster, FreeSet, EntriesOk, SoleOwners,
      Closed, UniqueNames, ChainBytes, LiveAt, Unaffected;
    GrownChains(g, d, d', lay, c);
    GrownRoot(g, d, d', lay, c);
    GrownUnaffected(g, d, d', lay, c);
    GrownEntries(g, d, d', lay, c);
  }

  // ---------- committing a directory entry ----------

  /** The work is done: `cs` holds the new data, made of free clusters and the target's old ones. */
  ghost predicate Prepared(g: Fat32, d: Disk, d': Disk, lay: Layout, t: nat, cs: seq<nat>) {
    && Wf(g, d, lay) && t != g.rootCluster && (t == 0 || t in lay.chains)
    && OnlyClusters(g, d, d', FreeSet(Fat(g, d)) + ChainSet(lay, t))
    && IsChain(Fat(g, d'), cs)
    && SetOf(cs) <= FreeSet(Fat(g, d)) + ChainSet(lay, t)
  }

  /** `d'` differs from `d` in slot `k` of the directory spread over `lbas`. */
  ghost predicate SlotWritten(d: Disk, d': Disk, lbas: seq<nat>, k: nat, s: Slot) {
    && OnDisk(d, lbas) && k < SLOTS_PER_SECTOR * |lbas|
    && var b := lbas[k / SLOTS_PER_SECTOR];
    && d' == d[b := Patch(d[b], SLOT_SIZE * (k % SLOTS_PER_SECTOR), s)]
  }

  lemma PatchedSlot(sector: Sector, i: nat, s: Slot, x: nat)
    requires i < SLOTS_PER_SECTOR && x < SLOTS_PER_SECTOR
    ensures Patch(sector, SLOT_SIZE * i, s)[SLOT_SIZE * x..SLOT_SIZE * x + SLOT_SIZE]
            == if x == i then s else sector[SLOT_SIZE * x..SLOT_SIZE * x + SLOT_SIZE]
  {
  }

  lemma SlotWrittenDir(d: Disk, d': Disk, lbas: seq<nat>, k: nat, s: Slot)
    requires SlotWritten(d, d', lbas, k, s) && Distinct(lbas)
    ensures Dir(d', lbas) == Dir(d, lbas)[k := s]
  {
    hide Patch;
    forall j | 0 <= j < SLOTS_PER_SECTOR * |lbas|
      ensures SlotAt(d', lbas, j) == if j == k then s else SlotAt(d, lbas, j)
    {
      if j / SLOTS_PER_SECTOR == k / SLOTS_PER_SECTOR {
        PatchedSlot(d[lbas[k / SLOTS_PER_SECTOR]], k % SLOTS_PER_SECTOR, s, j % SLOTS_PER_SECTOR);
        SameSlot(j, k);
      } else {
        assert lbas[j / SLOTS_PER_SECTOR] != lbas[k / SLOTS_PER_SECTOR];
      }
    }
  }

  lemma SameSlot(j: nat, k: nat)
    requires j / SLOTS_PER_SECTOR == k / SLOTS_PER_SECTOR
    ensures j % SLOTS_PER_SECTOR == k % SLOTS_PER_SECTOR <==> j == k
  {
  }

  /** The effect of one entry write on the volume: the root directory's slot, and nothing else. */
  lemma CommitFrame(g: Fat32, d: Disk, d': Disk, root: seq<nat>, k: nat, s: Slot)
    requires g.Valid(|d|) && IsChain(Fat(g, d), root) && root[0] == g.rootCluster
    requires SlotWritten(d, d', Lbas(g, root), k, s)
    ensures |d'| == |d| && Fat(g, d') == Fat(g, d) && ReservedKept(g, d, d')
    ensures forall i, x :: 0 <= i < g.numFats && 0 <= x < g.MaxCluster() ==> Raw(g, d', i, x) == Raw(g, d, i, x)
    ensures k < |DirOf(g, d, g.rootCluster)| && DirOf(g, d', g.rootCluster) == DirOf(g, d, g.rootCluster)[k := s]
    ensures forall cs :: IsChain(Fat(g, d), cs) && Apart(root, cs) ==>
              DirOf(g, d', cs[0]) == DirOf(g, d, cs[0]) && ChainBytes(g, d', cs[0]) == ChainBytes(g, d, cs[0])
  {
    var lbas := Lbas(g, root);
    ChainViews(g, d, root);
    LbasOnDisk(g, d, root);
    LbasDistinct(g, root);
    var b := lbas[k / SLOTS_PER_SECTOR];
    PutData(g, d, d', b, d'[b]);
    ChainViews(g, d', root);
    SlotWrittenDir(d, d', lbas, k, s);
    forall cs | IsChain(Fat(g, d), cs) && Apart(root, cs)
      ensures DirOf(g, d', cs[0]) == DirOf(g, d, cs[0]) && ChainBytes(g, d', cs[0]) == ChainBytes(g, d, cs[0])
    {
      LbasOnDisk(g, d, cs);
      LbasApart(g, root, cs);
      assert b in lbas;
      assert forall i :: 0 <= i < |Lbas(g, cs)| ==> Lbas(g, cs)[i] in Lbas(g, cs);
      ViewsSame(g, d, d', cs);
    }
  }

  /** Slot `k` is where `name` goes: its own old entry (whose chain is `t`), or an unused slot. */
  ghost predicate Place(slots: seq<Slot>, k: nat, name: Name, t: nat) {
    && k < |slots|
    && (forall j :: 0 <= j < k ==> slots[j][0] != 0)
    && (forall j :: LiveAt(slots, j) && j != k ==> NameOf(slots[j]) != name)
    && (LiveAt(slots, k) ==> NameOf(slots[k]) == name && FirstOf(slots[k]) == t)
    && (!LiveAt(slots, k) ==> t == 0)
  }

  /** The entry `s` for the prepared chain is written over slot `k` of the root directory. */
  ghost predicate Entered(
    g: Fat32, d: Disk, d1: Disk, d2: Disk, lay: Layout, t: nat, cs: seq<nat>, k: nat, s: Slot)
  {
    && Prepared(g, d, d1, lay, t, cs)
    && Place(DirOf(g, d, g.rootCluster), k, NameOf(s), t)
    && Live(s) && !IsDir(s) && FirstOf(s) == cs[0]
    && InTable(g, RootChain(g, lay)) && SlotWritten(d1, d2, Lbas(g, RootChain(g, lay)), k, s)
  }

  /** The same, over a slot that was not a directory's. */
  ghost predicate Committed(
    g: Fat32, d: Disk, d1: Disk, d2: Disk, lay: Layout, t: nat, cs: seq<nat>, k: nat, s: Slot)
  {
    Entered(g, d, d1, d2, lay, t, cs, k, s) && t !in lay.dirs
  }

  ghost function CommittedLayout(lay: Layout, t: nat, cs: seq<nat>): Layout
    requires cs != []
  {
    Layout((lay.chains - {t})[cs[0] := cs], lay.dirs)
  }

  lemma PreparedApart(g: Fat32, d: Disk, d1: Disk, lay: Layout, t: nat, cs: seq<nat>, h: nat)
    requires Prepared(g, d, d1, lay, t, cs) && h in lay.chains && h != t
    ensures Apart(lay.chains[h], cs) && Apart(cs, lay.chains[h]) && h != cs[0]
    ensures IsChain(Fat(g, d1), lay.chains[h])
  {
    OthersUntouched(g, d, d1, lay, t, h);
    forall c | c in cs
      ensures c !in lay.chains[h]
    {
      assert c in SetOf(cs);
      assert c !in SetOf(lay.chains[h]);
    }
    assert lay.chains[h][0] in lay.chains[h] && cs[0] in cs;
  }

  lemma CommitRoot(g: Fat32, d: Disk, d1: Disk, d2: Disk, lay: Layout, t: nat, cs: seq<nat>, k: nat, s: Slot)
    requires Entered(g, d, d1, d2, lay, t, cs, k, s)
    ensures |d2| == |d1| == |d| && Fat(g, d2) == Fat(g, d1) && ReservedKept(g, d1, d2)
    ensures forall i, x :: 0 <= i < g.numFats && 0 <= x < g.MaxCluster() ==> Raw(g, d2, i, x) == Raw(g, d1, i, x)
    ensures DirOf(g, d2, g.rootCluster) == DirOf(g, d, g.rootCluster)[k := s]
    ensures ChainBytes(g, d2, cs[0]) == ChainBytes(g, d1, cs[0])
  {
    OthersUntouched(g, d, d1, lay, t, g.rootCluster);
    PreparedApart(g, d, d1, lay, t, cs, g.rootCluster);
    CommitFrame(g, d1, d2, RootChain(g, lay), k, s);
  }

  lemma CommitOther(
    g: Fat32, d: Disk, d1: Disk, d2: Disk, lay: Layout, t: nat, cs: seq<nat>, k: nat, s: Slot, h: nat)
    requires Entered(g, d, d1, d2, lay, t, cs, k, s)
    requires h in lay.chains && h != t && h != g.rootCluster
    ensures |d2| == |d|
    ensures DirOf(g, d2, h) == DirOf(g, d, h) && ChainBytes(g, d2, h) == ChainBytes(g, d, h)
  {
    OthersUntouched(g, d, d1, lay, t, g.rootCluster);
    OthersUntouched(g, d, d1, lay, t, h);
    assert Apart(RootChain(g, lay), lay.chains[h]);
    CommitFrame(g, d1, d2, RootChain(g, lay), k, s);
  }

  lemma CommitChains(g: Fat32, d: Disk, d1: Disk, lay: Layout, t: nat, cs: seq<nat>)
    requires Prepared(g, d, d1, lay, t, cs)
    ensures ChainsOk(Fat(g, d1), CommittedLayout(lay, t, cs).chains)
  {
    forall h | h in lay.chains && h != t
      ensures Apart(lay.chains[h], cs) && Apart(cs, lay.chains[h]) && IsChain(Fat(g, d1), lay.chains[h])
    {
      PreparedApart(g, d, d1, lay, t, cs, h);
    }
  }

  // ---------- well-formedness from the directories and the chains ----------

  lemma SameDirsKeepWf(g: Fat32, d: Disk, d': Disk, lay: Layout, lay': Layout)
    requires Wf(g, d, lay) && |d'| == |d|
    requires lay'.dirs == lay.dirs && lay'.chains.Keys == lay.chains.Keys && ChainsOk(Fat(g, d'), lay'.chains)
    requires forall h :: h in lay.dirs ==> DirOf(g, d', h) == DirOf(g, d, h)
    ensures Wf(g, d', lay')
  {
    hide DirOf, Fat, ChainsOk, EntriesOk, SoleOwners, Closed, UniqueNames;
    EntriesInherited(g, d, d', lay, lay');
  }

  ghost function Regrown(lay: Layout, t: nat, cs: seq<nat>): Layout {
    Layout(lay.chains[t := cs], lay.dirs)
  }

  /** A file's chain may become any chain from the same head, drawn from it and the free clusters. */
  lemma RegrownKeepsWf(g: Fat32, d: Disk, d': Disk, lay: Layout, t: nat, cs: seq<nat>)
    requires Prepared(g, d, d', lay, t, cs) && t in lay.chains && t !in lay.dirs && cs[0] == t
    ensures Wf(g, d', Regrown(lay, t, cs))
  {
    hide DirOf, Fat, IsChain, EntriesOk, SoleOwners, Closed, UniqueNames, FreeSet, SetOf, SameCluster, ReservedKept;
    forall h | h in lay.chains && h != t
      ensures |d'| == |d| && IsChain(Fat(g, d'), lay.chains[h]) && DirOf(g, d', h) == DirOf(g, d, h)
      ensures Apart(lay.chains[h], cs) && Apart(cs, lay.chains[h])
    {
      OthersUntouched(g, d, d', lay, t, h);
      PreparedApart(g, d, d', lay, t, cs, h);
    }
    ReplaceChain(Fat(g, d), Fat(g, d'), lay.chains, t, cs);
    SameDirsKeepWf(g, d, d', lay, Regrown(lay, t, cs));
  }

  /** Data written into clusters off every directory keeps the volume well formed. */
  lemma DataKeepsWf(g: Fat32, d: Disk, d': Disk, lay: Layout, cs: seq<nat>)
    requires Wf(g, d, lay) && OnlyClusters(g, d, d', SetOf(cs)) && |d'| == |d| && Fat(g, d') == Fat(g, d)
    requires forall h :: h in lay.dirs ==> Apart(lay.chains[h], cs)
    ensures Wf(g, d', lay)
  {
    hide DirOf, Fat, OnlyClusters, EntriesOk, SoleOwners, Closed, UniqueNames;
    forall h | h in lay.dirs
      ensures DirOf(g, d', h) == DirOf(g, d, h)
    {
      var chain := lay.chains[h];
      forall c | c in chain
        ensures c !in SetOf(cs)
      {
      }
      ChainUntouched(g, d, d', SetOf(cs), chain);
    }
    SameDirsKeepWf(g, d, d', lay, lay);
  }

  /** What the committed root directory looks up. */
  lemma CommitFind(slots: seq<Slot>, k: nat, s: Slot, t: nat)
    requires Closed(slots) && UniqueNames(slots) && Place(slots, k, NameOf(s), t) && Live(s)
    ensures var slots' := slots[k := s];
            && Closed(slots') && UniqueNames(slots')
            && (forall n :: Find(slots', n) == if n == NameOf(s) then Some(s) else Find(slots, n))
            && (forall j :: LiveAt(slots', j) <==> j == k || LiveAt(slots, j))
  {
    var slots' := slots[k := s];
    StoredLive(slots, slots', k, s);
    StoredFind(slots, slots', k, s, NameOf(s));
    forall n
      ensures Find(slots', n) == if n == NameOf(s) then Some(s) else Find(slots, n)
    {
      StoredFind(slots, slots', k, s, n);
    }
  }

  lemma CommitUnaffected(
    g: Fat32, d: Disk, d1: Disk, d2: Disk, lay: Layout, t: nat, cs: seq<nat>, k: nat, s: Slot)
    requires Entered(g, d, d1, d2, lay, t, cs, k, s)
    ensures |d2| == |d| && Find(DirOf(g, d2, g.rootCluster), NameOf(s)) == Some(s)
    ensures Unaffected(g, d, d2, lay, t, Some(NameOf(s))) && Target(g, d, lay, t, Some(NameOf(s)))
  {
    CommitRoot(g, d, d1, d2, lay, t, cs, k, s);
    CommitFind(DirOf(g, d, g.rootCluster), k, s, t);
    forall h | h in lay.chains && h != t && h != g.rootCluster
      ensures DirOf(g, d2, h) == DirOf(g, d, h) && ChainBytes(g, d2, h) == ChainBytes(g, d, h)
    {
      CommitOther(g, d, d1, d2, lay, t, cs, k, s, h);
    }
    if t != 0 && t !in lay.dirs {
      assert EntryOk(lay, DirOf(g, d, g.rootCluster)[k]);
      assert OwnsFile(DirOf(g, d, g.rootCluster), k, t);
    }
  }

  /** Every live entry after the commit is the new one, or an old one that keeps off the target's chain. */
  lemma CommitEntry(
    g: Fat32, d: Disk, d1: Disk, d2: Disk, lay: Layout, t: nat, cs: seq<nat>, k: nat, s: Slot, h: nat, j: nat)
    requires Committed(g, d, d1, d2, lay, t, cs, k, s)
    requires |d2| == |d| && h in lay.dirs && LiveAt(DirOf(g, d2, h), j) && !(h == g.rootCluster && j == k)
    ensures LiveAt(DirOf(g, d, h), j) && DirOf(g, d, h)[j] == DirOf(g, d2, h)[j]
    ensures EntryOk(lay, DirOf(g, d, h)[j]) && FirstOf(DirOf(g, d, h)[j]) != cs[0]
    ensures t != 0 ==> FirstOf(DirOf(g, d, h)[j]) != t
  {
    if h == g.rootCluster {
      CommitRoot(g, d, d1, d2, lay, t, cs, k, s);
      CommitFind(DirOf(g, d, g.rootCluster), k, s, t);
    } else {
      CommitOther(g, d, d1, d2, lay, t, cs, k, s, h);
    }
    var e := DirOf(g, d, h)[j];
    assert EntryOk(lay, e);
    if t != 0 && FirstOf(e) == t {
      assert OwnsFile(DirOf(g, d, g.rootCluster), k, t);
      assert OwnsFile(DirOf(g, d, h), j, t);
      assert false;
    }
    if FirstOf(e) != 0 {
      PreparedApart(g, d, d1, lay, t, cs, FirstOf(e));
    }
  }

  lemma CommitEntries(
    g: Fat32, d: Disk, d1: Disk, d2: Disk, lay: Layout, t: nat, cs: seq<nat>, k: nat, s: Slot)
    requires Committed(g, d, d1, d2, lay, t, cs, k, s) && |d2| == |d|
    requires k < |DirOf(g, d2, g.rootCluster)| && DirOf(g, d2, g.rootCluster)[k] == s
    ensures EntriesOk(g, d2, CommittedLayout(lay, t, cs))
  {
    hide DirOf, SoleOwners, ChainsOk, OnlyClusters, Fat, Place, SlotWritten, Distinct, Closed, UniqueNames, FirstOf;
    var lay' := CommittedLayout(lay, t, cs);
    if cs[0] in lay.dirs {
      PreparedApart(g, d, d1, lay, t, cs, cs[0]);
    }
    forall h, j | h in lay.dirs && LiveAt(DirOf(g, d2, h), j)
      ensures EntryOk(lay', DirOf(g, d2, h)[j])
    {
      if !(h == g.rootCluster && j == k) {
        CommitEntry(g, d, d1, d2, lay, t, cs, k, s, h, j);
      }
    }
  }

  lemma CommitOwners(
    g: Fat32, d: Disk, d1: Disk, d2: Disk, lay: Layout, t: nat, cs: seq<nat>, k: nat, s: Slot)
    requires Committed(g, d, d1, d2, lay, t, cs, k, s) && |d2| == |d|
    requires k < |DirOf(g, d2, g.rootCluster)| && DirOf(g, d2, g.rootCluster)[k] == s
    ensures SoleOwners(g, d2, CommittedLayout(lay, t, cs))
  {
    hide DirOf, EntriesOk, ChainsOk, OnlyClusters, Fat, Place, SlotWritten, Distinct, Closed, UniqueNames, FirstOf;
    forall h, j, f: nat | h in lay.dirs && OwnsFile(DirOf(g, d2, h), j, f) && !(h == g.rootCluster && j == k)
      ensures OwnsFile(DirOf(g, d, h), j, f) && f != cs[0]
    {
      CommitEntry(g, d, d1, d2, lay, t, cs, k, s, h, j);
    }
  }

  lemma CommitKeepsWf(
    g: Fat32, d: Disk, d1: Disk, d2: Disk, lay: Layout, t: nat, cs: seq<nat>, k: nat, s: Slot)
    requires Committed(g, d, d1, d2, lay, t, cs, k, s)
    ensures Wf(g, d2, CommittedLayout(lay, t, cs))
  {
    CommitChains(g, d, d1, lay, t, cs);
    CommitRoot(g, d, d1, d2, lay, t, cs, k, s);
    CommitFind(DirOf(g, d, g.rootCluster), k, s, t);
    CommitEntries(g, d, d1, d2, lay, t, cs, k, s);
    CommitOwners(g, d, d1, d2, lay, t, cs, k, s);
  }

  // ---------- an entry over a directory's ----------

  /**
   * The directories in `spared` include the root and not the one at `t`, and every directory entry in them
   * leads to one of them, the root entry called `name` aside.
   */
  ghost predicate Spares(g: Fat32, d: Disk, name: Name, t: nat, spared: set<nat>)
    requires g.Valid(|d|)
  {
    && g.rootCluster in spared && t !in spared
    && forall h, k :: h in spared && LiveAt(DirOf(g, d, h), k) ==>
         EntrySpared(g, h, DirOf(g, d, h)[k], name, spared)
  }

  ghost predicate EntrySpared(g: Fat32, h: nat, s: Slot, name: Name, spared: set<nat>) {
    IsDir(s) && FirstOf(s) != 0 && !(h == g.rootCluster && NameOf(s) == name) ==> FirstOf(s) in spared
  }

  /** Some directories are spared: no others are needed to make sense of what does not go through the name. */
  ghost predicate SeveredAt(g: Fat32, d: Disk, name: Name, t: nat)
    requires g.Valid(|d|)
  {
    exists spared :: Spares(g, d, name, t, spared)
  }

  /** What is no directory can always be severed. */
  lemma FileSevered(g: Fat32, d: Disk, lay: Layout, name: Name, t: nat)
    requires Wf(g, d, lay) && t !in lay.dirs
    ensures SeveredAt(g, d, name, t)
  {
    hide DirOf, ChainsOk, SoleOwners, FirstOf, IsDir, Closed, UniqueNames;
    forall h, k | h in lay.dirs && LiveAt(DirOf(g, d, h), k)
      ensures EntrySpared(g, h, DirOf(g, d, h)[k], name, lay.dirs)
    {
      assert EntryOk(lay, DirOf(g, d, h)[k]);
    }
    assert Spares(g, d, name, t, lay.dirs);
  }

  ghost function SparedLayout(lay: Layout, t: nat, cs: seq<nat>, spared: set<nat>): Layout
    requires cs != []
  {
    Layout(CommittedLayout(lay, t, cs).chains, spared * lay.dirs)
  }

  lemma OldRootEntry(slots: seq<Slot>, k: nat, s: Slot, t: nat, j: nat)
    requires Closed(slots) && UniqueNames(slots) && Place(slots, k, NameOf(s), t) && Live(s)
    requires LiveAt(slots[k := s], j) && j != k
    ensures LiveAt(slots, j) && slots[k := s][j] == slots[j] && NameOf(slots[j]) != NameOf(s)
  {
    CommitFind(slots, k, s, t);
  }

  /** Every other entry after the write was there before, and is not the written one's namesake. */
  lemma OldEntry(
    g: Fat32, d: Disk, d1: Disk, d2: Disk, lay: Layout, t: nat, cs: seq<nat>, k: nat, s: Slot, h: nat, j: nat)
    requires Entered(g, d, d1, d2, lay, t, cs, k, s) && t in lay.dirs
    requires |d2| == |d| && h in lay.dirs && h != t && LiveAt(DirOf(g, d2, h), j) && !(h == g.rootCluster && j == k)
    ensures LiveAt(DirOf(g, d, h), j) && DirOf(g, d, h)[j] == DirOf(g, d2, h)[j]
    ensures var e := DirOf(g, d, h)[j];
            && EntryOk(lay, e) && !(h == g.rootCluster && NameOf(e) == NameOf(s))
            && (!IsDir(e) ==> FirstOf(e) != t) && (FirstOf(e) !in {0, t} ==> FirstOf(e) != cs[0])
  {
    hide SoleOwners, ChainsOk, OnlyClusters, Fat, SlotWritten, Distinct, FreeSet, SetOf, SameCluster, DirOf, FirstOf,
      IsDir, NameOf, Live, Place, Closed, UniqueNames;
    if h == g.rootCluster {
      CommitRoot(g, d, d1, d2, lay, t, cs, k, s);
      OldRootEntry(DirOf(g, d, g.rootCluster), k, s, t, j);
    } else {
      CommitOther(g, d, d1, d2, lay, t, cs, k, s, h);
    }
    var e := DirOf(g, d, h)[j];
    NoZeroHead(Fat(g, d), lay.chains);
    assert EntryOk(lay, e);
    if FirstOf(e) !in {0, t} {
      PreparedApart(g, d, d1, lay, t, cs, FirstOf(e));
    }
  }

  lemma SparedEntries(
    g: Fat32, d: Disk, d1: Disk, d2: Disk, lay: Layout, t: nat, cs: seq<nat>, k: nat, s: Slot, spared: set<nat>)
    requires Entered(g, d, d1, d2, lay, t, cs, k, s) && t in lay.dirs && |d2| == |d| && cs[0] == t
    requires Spares(g, d, NameOf(s), t, spared)
    requires k < |DirOf(g, d2, g.rootCluster)| && DirOf(g, d2, g.rootCluster)[k] == s
    ensures EntriesOk(g, d2, SparedLayout(lay, t, cs, spared)) && SoleOwners(g, d2, SparedLayout(lay, t, cs, spared))
  {
    hide DirOf, ChainsOk, OnlyClusters, Fat, Place, SlotWritten, Distinct, Closed, UniqueNames, FirstOf, IsDir;
    var lay' := SparedLayout(lay, t, cs, spared);
    forall h, j | h in lay'.dirs && LiveAt(DirOf(g, d2, h), j)
      ensures EntryOk(lay', DirOf(g, d2, h)[j])
    {
      if !(h == g.rootCluster && j == k) {
        OldEntry(g, d, d1, d2, lay, t, cs, k, s, h, j);
        assert EntrySpared(g, h, DirOf(g, d, h)[j], NameOf(s), spared);
      }
    }
    forall h, j, f: nat | h in lay'.dirs && OwnsFile(DirOf(g, d2, h), j, f) && !(h == g.rootCluster && j == k)
      ensures OwnsFile(DirOf(g, d, h), j, f) && f != cs[0]
    {
      OldEntry(g, d, d1, d2, lay, t, cs, k, s, h, j);
    }
  }

  /** Directories that lead back to themselves make a sound layout of their own, the rest being leaks. */
  lemma SparedIsWf(
    g: Fat32, d: Disk, d1: Disk, d2: Disk, lay: Layout, t: nat, cs: seq<nat>, k: nat, s: Slot, spared: set<nat>)
    requires Entered(g, d, d1, d2, lay, t, cs, k, s) && t in lay.dirs && cs[0] == t
    requires Spares(g, d, NameOf(s), t, spared)
    ensures Wf(g, d2, SparedLayout(lay, t, cs, spared))
  {
    hide DirOf, ChainsOk, OnlyClusters, Fat, SlotWritten, Distinct, EntriesOk, SoleOwners, FirstOf, IsDir, LiveAt;
    CommitChains(g, d, d1, lay, t, cs);
    CommitRoot(g, d, d1, d2, lay, t, cs, k, s);
    CommitFind(DirOf(g, d, g.rootCluster), k, s, t);
    SparedEntries(g, d, d1, d2, lay, t, cs, k, s, spared);
  }

  /** And nothing else does: a sound layout after the write is one. */
  lemma WfSpares(
    g: Fat32, d: Disk, d1: Disk, d2: Disk, lay: Layout, t: nat, cs: seq<nat>, k: nat, s: Slot, lay2: Layout)
    requires Entered(g, d, d1, d2, lay, t, cs, k, s) && t in lay.dirs && cs[0] == t
    requires Wf(g, d2, lay2)
    ensures Spares(g, d, NameOf(s), t, lay2.dirs * lay.dirs)
  {
    hide DirOf, ChainsOk, OnlyClusters, Fat, SlotWritten, Distinct, SoleOwners, FirstOf, IsDir, Closed, UniqueNames;
    CommitRoot(g, d, d1, d2, lay, t, cs, k, s);
    CommitFindAll(g, d, lay, k, s, t);
    assert EntryOk(lay2, DirOf(g, d2, g.rootCluster)[k]);
    var spared := lay2.dirs * lay.dirs;
    forall h, j | h in spared && LiveAt(DirOf(g, d, h), j)
      ensures EntrySpared(g, h, DirOf(g, d, h)[j], NameOf(s), spared)
    {
      if h != g.rootCluster {
        CommitOther(g, d, d1, d2, lay, t, cs, k, s, h);
      }
      assert EntryOk(lay, DirOf(g, d, h)[j]);
      if !(h == g.rootCluster && j == k) {
        assert LiveAt(DirOf(g, d2, h), j) && DirOf(g, d2, h)[j] == DirOf(g, d, h)[j];
        assert EntryOk(lay2, DirOf(g, d2, h)[j]);
      }
    }
  }

  /** The volume makes sense after the entry write if and only if the directory could be severed before it. */
  lemma OverDirectoryWfIff(
    g: Fat32, d: Disk, d1: Disk, d2: Disk, lay: Layout, t: nat, cs: seq<nat>, k: nat, s: Slot) returns (lay2: Layout)
    requires Entered(g, d, d1, d2, lay, t, cs, k, s) && t in lay.dirs && cs[0] == t
    ensures SeveredAt(g, d, NameOf(s), t) ==> Wf(g, d2, lay2)
    ensures forall any :: Wf(g, d2, any) ==> SeveredAt(g, d, NameOf(s), t)
  {
    hide Entered, Wf, Spares, DirOf;
    EnteredValid(g, d, d1, d2, lay, t, cs, k, s);
    if SeveredAt(g, d, NameOf(s), t) {
      var spared :| Spares(g, d, NameOf(s), t, spared);
      SparedIsWf(g, d, d1, d2, lay, t, cs, k, s, spared);
      lay2 := SparedLayout(lay, t, cs, spared);
    } else {
      lay2 := lay;
    }
    forall any | Wf(g, d2, any)
      ensures SeveredAt(g, d, NameOf(s), t)
    {
      WfSpares(g, d, d1, d2, lay, t, cs, k, s, any);
    }
  }

  lemma EnteredValid(
    g: Fat32, d: Disk, d1: Disk, d2: Disk, lay: Layout, t: nat, cs: seq<nat>, k: nat, s: Slot)
    requires Entered(g, d, d1, d2, lay, t, cs, k, s)
    ensures g.Valid(|d|) && cs != []
  {
    hide DirOf, EntriesOk, ChainsOk, SoleOwners, Place, SlotWritten;
  }

  /** The slot written becomes live, the others keep being so, and the one written was called so if it was live. */
  lemma CommitFindAll(g: Fat32, d: Disk, lay: Layout, k: nat, s: Slot, t: nat)
    requires Wf(g, d, lay) && Place(DirOf(g, d, g.rootCluster), k, NameOf(s), t) && Live(s)
    ensures var slots := DirOf(g, d, g.rootCluster);
            && LiveAt(slots[k := s], k)
            && (forall j :: LiveAt(slots, j) ==> LiveAt(slots[k := s], j) && (j != k ==> slots[k := s][j] == slots[j]))
            && (LiveAt(slots, k) ==> NameOf(slots[k]) == NameOf(s))
  {
    hide DirOf, ChainsOk, EntriesOk, SoleOwners, Fat;
    CommitFind(DirOf(g, d, g.rootCluster), k, s, t);
  }
}
