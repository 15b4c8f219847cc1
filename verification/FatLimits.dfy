/** The two inputs `write_file` does not guard against: a shrinking write cut short, and a directory's name. */
module FatLimits {
  import opened Bytes
  import opened SdCard
  import opened Options
  import opened FatGeometry
  import opened FatChain
  import opened FatDir
  import opened FatVolume
  import opened FatDriver
  import opened FatReader
  import opened FatWriter
  import opened FatRuns

  // ---------- a shrinking write cut short ----------

  lemma {:induction false} SameUpTo(fat: seq<nat>, fat': seq<nat>, cs: seq<nat>, cs': seq<nat>, n: nat, i: nat)
    requires IsChain(fat, cs) && IsChain(fat', cs') && cs'[0] == cs[0] && i <= n < |cs|
    requires |fat'| == |fat| <= END_OF_CHAIN && forall x :: 0 <= x < n ==> fat'[cs[x]] == fat[cs[x]]
    ensures i < |cs'| && cs'[i] == cs[i]
  {
    if i > 0 {
      SameUpTo(fat, fat', cs, cs', n, i - 1);
      assert fat[cs[i - 1]] == cs[i];
      assert i - 1 < |cs'| - 1 ==> fat'[cs'[i - 1]] == cs'[i];
    }
  }

  /** No chain from the same head survives the release of its cluster `n` while those before it still lead there. */
  lemma CutChainIsNone(fat: seq<nat>, fat': seq<nat>, cs: seq<nat>, cs': seq<nat>, n: nat)
    requires |fat'| == |fat| <= END_OF_CHAIN && IsChain(fat, cs) && 1 <= n < |cs| && fat'[cs[n]] == 0
    requires forall x :: 0 <= x < n ==> fat'[cs[x]] == fat[cs[x]]
    requires cs' != [] && cs'[0] == cs[0]
    ensures !IsChain(fat', cs')
  {
    if IsChain(fat', cs') {
      SameUpTo(fat, fat', cs, cs', n, n);
      ChainStep(fat', cs', n);
      assert false;
    }
  }

  /**
   * A shrinking write is where a card failure breaks the volume: once the first cluster past the new end
   * is marked free, however far the release of the rest has come, and until the new end mark is written,
   * no layout is well formed.
   */
  lemma ReleaseBreaks(g: Fat32, d: Disk, d': Disk, lay: Layout, name: Name, n: nat, lay': Layout)
    requires Wf(g, d, lay) && Storable(g, d, name) && 1 <= n < HeldBy(g, d, name)
    requires var cs := ChainOf(g, d, TargetOf(g, d, name));
             OnlyClusters(g, d, d', SetOf(cs[n..])) && Fat(g, d')[cs[n]] == 0
    ensures !Wf(g, d', lay')
  {
    hide Fat, Closed, UniqueNames, SoleOwners, Find, DirOf, Storable, Writable, FirstOf, IsDir, OnlyClusters;
    var t := TargetOf(g, d, name);
    StorableIsWritable(g, d, lay, name);
    HeldIsShown(g, d, lay, name);
    var k := TargetSlot(g, d, lay, name);
    ReleaseFrame(g, d, d', lay, t, n);
    if Wf(g, d', lay') {
      assert EntryOk(lay', DirOf(g, d', g.rootCluster)[k]);
      CutChainIsNone(Fat(g, d), Fat(g, d'), lay.chains[t], lay'.chains[t], n);
      assert false;
    }
  }

  /** Such a disk is one block write away: the release of that cluster in the first FAT copy. */
  lemma ReleaseReaches(g: Fat32, d: Disk, cs: seq<nat>, n: nat) returns (d': Disk)
    requires g.Valid(|d|) && InTable(g, cs) && n < |cs|
    ensures var b := g.FatLba(0, cs[n]);
            b < |d| && d' == d[b := Patch(d[b], g.EntryOffset(cs[n]), Le32(Merge(0, Raw(g, d, 0, cs[n]))))]
    ensures OnlyClusters(g, d, d', SetOf(cs[n..])) && Fat(g, d')[cs[n]] == 0
  {
    hide Raw, Merge, OnlyClusters;
    var c := cs[n];
    FatLbaInside(g, 0, c);
    ClusterInside(g, |d|, 2, 0);
    var b := g.FatLba(0, c);
    d' := d[b := Patch(d[b], g.EntryOffset(c), Le32(Merge(0, Raw(g, d, 0, c))))];
    EntryMerged(g, d, d, d', 0, c, 0);
    OnlyEntryFat(g, d, d', c);
    assert c in cs[n..];
  }

  /** The live root slot of a name that has clusters, and its chain. */
  lemma TargetSlot(g: Fat32, d: Disk, lay: Layout, name: Name) returns (k: nat)
    requires Wf(g, d, lay) && TargetOf(g, d, name) != 0
    ensures var slots, t := DirOf(g, d, g.rootCluster), TargetOf(g, d, name);
            && LiveAt(slots, k) && FirstOf(slots[k]) == t
            && t in lay.chains && IsChain(Fat(g, d), lay.chains[t]) && ChainOf(g, d, t) == lay.chains[t]
            && |Fat(g, d)| <= END_OF_CHAIN
  {
    hide Lbas, Content, ChainBytes, Dir;
    var slots := DirOf(g, d, g.rootCluster);
    k := FindWhere(slots, name);
    assert EntryOk(lay, slots[k]);
    ChainViews(g, d, lay.chains[FirstOf(slots[k])]);
  }

  lemma ReleaseFrame(g: Fat32, d: Disk, d': Disk, lay: Layout, t: nat, n: nat)
    requires Wf(g, d, lay) && t in lay.chains && t != g.rootCluster && n < |lay.chains[t]|
    requires OnlyClusters(g, d, d', SetOf(lay.chains[t][n..]))
    ensures |d'| == |d| && forall x :: 0 <= x < n ==> Fat(g, d')[lay.chains[t][x]] == Fat(g, d)[lay.chains[t][x]]
    ensures DirOf(g, d', g.rootCluster) == DirOf(g, d, g.rootCluster)
  {
    hide EntriesOk, SoleOwners, Closed, UniqueNames, Dir, Lbas, Raw, SameCluster;
    var cs, touched := lay.chains[t], SetOf(lay.chains[t][n..]);
    assert Apart(RootChain(g, lay), cs);
    assert forall c :: c in cs[n..] ==> c in cs;
    ChainUntouched(g, d, d', touched, RootChain(g, lay));
    forall x | 0 <= x < n
      ensures Fat(g, d')[cs[x]] == Fat(g, d)[cs[x]]
    {
      assert cs[x] !in cs[n..];
    }
  }

  // ---------- a directory's name ----------

  /** Under the name of a file the walk stays in the root directory. */
  lemma NestedUnderFile(g: Fat32, d: Disk, name: Name, rest: seq<Name>)
    requires g.Valid(|d|) && rest != []
    requires var e := Find(DirOf(g, d, g.rootCluster), name);
             e.Some? && NextDir(g, g.rootCluster, e.value) == g.rootCluster
    ensures PathBytes(g, d, [name] + rest) == PathBytes(g, d, rest)
  {
    assert ([name] + rest)[1..] == rest;
  }

  /** The rest of the path, walked from the root, neither looks the name up nor enters the directory it named. */
  ghost predicate Detached(g: Fat32, d: Disk, name: Name, rest: seq<Name>)
    requires g.Valid(|d|)
  {
    && rest != [] && Avoids(g, d, rest, name)
    && (DirNamed(g, d, name) ==> !Enters(g, d, g.rootCluster, rest, TargetOf(g, d, name)))
  }

  /** What stands under a written name is afterwards whatever the rest of the path names from the root. */
  ghost predicate NestedExposed(g: Fat32, d: Disk, d': Disk, name: Name)
    requires g.Valid(|d|) && |d'| == |d|
  {
    forall rest :: Detached(g, d, name, rest) ==> PathBytes(g, d', [name] + rest) == PathBytes(g, d, rest)
  }

  /** Writes over any name, a directory's included, as the driver lets its callers do. */
  method WriteAnyName(g: Fat32, card: Card, name: Name, data: seq<byte>, ghost lay: Layout) returns (r: Result<()>)
    requires Wf(g, card.disk, lay) && Writable(g, card.disk, name) && |data| < 0x1_0000_0000
    modifies card
    ensures |card.disk| == |old(card.disk)|
    ensures r.Ok? ==> PathBytes(g, card.disk, [name]) == Some(data) && NestedExposed(g, old(card.disk), card.disk, name)
    ensures r.Ok? ==> (WellFormed(g, card.disk) <==> Severed(g, old(card.disk), name))
    ensures card.faults == old(card.faults) ==> (r.Ok? <==> HasRoom(g, old(card.disk), name, |data|))
  {
    hide Wf, Writable, PathBytes, AllKept, HasRoom, HeldBy, Mirrored, ReservedKept, Severed;
    ghost var lay';
    ghost var d := card.disk;
    WfValid(g, d, lay);
    r, lay' := WriteFile(g, card, name, data, lay);
    if r.Ok? {
      ExposedByWrite(g, d, card.disk, name);
    }
  }

  lemma ExposedByWrite(g: Fat32, d: Disk, d': Disk, name: Name)
    requires g.Valid(|d|) && |d'| == |d| && PathBytes(g, d', [name]).Some?
    requires SafeFor(g, d, d', name)
    ensures NestedExposed(g, d, d', name)
  {
    RootPath(g, d', name);
    hide PathBytes, Avoids, Enters, DirOf, Find, ReservedKept;
    forall rest | Detached(g, d, name, rest)
      ensures PathBytes(g, d', [name] + rest) == PathBytes(g, d, rest)
    {
      NestedUnderFile(g, d', name, rest);
    }
  }

  /**
   * Exactly which files under a written name are lost: those under a directory, unless the rest of the
   * path named the same content from the root already. Over a file's name nothing is.
   */
  lemma LostUnderDirectoryIff(g: Fat32, d: Disk, d': Disk, name: Name, rest: seq<Name>)
    requires g.Valid(|d|) && |d'| == |d| && NestedExposed(g, d, d', name)
    requires Detached(g, d, name, rest) && PathBytes(g, d, [name] + rest).Some?
    ensures PathBytes(g, d', [name] + rest) != PathBytes(g, d, [name] + rest)
            <==> DirNamed(g, d, name) && PathBytes(g, d, rest) != PathBytes(g, d, [name] + rest)
  {
    assert Find(DirOf(g, d, g.rootCluster), name).Some? by {
      assert ([name] + rest)[0] == name;
    }
    if !DirNamed(g, d, name) {
      NestedUnderFile(g, d, name, rest);
    }
  }

  // ---------- a volume on which it happens ----------

  /** A directory entry for cluster `c`. */
  function DirSlot(name: Name, c: u32): Slot {
    name + [0x10] + Zeros(8) + Le16(c / 0x1_0000) + Zeros(4) + Le16(c % 0x1_0000) + Zeros(4)
  }

  lemma DirSlotFields(name: Name, c: u32)
    requires name[0] != 0 && name[0] != FREE_MARK
    ensures var s := DirSlot(name, c); Live(s) && IsDir(s) && NameOf(s) == name && FirstOf(s) == c
  {
    var s := DirSlot(name, c);
    assert s[20..22] == Le16(c / 0x1_0000) && s[26..28] == Le16(c % 0x1_0000);
    Le16RoundTrip(c / 0x1_0000);
    Le16RoundTrip(c % 0x1_0000);
  }

  /** One zeroed cluster with `s` in its first slot is a directory of that one entry. */
  lemma OneEntryDir(g: Fat32, d: Disk, c: nat, s: Slot)
    requires g.Valid(|d|) && 2 <= c < g.MaxCluster() && Fat(g, d)[c] >= END_OF_CHAIN && Live(s)
    requires forall b :: g.FirstDataSector() <= b < |d| ==>
               g.ClusterToLba(c) < b < g.ClusterToLba(c) + g.sectorsPerCluster ==> d[b] == ZERO_SECTOR
    requires g.ClusterToLba(c) < |d| && d[g.ClusterToLba(c)] == Patch(ZERO_SECTOR, 0, s)
    ensures IsChain(Fat(g, d), [c]) && ChainOf(g, d, c) == [c]
    ensures var slots := DirOf(g, d, c);
            && |slots| > 0 && slots[0] == s && (forall k :: LiveAt(slots, k) <==> k == 0)
            && Closed(slots) && UniqueNames(slots)
            && (forall n :: Find(slots, n) == if n == NameOf(s) then Some(s) else None)
  {
    hide Raw, Times;
    assert IsChain(Fat(g, d), [c]);
    ChainViews(g, d, [c]);
    LbasOnDisk(g, d, [c]);
    var lbas, slots := Lbas(g, [c]), DirOf(g, d, c);
    assert lbas == FatDir.Run(g.ClusterToLba(c), g.sectorsPerCluster) + Lbas(g, []);
    forall k | 0 < k < |slots|
      ensures slots[k][0] == 0
    {
      assert slots[k] == SlotAt(d, lbas, k);
      if k < SLOTS_PER_SECTOR {
        PatchedSlot(ZERO_SECTOR, 0, s, k);
      }
    }
    PatchedSlot(ZERO_SECTOR, 0, s, 0);
    assert slots[0] == SlotAt(d, lbas, 0);
    OneEntryFinds(slots, s);
  }

  lemma OneEntryFinds(slots: seq<Slot>, s: Slot)
    requires |slots| > 0 && slots[0] == s && Live(s) && forall k :: 0 < k < |slots| ==> slots[k][0] == 0
    ensures (forall k :: LiveAt(slots, k) <==> k == 0) && Closed(slots) && UniqueNames(slots)
    ensures forall n :: Find(slots, n) == if n == NameOf(s) then Some(s) else None
  {
    forall n
      ensures Find(slots, n) == if n == NameOf(s) then Some(s) else None
    {
      if n == NameOf(s) {
        FindHit(slots, n, 0);
      } else {
        FindMiss(slots, n);
      }
    }
  }

  /** A root directory with one directory in it, and in that one empty file. */
  ghost predicate Nested(g: Fat32, d: Disk, name: Name, inner: Name, c: nat)
    requires g.Valid(|d|)
  {
    && 2 <= c < g.MaxCluster() && c != g.rootCluster
    && IsChain(Fat(g, d), [c]) && ChainOf(g, d, c) == [c] && IsChain(Fat(g, d), [g.rootCluster])
    && OnlyEntryIn(DirOf(g, d, g.rootCluster), DirSlot(name, c))
    && OnlyEntryIn(DirOf(g, d, c), NewSlot(inner, 0, 0))
  }

  ghost predicate OnlyEntryIn(slots: seq<Slot>, s: Slot) {
    && |slots| > 0 && slots[0] == s && (forall k :: LiveAt(slots, k) <==> k == 0)
    && Closed(slots) && UniqueNames(slots)
    && (forall n :: Find(slots, n) == if n == NameOf(s) then Some(s) else None)
  }

  /** A formatted card with one more cluster taken. */
  lemma MarkedCard(g: Fat32, blocks: nat, c: nat) returns (d: Disk)
    requires g.Valid(blocks) && 2 <= c < g.MaxCluster()
    ensures |d| == blocks && Mirrored(g, d) && (forall b :: g.FirstDataSector() <= b < |d| ==> d[b] == ZERO_SECTOR)
    ensures Fat(g, d)[g.rootCluster] >= END_OF_CHAIN && Fat(g, d)[c] >= END_OF_CHAIN
  {
    hide Raw, Times;
    var d1 := FormatCard(g, blocks);
    d := MarkEnd(g, d1, c, g.numFats);
  }

  lemma NestedDisk(g: Fat32, blocks: nat, name: Name, inner: Name) returns (d: Disk, c: nat)
    requires g.Valid(blocks) && name[0] !in {0, FREE_MARK} && inner[0] !in {0, FREE_MARK}
    ensures |d| == blocks && Mirrored(g, d) && Nested(g, d, name, inner, c)
  {
    hide Raw, Times, IsChain, Fat, Closed, UniqueNames, Find, Live, DirOf, LiveAt, DirSlot, NewSlot, FirstOf, SizeOf;
    c := if g.rootCluster == 2 then 3 else 2;
    var d2 := MarkedCard(g, blocks, c);
    DirSlotFields(name, c);
    NewSlotFields(inner, 0, 0);
    ClusterInside(g, blocks, g.rootCluster, 0);
    ClusterInside(g, blocks, c, 0);
    var b, b' := g.ClusterToLba(g.rootCluster), g.ClusterToLba(c);
    ClusterRangesApart(g, g.rootCluster, c);
    var d3 := d2[b := Patch(ZERO_SECTOR, 0, DirSlot(name, c))];
    PutData(g, d2, d3, b, d3[b]);
    d := d3[b' := Patch(ZERO_SECTOR, 0, NewSlot(inner, 0, 0))];
    PutData(g, d3, d, b', d[b']);
    OneEntryDir(g, d, g.rootCluster, DirSlot(name, c));
    OneEntryDir(g, d, c, NewSlot(inner, 0, 0));
  }

  lemma NestedWf(g: Fat32, d: Disk, name: Name, inner: Name, c: nat)
    requires g.Valid(|d|) && Nested(g, d, name, inner, c)
    requires name[0] !in {0, FREE_MARK} && inner[0] !in {0, FREE_MARK}
    ensures Wf(g, d, Layout(map[g.rootCluster := [g.rootCluster], c := [c]], {g.rootCluster, c}))
  {
    hide DirOf, Find, Closed, UniqueNames, LiveAt, Fat;
    DirSlotFields(name, c);
    NewSlotFields(inner, 0, 0);
  }

  lemma NestedTarget(g: Fat32, d: Disk, name: Name, inner: Name, c: nat)
    requires g.Valid(|d|) && Nested(g, d, name, inner, c) && name[0] !in {0, FREE_MARK}
    ensures Writable(g, d, name) && DirNamed(g, d, name) && HasRoom(g, d, name, 0) && Severed(g, d, name)
  {
    hide DirOf, Find, Closed, UniqueNames, Fat, IsChain, LiveAt, DirSlot, NewSlot, ChainOf, ClustersFor, FirstOf, IsDir;
    DirSlotFields(name, c);
    EmptyNeedsOne(g);
    assert Spares(g, d, name, c, {g.rootCluster});
  }

  lemma NestedPaths(g: Fat32, d: Disk, name: Name, inner: Name, c: nat)
    requires g.Valid(|d|) && Nested(g, d, name, inner, c) && inner != name
    requires name[0] !in {0, FREE_MARK} && inner[0] !in {0, FREE_MARK}
    ensures PathBytes(g, d, [name, inner]) == Some([]) && PathBytes(g, d, [inner]) == None
    ensures Avoids(g, d, [inner], name) && !Enters(g, d, g.rootCluster, [inner], c) && TargetOf(g, d, name) == c
  {
    hide DirOf, Find, Closed, UniqueNames, Fat, IsChain, LiveAt, DirSlot, NewSlot, ChainOf, FirstOf, IsDir, SizeOf;
    DirSlotFields(name, c);
    NewSlotFields(inner, 0, 0);
    assert [name, inner][1..] == [inner];
    assert NextDir(g, g.rootCluster, DirSlot(name, c)) == c;
    assert Resolve(g, d, c, [inner], None) == At(0, 0, false);
    assert Resolve(g, d, g.rootCluster, [name, inner], None) == Resolve(g, d, c, [inner], None);
    assert FileBytes(g, d, 0, 0) == [];
  }

  /**
   * Losing a file this way happens on a sound volume with a sound card: writing an empty file over the
   * directory `name` succeeds, leaves the volume well formed, and `inner` below it is gone.
   */
  lemma SomeFileIsLost(g: Fat32, blocks: nat, name: Name, inner: Name) returns (d: Disk)
    requires g.Valid(blocks) && name[0] !in {0, FREE_MARK} && inner[0] !in {0, FREE_MARK} && inner != name
    ensures |d| == blocks && WellFormed(g, d) && Mirrored(g, d)
    ensures Writable(g, d, name) && DirNamed(g, d, name) && HasRoom(g, d, name, 0) && Severed(g, d, name)
    ensures PathBytes(g, d, [name, inner]) == Some([]) && PathBytes(g, d, [inner]) == None
    ensures Detached(g, d, name, [inner])
  {
    hide Nested, Wf, PathBytes, Avoids, Enters, Writable, DirNamed, HasRoom, Severed, TargetOf, Mirrored;
    var c;
    d, c := NestedDisk(g, blocks, name, inner);
    NestedWf(g, d, name, inner, c);
    NestedTarget(g, d, name, inner, c);
    NestedPaths(g, d, name, inner, c);
  }

  lemma EmptyNeedsOne(g: Fat32)
    requires g.sectorsPerCluster >= 1
    ensures ClustersFor(g, 0) == 1
  {
  }
}
