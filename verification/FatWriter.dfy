/** Writing: creating or overwriting a root-directory file by name. */
module FatWriter {
  import opened Bytes
  import opened SdCard
  import opened Options
  import opened FatGeometry
  import opened FatChain
  import opened FatDir
  import opened FatVolume
  import opened FatDriver
  import opened FatReader

  // ---------- searching the root directory ----------

  /** A slot's place on the card, and for an existing entry its first cluster. */
  datatype Spot = Spot(lba: nat, off: nat)
  datatype Hit = Hit(spot: Spot, first: nat)

  function SpotOf(lbas: seq<nat>, k: nat): Spot
    requires k < SLOTS_PER_SECTOR * |lbas|
  {
    Spot(lbas[k / SLOTS_PER_SECTOR], SLOT_SIZE * (k % SLOTS_PER_SECTOR))
  }

  /** The first `k` slots were scanned: `found` is the last match at `kf`, `free` a reusable slot at `kr`. */
  ghost predicate Scanned(
    slots: seq<Slot>, lbas: seq<nat>, name: Name, k: nat, found: Option<Hit>, free: Option<Spot>, kf: nat, kr: nat)
  {
    && |slots| == SLOTS_PER_SECTOR * |lbas| && k <= |slots|
    && (forall i :: 0 <= i < k ==> slots[i][0] != 0)
    && (found.None? ==> forall i :: 0 <= i < k ==> !Matches(slots[i], name))
    && (found.Some? ==> kf < k && Matches(slots[kf], name)
                        && (forall i :: kf < i < k ==> !Matches(slots[i], name))
                        && found.value == Hit(SpotOf(lbas, kf), FirstOf(slots[kf])))
    && (free.None? ==> forall i :: 0 <= i < k ==> slots[i][0] != FREE_MARK)
    && (free.Some? ==> kr <= k && kr < |slots| && slots[kr][0] in {0, FREE_MARK} && free.value == SpotOf(lbas, kr))
  }

  lemma ScannedNone(slots: seq<Slot>, lbas: seq<nat>, name: Name)
    requires |slots| == SLOTS_PER_SECTOR * |lbas|
    ensures Scanned(slots, lbas, name, 0, None, None, 0, 0)
  {
  }

  lemma SpotHere(lbas: seq<nat>, j: nat, i: nat)
    requires j < |lbas| && i < SLOTS_PER_SECTOR
    ensures SpotOf(lbas, SLOTS_PER_SECTOR * j + i) == Spot(lbas[j], SLOT_SIZE * i)
  {
    var k := SLOTS_PER_SECTOR * j + i;
    assert k / SLOTS_PER_SECTOR == j && k % SLOTS_PER_SECTOR == i;
  }

  /** A slot that is neither reusable nor a match changes nothing. */
  lemma ScannedPass(
    slots: seq<Slot>, lbas: seq<nat>, name: Name, k: nat, found: Option<Hit>, free: Option<Spot>, kf: nat, kr: nat)
    requires Scanned(slots, lbas, name, k, found, free, kf, kr) && k < |slots|
    requires slots[k][0] !in {0, FREE_MARK} && !Matches(slots[k], name)
    ensures Scanned(slots, lbas, name, k + 1, found, free, kf, kr)
  {
  }

  /** A match replaces any earlier one. */
  lemma ScannedMatch(
    slots: seq<Slot>, lbas: seq<nat>, name: Name, k: nat, found: Option<Hit>, free: Option<Spot>, kf: nat, kr: nat)
    requires Scanned(slots, lbas, name, k, found, free, kf, kr) && k < |slots| && Matches(slots[k], name)
    ensures Scanned(slots, lbas, name, k + 1, Some(Hit(SpotOf(lbas, k), FirstOf(slots[k]))), free, k, kr)
  {
  }

  /** The first reusable slot is remembered. */
  lemma ScannedFree(
    slots: seq<Slot>, lbas: seq<nat>, name: Name, k: nat, found: Option<Hit>, free: Option<Spot>, kf: nat, kr: nat)
    requires Scanned(slots, lbas, name, k, found, free, kf, kr) && k < |slots| && slots[k][0] in {0, FREE_MARK}
    ensures free.None? ==> Scanned(slots, lbas, name, k, found, Some(SpotOf(lbas, k)), kf, k)
    ensures slots[k][0] == FREE_MARK && free.None? ==>
              Scanned(slots, lbas, name, k + 1, found, Some(SpotOf(lbas, k)), kf, k)
    ensures slots[k][0] == FREE_MARK && free.Some? ==> Scanned(slots, lbas, name, k + 1, found, free, kf, kr)
  {
  }

  lemma ScannedSize(
    slots: seq<Slot>, lbas: seq<nat>, name: Name, k: nat, found: Option<Hit>, free: Option<Spot>, kf: nat, kr: nat)
    requires Scanned(slots, lbas, name, k, found, free, kf, kr)
    ensures |slots| == SLOTS_PER_SECTOR * |lbas|
  {
  }

  method ScanSector(
    sector: Sector, secLba: nat, name: Name, found0: Option<Hit>, free0: Option<Spot>,
    ghost slots: seq<Slot>, ghost lbas: seq<nat>, ghost j: nat, ghost kf0: nat, ghost kr0: nat)
    returns (found: Option<Hit>, free: Option<Spot>, ended: bool, ghost k: nat, ghost kf: nat, ghost kr: nat)
    requires Scanned(slots, lbas, name, SLOTS_PER_SECTOR * j, found0, free0, kf0, kr0)
    requires j < |lbas| && secLba == lbas[j]
    requires forall x :: 0 <= x < SLOTS_PER_SECTOR ==>
               SLOTS_PER_SECTOR * j + x < |slots| && slots[SLOTS_PER_SECTOR * j + x] == SlotIn(sector, x)
    ensures Scanned(slots, lbas, name, k, found, free, kf, kr)
    ensures if ended then k < |slots| && slots[k][0] == 0 && free.Some? else k == SLOTS_PER_SECTOR * (j + 1)
  {
    hide Scanned, SlotIn, SpotOf;
    ScannedSize(slots, lbas, name, SLOTS_PER_SECTOR * j, found0, free0, kf0, kr0);
    found, free, kf, kr := found0, free0, kf0, kr0;
    var i := 0;
    while i < SLOTS_PER_SECTOR
      invariant 0 <= i <= SLOTS_PER_SECTOR
      invariant Scanned(slots, lbas, name, SLOTS_PER_SECTOR * j + i, found, free, kf, kr)
    {
      SpotHere(lbas, j, i);
      k := SLOTS_PER_SECTOR * j + i;
      var off := SLOT_SIZE * i;
      var entry := SlotIn(sector, i);
      assert slots[k] == entry;
      if entry[0] == 0 {
        ScannedFree(slots, lbas, name, k, found, free, kf, kr);
        if free.None? {
          free := Some(Spot(secLba, off));
          kr := k;
        }
        return found, free, true, k, kf, kr;
      }
      if entry[0] == FREE_MARK {
        ScannedFree(slots, lbas, name, k, found, free, kf, kr);
        if free.None? {
          free := Some(Spot(secLba, off));
          kr := k;
        }
        i := i + 1;
        continue;
      }
      if entry[11] == 0x0F || entry[11] / 8 % 2 != 0 {
        ScannedPass(slots, lbas, name, k, found, free, kf, kr);
        i := i + 1;
        continue;
      }
      if entry[..11] == name {
        ScannedMatch(slots, lbas, name, k, found, free, kf, kr);
        found := Some(Hit(Spot(secLba, off), FirstOf(entry)));
        kf := k;
      } else {
        ScannedPass(slots, lbas, name, k, found, free, kf, kr);
      }
      i := i + 1;
    }
    return found, free, false, SLOTS_PER_SECTOR * (j + 1), kf, kr;
  }

  datatype Search = Search(found: Option<Hit>, free: Option<Spot>, last: nat, ended: bool)

  /** Scans the root directory, whose chain is `cs`, up to its first never-used slot. */
  method SearchRoot(g: Fat32, card: Card, name: Name, ghost cs: seq<nat>)
    returns (r: Result<Search>, ghost k: nat, ghost kf: nat, ghost kr: nat)
    requires g.Valid(|card.disk|) && IsChain(Fat(g, card.disk), cs) && cs[0] == g.rootCluster
    modifies card`faults
    ensures r.Ok? ==> InTable(g, cs) && Scanned(
                        DirOf(g, card.disk, g.rootCluster), Lbas(g, cs), name, k, r.value.found, r.value.free, kf, kr)
    ensures r.Ok? ==> var slots := DirOf(g, card.disk, g.rootCluster);
                      if r.value.ended then k < |slots| && slots[k][0] == 0 && r.value.free.Some?
                      else k == |slots| && r.value.last == cs[|cs| - 1]
    ensures r.Err? ==> r.error == Sd
    ensures card.faults == old(card.faults) + Faulted(r)
  {
    hide IsChain, Lbas, Fat, Times, Raw, Cursor, Content, Run, SlotAt, SlotIn, Matches, InTable, ChainOf, DirOf,
      Scanned;
    ghost var d := card.disk;
    ChainStep(Fat(g, d), cs, 0);
    ChainViews(g, d, cs);
    CursorStart(g, cs);
    ghost var lbas := Lbas(g, cs);
    ghost var slots := Dir(d, lbas);
    ScannedNone(slots, lbas, name);
    var found: Option<Hit>, free: Option<Spot>, ended := None, None, false;
    var cluster := g.rootCluster;
    ghost var p, j := 0, 0;
    k, kf, kr := 0, 0, 0;
    while true
      invariant card.faults == old(card.faults)
      invariant 0 <= p < |cs| && cluster == cs[p] && 2 <= cluster < g.MaxCluster() && Cursor(g, cs, p, 0, j)
      invariant Scanned(slots, lbas, name, SLOTS_PER_SECTOR * j, found, free, kf, kr)
      decreases |cs| - p
    {
      var lba := g.ClusterToLba(cluster);
      var s := 0;
      while s < g.sectorsPerCluster
        invariant card.faults == old(card.faults)
        invariant 0 <= s <= g.sectorsPerCluster && Cursor(g, cs, p, s, j)
        invariant Scanned(slots, lbas, name, SLOTS_PER_SECTOR * j, found, free, kf, kr)
      {
        CursorHere(g, cs, p, s, j);
        var sector := card.ReadBlock(lba + s);
        if sector.Err? {
          return Err(sector.error), k, kf, kr;
        }
        DirSector(d, lbas, j);
        found, free, ended, k, kf, kr :=
          ScanSector(sector.value, lba + s, name, found, free, slots, lbas, j, kf, kr);
        if ended {
          return Ok(Search(found, free, cluster, true)), k, kf, kr;
        }
        s := s + 1;
        j := j + 1;
      }
      CursorNext(g, cs, p, j);
      ChainStep(Fat(g, d), cs, p);
      var next := FatEntry(g, card, cluster);
      if next.Err? {
        return Err(next.error), k, kf, kr;
      }
      if next.value >= END_OF_CHAIN {
        return Ok(Search(found, free, cluster, false)), SLOTS_PER_SECTOR * j, kf, kr;
      }
      cluster := next.value;
      p := p + 1;
    }
  }

  // ---------- where the entry goes ----------

  /** The name may be stored: it is not confused with a slot mark, and no root directory bears it. */
  ghost predicate Storable(g: Fat32, d: Disk, name: Name)
    requires g.Valid(|d|)
  {
    && name[0] != 0 && name[0] != FREE_MARK
    && (Find(DirOf(g, d, g.rootCluster), name).Some? ==> !IsDir(Find(DirOf(g, d, g.rootCluster), name).value))
  }

  /** The first cluster of the root entry called `name`; 0 when there is none or it has no chain. */
  ghost function TargetOf(g: Fat32, d: Disk, name: Name): nat
    requires g.Valid(|d|)
  {
    match Find(DirOf(g, d, g.rootCluster), name)
    case None => 0
    case Some(s) => FirstOf(s)
  }

  /** The name is that of a root directory with a chain of its own. */
  ghost predicate DirNamed(g: Fat32, d: Disk, name: Name)
    requires g.Valid(|d|)
  {
    var e := Find(DirOf(g, d, g.rootCluster), name);
    e.Some? && IsDir(e.value) && FirstOf(e.value) != 0
  }

  /** The weakest a name must be: not confused with a slot mark, and not a second name of the root directory. */
  ghost predicate Writable(g: Fat32, d: Disk, name: Name)
    requires g.Valid(|d|)
  {
    name[0] != 0 && name[0] != FREE_MARK && TargetOf(g, d, name) != g.rootCluster
  }

  /**
   * Whatever can be reached without the root entry of that name, directory entry by directory entry, never
   * leads to the directory it names (if it names one).
   */
  ghost predicate Severed(g: Fat32, d: Disk, name: Name)
    requires g.Valid(|d|)
  {
    SeveredAt(g, d, name, TargetOf(g, d, name))
  }

  /** How many clusters the name's chain has. */
  ghost function HeldBy(g: Fat32, d: Disk, name: Name): nat
    requires g.Valid(|d|)
  {
    var t := TargetOf(g, d, name);
    if t == 0 then 0 else |ChainOf(g, d, t)|
  }

  /** No root slot is free for a new entry. */
  ghost predicate RootFull(g: Fat32, d: Disk)
    requires g.Valid(|d|)
  {
    var slots := DirOf(g, d, g.rootCluster);
    forall i :: 0 <= i < |slots| ==> slots[i][0] !in {0, FREE_MARK}
  }

  /**
   * The volume has room for `len` bytes under `name`: the clusters the name has and the free ones are
   * enough, with one more for a new entry in a full root directory.
   */
  ghost predicate HasRoom(g: Fat32, d: Disk, name: Name, len: nat)
    requires g.Valid(|d|)
  {
    var extra := if Find(DirOf(g, d, g.rootCluster), name).None? && RootFull(g, d) then 1 else 0;
    EnoughClusters(g, FreeCount(g, d) + HeldBy(g, d, name) - extra, len)
  }

  /** `n` clusters, at least one, take `len` bytes. */
  predicate EnoughClusters(g: Fat32, n: int, len: nat) {
    n >= 1 && len <= n * (512 * g.sectorsPerCluster)
  }

  /** Even one cluster fewer than the name has would take `len` bytes. */
  ghost predicate Shrinks(g: Fat32, d: Disk, name: Name, len: nat)
    requires g.Valid(|d|)
  {
    EnoughClusters(g, HeldBy(g, d, name) - 1, len)
  }

  /** The name has a plain file's entry of the right size, and as few clusters as that takes. */
  ghost predicate Allotted(g: Fat32, d: Disk, name: Name, len: nat)
    requires g.Valid(|d|)
  {
    var e := Find(DirOf(g, d, g.rootCluster), name);
    && e.Some? && e.value[11] == 0x20 && SizeOf(e.value) == len
    && EnoughClusters(g, HeldBy(g, d, name), len) && !Shrinks(g, d, name, len)
  }

  lemma StorableIsWritable(g: Fat32, d: Disk, lay: Layout, name: Name)
    requires Wf(g, d, lay) && Storable(g, d, name)
    ensures Writable(g, d, name) && !DirNamed(g, d, name)
  {
    var slots := DirOf(g, d, g.rootCluster);
    if Find(slots, name).Some? {
      var k := FindWhere(slots, name);
      assert EntryOk(lay, slots[k]);
    }
  }

  lemma PlaceFound(slots: seq<Slot>, lbas: seq<nat>, name: Name, k: nat, hit: Hit, free: Option<Spot>, kf: nat, kr: nat)
    requires Closed(slots) && UniqueNames(slots) && Scanned(slots, lbas, name, k, Some(hit), free, kf, kr)
    ensures LiveAt(slots, kf) && Place(slots, kf, name, hit.first) && hit.spot == SpotOf(lbas, kf)
    ensures Find(slots, name) == Some(slots[kf]) && hit.first == FirstOf(slots[kf])
  {
    assert LiveAt(slots, kf);
    forall j | LiveAt(slots, j) && j != kf
      ensures NameOf(slots[j]) != name
    {
      assert Live(slots[j]) && Live(slots[kf]);
    }
    FindHit(slots, name, kf);
  }

  lemma PlaceFree(slots: seq<Slot>, lbas: seq<nat>, name: Name, k: nat, spot: Spot, kf: nat, kr: nat)
    requires Closed(slots) && Scanned(slots, lbas, name, k, None, Some(spot), kf, kr)
    requires k == |slots| || slots[k][0] == 0
    ensures Place(slots, kr, name, 0) && spot == SpotOf(lbas, kr)
    ensures Find(slots, name) == None && slots[kr][0] in {0, FREE_MARK}
  {
    forall j | LiveAt(slots, j)
      ensures NameOf(slots[j]) != name && j != kr
    {
      assert j < k;
      assert !Matches(slots[j], name);
    }
    FindMiss(slots, name);
  }

  lemma PlaceNew(slots: seq<Slot>, pad: seq<Slot>, lbas: seq<nat>, name: Name, kf: nat, kr: nat)
    requires Scanned(slots, lbas, name, |slots|, None, None, kf, kr)
    requires |pad| > 0 && forall j :: 0 <= j < |pad| ==> pad[j][0] == 0
    ensures Place(slots + pad, |slots|, name, 0)
    ensures Find(slots, name) == None
    ensures forall i :: 0 <= i < |slots| ==> slots[i][0] !in {0, FREE_MARK}
  {
    forall j | LiveAt(slots + pad, j)
      ensures NameOf((slots + pad)[j]) != name && j != |slots|
    {
      assert j < |slots|;
      assert !Matches(slots[j], name);
    }
    forall j | LiveAt(slots, j)
      ensures NameOf(slots[j]) != name
    {
      assert !Matches(slots[j], name);
    }
    FindMiss(slots, name);
  }

  // ---------- one more cluster for the root directory ----------

  /** Cluster `c` was taken from the free ones and zeroed; nothing links to it yet. */
  ghost predicate TakenOne(g: Fat32, d: Disk, d1: Disk, c: nat)
    requires g.Valid(|d|)
  {
    && 2 <= c < g.MaxCluster() && c in FreeSet(Fat(g, d)) && OnlyClusters(g, d, d1, {c})
    && Fat(g, d1)[c] >= END_OF_CHAIN && ZeroedCluster(g, d1, c)
    && (Mirrored(g, d) ==> Mirrored(g, d1))
  }

  lemma TakenIsOne(g: Fat32, d: Disk, d1: Disk, cs: seq<nat>, from: nat)
    requires g.Valid(|d|) && Taken(g, d, d1, cs, from) && |cs| == 1
    ensures TakenOne(g, d, d1, cs[0])
  {
    assert cs[0] in SetOf(cs);
    assert SetOf(cs) == {cs[0]};
  }

  lemma LastOfRoot(g: Fat32, d: Disk, lay: Layout)
    requires Wf(g, d, lay)
    ensures var cs := RootChain(g, lay);
            && IsChain(Fat(g, d), cs) && cs[0] == g.rootCluster
            && 2 <= cs[|cs| - 1] < g.MaxCluster() && cs[|cs| - 1] !in FreeSet(Fat(g, d))
  {
    var cs := RootChain(g, lay);
    ChainNotFree(Fat(g, d), cs);
    assert cs[|cs| - 1] in SetOf(cs);
  }

  /** Once the last root cluster links to it, the taken cluster belongs to the root directory. */
  lemma LinkGrowsRoot(g: Fat32, d: Disk, d1: Disk, d2: Disk, lay: Layout, c: nat)
    requires Wf(g, d, lay) && TakenOne(g, d, d1, c)
    requires var last := RootChain(g, lay)[|RootChain(g, lay)| - 1];
             && OnlyClusters(g, d1, d2, {last}) && Fat(g, d2)[last] == c
             && forall x :: 2 <= x < g.MaxCluster() ==> SameCluster(g, d1, d2, x)
    ensures RootGrown(g, d, d2, lay, c)
  {
    hide FreeSet, Raw, EntriesOk, SoleOwners, Closed, UniqueNames, ChainsOk, IsChain, Times;
    LastOfRoot(g, d, lay);
    var last := RootChain(g, lay)[|RootChain(g, lay)| - 1];
    OnlyClustersJoin(g, d, d1, d2, {c}, {last}, FreeSet(Fat(g, d)) + {last});
    assert SameCluster(g, d, d1, last) && SameCluster(g, d1, d2, last);
    assert SameCluster(g, d1, d2, c);
  }

  lemma EntryUnchanged(g: Fat32, d1: Disk, d2: Disk, last: nat)
    requires g.Valid(|d1|) && 2 <= last < g.MaxCluster()
    requires OnlyClusters(g, d1, d2, {last}) && Fat(g, d2)[last] == Fat(g, d1)[last]
    requires forall x :: 2 <= x < g.MaxCluster() ==> SameCluster(g, d1, d2, x)
    ensures OnlyClusters(g, d1, d2, {})
  {
  }

  /** While it does not, the taken cluster is a leak. */
  lemma UnlinkedLeaks(g: Fat32, d: Disk, d1: Disk, d2: Disk, lay: Layout, c: nat, last: nat)
    requires Wf(g, d, lay) && TakenOne(g, d, d1, c)
    requires 2 <= last < g.MaxCluster()
    requires OnlyClusters(g, d1, d2, {last}) && Fat(g, d2)[last] == Fat(g, d1)[last]
    requires forall x :: 2 <= x < g.MaxCluster() ==> SameCluster(g, d1, d2, x)
    ensures OnlyClusters(g, d, d2, FreeSet(Fat(g, d)))
  {
    hide OnlyClusters, SameCluster, Fat, FreeSet, EntriesOk, SoleOwners, Closed, UniqueNames, ChainsOk, ZeroedCluster;
    OnlyClustersMono(g, d, d1, {c}, {c});
    EntryUnchanged(g, d1, d2, last);
    OnlyClustersJoin(g, d, d1, d2, {c}, {}, FreeSet(Fat(g, d)));
  }

  ghost function FreeCount(g: Fat32, d: Disk): nat
    requires g.Valid(|d|)
  {
    |FreeSet(Fat(g, d))|
  }

  /** Taking one cluster and linking it costs the volume exactly that one free cluster. */
  lemma LinkCosts(g: Fat32, d: Disk, d1: Disk, d2: Disk, c: nat, last: nat)
    requires g.Valid(|d|) && TakenOne(g, d, d1, c) && |d1| == |d|
    requires OnlyClusters(g, d1, d2, {last}) && |d2| == |d| && last !in FreeSet(Fat(g, d)) && last < g.MaxCluster()
    requires Fat(g, d2)[last] != 0
    ensures FreeCount(g, d) == FreeCount(g, d2) + 1
  {
    hide TakenOne, OnlyClusters;
    var free, free2 := FreeSet(Fat(g, d)), FreeSet(Fat(g, d2));
    forall x: nat
      ensures x in free2 <==> x in free && x != c
    {
      StillFree(g, d, d1, d2, c, last, x);
    }
    StillFree(g, d, d1, d2, c, last, c);
    assert free == free2 + {c};
  }

  lemma StillFree(g: Fat32, d: Disk, d1: Disk, d2: Disk, c: nat, last: nat, x: nat)
    requires g.Valid(|d|) && TakenOne(g, d, d1, c) && |d1| == |d|
    requires OnlyClusters(g, d1, d2, {last}) && |d2| == |d| && last !in FreeSet(Fat(g, d)) && last < g.MaxCluster()
    requires Fat(g, d2)[last] != 0
    ensures x in FreeSet(Fat(g, d2)) <==> x in FreeSet(Fat(g, d)) && x != c
    ensures c in FreeSet(Fat(g, d))
  {
  }

  lemma SubsetSize(a: set<nat>, b: set<nat>)
    requires a <= b
    ensures |a| <= |b|
  {
    UnionSize(a, b - a);
    assert b == a + (b - a);
  }

  /** Gives the root directory one more, empty, cluster. Whatever happens, every path reads as before. */
  method ExtendRoot(g: Fat32, card: Card, last: nat, ghost lay: Layout) returns (r: Result<nat>, ghost lay1: Layout)
    requires Wf(g, card.disk, lay) && last == RootChain(g, lay)[|RootChain(g, lay)| - 1]
    modifies card
    ensures Wf(g, card.disk, lay1) && Unaffected(g, old(card.disk), card.disk, lay, 0, None)
    ensures ReservedKept(g, old(card.disk), card.disk)
    ensures r.Ok? ==> RootGrown(g, old(card.disk), card.disk, lay, r.value) && lay1 == Extended(g, lay, r.value)
    ensures r.Ok? ==> FreeCount(g, old(card.disk)) == FreeCount(g, card.disk) + 1
    ensures r == Err(NoSpace) ==> FreeCount(g, old(card.disk)) == 0
    ensures r.Err? ==> r.error in {Sd, NoSpace}
    ensures r != Err(Sd) && Mirrored(g, old(card.disk)) ==> Mirrored(g, card.disk)
    ensures card.faults == old(card.faults) + Faulted(r)
  {
    hide IsChain, Fat, Raw, Times, Mirrored, Taken, RootGrown, SameCluster, ZeroedCluster, FreeSet, SetOf;
    ghost var d := card.disk;
    LastOfRoot(g, d, lay);
    lay1 := lay;
    ghost var cs;
    r, cs := AllocateChain(g, card, 1);
    ghost var d1 := card.disk;
    if r.Err? {
      LeakKeepsWf(g, d, d1, lay);
      return;
    }
    ghost var from :| Taken(g, d, d1, cs, from);
    TakenIsOne(g, d, d1, cs, from);
    var c := r.value;
    TakenBound(g, d, d1, c);
    var linked := LinkCluster(g, card, last, c);
    ghost var d2 := card.disk;
    ReservedTrans(g, d, d1, d2);
    if linked.Err? {
      r := Err(linked.error);
    }
    if Fat(g, d2)[last] == c {
      LinkCosts(g, d, d1, d2, c, last);
      LinkGrowsRoot(g, d, d1, d2, lay, c);
      GrowKeepsWf(g, d, d2, lay, c);
      lay1 := Extended(g, lay, c);
    } else {
      UnlinkedLeaks(g, d, d1, d2, lay, c, last);
      LeakKeepsWf(g, d, d2, lay);
    }
  }

  lemma TakenBound(g: Fat32, d: Disk, d1: Disk, c: nat)
    requires g.Valid(|d|) && TakenOne(g, d, d1, c)
    ensures |d1| == |d| && c < g.MaxCluster() <= END_OF_CHAIN < LOW28
  {
  }

  lemma ReservedTrans(g: Fat32, d: Disk, d1: Disk, d2: Disk)
    requires g.Valid(|d|) && |d| == |d1| == |d2| && ReservedKept(g, d, d1) && ReservedKept(g, d1, d2)
    ensures ReservedKept(g, d, d2)
  {
    hide Raw;
  }

  // ---------- the file's chain ----------

  lemma PreparedByTaking(g: Fat32, d: Disk, d1: Disk, lay: Layout, cs: seq<nat>, from: nat)
    requires Wf(g, d, lay) && Taken(g, d, d1, cs, from) && cs != []
    ensures Prepared(g, d, d1, lay, 0, cs)
  {
    NoZeroHead(Fat(g, d), lay.chains);
    OnlyClustersMono(g, d, d1, SetOf(cs), FreeSet(Fat(g, d)) + ChainSet(lay, 0));
  }

  lemma PreparedByResizing(g: Fat32, d: Disk, d1: Disk, lay: Layout, t: nat, cs: seq<nat>, needed: nat)
    requires Wf(g, d, lay) && t in lay.chains && t != g.rootCluster && needed >= 1
    requires Resized(g, d, d1, lay.chains[t], cs, needed)
    ensures Prepared(g, d, d1, lay, t, cs)
  {
    hide OnlyClusters, ResizedChain, IsChain, Fat, FreeSet, SetOf, Mirrored, SameCluster, EntriesOk, SoleOwners,
      Closed, UniqueNames;
    var was := lay.chains[t];
    OnlyClustersMono(g, d, d1, SetOf(was) + SetOf(cs), SetOf(was) + SetOf(cs));
    ResizedSources(Fat(g, d), Fat(g, d1), was, cs, needed);
    OnlyClustersMono(g, d, d1, SetOf(was) + SetOf(cs), FreeSet(Fat(g, d)) + ChainSet(lay, t));
  }

  /** How many clusters the chain at `t` has; none when there is no chain. */
  ghost function Held(lay: Layout, t: nat): nat {
    if t in lay.chains then |lay.chains[t]| else 0
  }

  /** The layout is the old one, the chain at `t` aside. */
  ghost predicate SameButFor(lay: Layout, lay': Layout, t: nat) {
    && lay'.dirs == lay.dirs && lay'.chains.Keys == lay.chains.Keys
    && forall h :: h in lay.chains && h != t ==> lay'.chains[h] == lay.chains[h]
  }

  /**
   * Gives the file whose old chain is `t` (0: none) a chain of exactly `needed` clusters. A file that is
   * not to shrink leaves the volume well formed in every outcome.
   */
  method PrepareChain(g: Fat32, card: Card, t: nat, needed: nat, ghost lay: Layout)
    returns (r: Result<nat>, ghost cs: seq<nat>, ghost lay1: Layout)
    requires Wf(g, card.disk, lay) && t != g.rootCluster && (t == 0 || t in lay.chains) && needed >= 1
    modifies card
    ensures |card.disk| == |old(card.disk)|
    ensures OnlyClusters(g, old(card.disk), card.disk, FreeSet(Fat(g, old(card.disk))) + ChainSet(lay, t))
    ensures r.Ok? ==> Prepared(g, old(card.disk), card.disk, lay, t, cs) && |cs| == needed && r.value == cs[0]
    ensures r.Ok? && t != 0 ==> cs[0] == t
    ensures r.Ok? ==> needed <= FreeCount(g, old(card.disk)) + Held(lay, t)
    ensures t !in lay.dirs && Held(lay, t) <= needed ==> Wf(g, card.disk, lay1) && SameButFor(lay, lay1, t)
    ensures t != 0 && Held(lay, t) <= needed ==> ChainBytes(g, old(card.disk), t) <= ChainBytes(g, card.disk, t)
    ensures r.Err? ==> r.error in {Sd, NoSpace}
    ensures r == Err(NoSpace) ==>
      && OnlyClusters(g, old(card.disk), card.disk, FreeSet(Fat(g, old(card.disk))))
      && FreeCount(g, old(card.disk)) + Held(lay, t) < needed
    ensures r != Err(Sd) && Mirrored(g, old(card.disk)) ==> Mirrored(g, card.disk)
    ensures card.faults == old(card.faults) + Faulted(r)
  {
    hide OnlyClusters, IsChain, Fat, Raw, Times, Mirrored, FreeSet, SetOf, EntriesOk, SoleOwners, Closed, UniqueNames,
      Prepared, Wf, Resized, StillChain, Taken, ChainBytes, DataStays;
    ghost var d := card.disk;
    WfValid(g, d, lay);
    ghost var free := FreeSet(Fat(g, d));
    lay1 := lay;
    if t >= 2 {
      OldChain(g, d, lay, t);
      r, cs := ResizeChain(g, card, t, needed, lay.chains[t]);
      if r.Ok? {
        PreparedByResizing(g, d, card.disk, lay, t, cs, needed);
        ResizedHead(g, d, card.disk, lay.chains[t], cs, needed);
      }
      if |lay.chains[t]| <= needed {
        RegrownReads(g, d, card.disk, lay.chains[t], cs);
      }
      if t !in lay.dirs && |lay.chains[t]| <= needed {
        RegrownPrepared(g, d, card.disk, lay, t, cs);
        RegrownKeepsWf(g, d, card.disk, lay, t, cs);
        lay1 := Regrown(lay, t, cs);
      }
    } else {
      NoSmallHeads(g, d, lay, t);
      r, cs := AllocateChain(g, card, needed);
      LeakKeepsWf(g, d, card.disk, lay);
      OnlyClustersMono(g, d, card.disk, free, free + ChainSet(lay, t));
      if r.Ok? {
        ghost var from :| Taken(g, d, card.disk, cs, from);
        PreparedByTaking(g, d, card.disk, lay, cs, from);
        TakenCount(g, d, card.disk, cs, from);
      }
    }
  }

  lemma OldChain(g: Fat32, d: Disk, lay: Layout, t: nat)
    requires Wf(g, d, lay) && t in lay.chains
    ensures IsChain(Fat(g, d), lay.chains[t]) && lay.chains[t] != [] && lay.chains[t][0] == t
  {
  }

  lemma TakenCount(g: Fat32, d: Disk, d': Disk, cs: seq<nat>, from: nat)
    requires g.Valid(|d|) && Taken(g, d, d', cs, from)
    ensures |cs| <= FreeCount(g, d) && (Mirrored(g, d) ==> Mirrored(g, d'))
  {
    TakenFacts(g, d, d', cs, from);
    DistinctSize(cs);
    SubsetSize(SetOf(cs), FreeSet(Fat(g, d)));
  }

  lemma RegrownPrepared(g: Fat32, d: Disk, d': Disk, lay: Layout, t: nat, cs: seq<nat>)
    requires Wf(g, d, lay) && t in lay.chains && t != g.rootCluster && |d'| == |d|
    requires OnlyClusters(g, d, d', FreeSet(Fat(g, d)) + SetOf(lay.chains[t]))
    requires StillChain(Fat(g, d), Fat(g, d'), lay.chains[t], cs)
    ensures Prepared(g, d, d', lay, t, cs) && cs[0] == t
  {
    hide OnlyClusters, Fat, FreeSet, SetOf, EntriesOk, SoleOwners, Closed, UniqueNames;
  }

  /** A chain that leads the new one, its data in place, is still the start of what is read. */
  lemma RegrownReads(g: Fat32, d: Disk, d': Disk, cs: seq<nat>, cs': seq<nat>)
    requires g.Valid(|d|) && |d'| == |d| && IsChain(Fat(g, d), cs) && StillChain(Fat(g, d), Fat(g, d'), cs, cs')
    requires DataStays(g, d, d', cs)
    ensures ChainBytes(g, d, cs[0]) <= ChainBytes(g, d', cs[0])
  {
    hide IsChain, Fat, FreeSet, SetOf, ChainBytes, ChainOf, Lbas, Content, DirOf, SameCluster;
    ChainViews(g, d, cs);
    ChainViews(g, d', cs');
    var more := cs'[|cs|..];
    assert cs' == cs + more;
    TableMembers(g, cs);
    assert InTable(g, more);
    LbasAppend(g, cs, more);
    LbasOnDisk(g, d', more);
    BlocksSame(g, d, d', cs);
    ContentSame(d, d', Lbas(g, cs));
    ContentAppend(d', Lbas(g, cs), Lbas(g, more));
  }

  lemma TableMembers(g: Fat32, cs: seq<nat>)
    requires InTable(g, cs)
    ensures forall c :: c in cs ==> 2 <= c < g.MaxCluster()
  {
  }

  lemma ResizedHead(g: Fat32, d: Disk, d1: Disk, cs: seq<nat>, cs': seq<nat>, needed: nat)
    requires g.Valid(|d|) && IsChain(Fat(g, d), cs) && Resized(g, d, d1, cs, cs', needed) && needed >= 1
    ensures |cs'| == needed && cs'[0] == cs[0] && needed <= FreeCount(g, d) + |cs|
    ensures Mirrored(g, d) ==> Mirrored(g, d1)
  {
    var k := Min(|cs|, needed);
    assert cs'[..k][0] == cs[..k][0];
  }

  lemma NoSmallHeads(g: Fat32, d: Disk, lay: Layout, t: nat)
    requires Wf(g, d, lay) && t < 2 && (t == 0 || t in lay.chains)
    ensures t == 0 && t !in lay.chains
  {
    assert t in lay.chains ==> IsChain(Fat(g, d), lay.chains[t]);
  }

  // ---------- the file's data ----------

  /** The `m`-th 512-byte piece of `data`, padded with zeros. */
  function Piece(data: seq<byte>, m: nat): Sector
    requires SECTOR_SIZE * m <= |data|
  {
    var rest := data[SECTOR_SIZE * m..];
    if |rest| >= SECTOR_SIZE then rest[..SECTOR_SIZE] else rest + Zeros(SECTOR_SIZE - |rest|)
  }

  /** The first `j` blocks of `lbas` hold the first `j` pieces of `data`; no other block changed. */
  ghost predicate DataWritten(d: Disk, d': Disk, lbas: seq<nat>, data: seq<byte>, j: nat) {
    && |d'| == |d| && j <= |lbas| && OnDisk(d, lbas) && (j > 0 ==> SECTOR_SIZE * (j - 1) < |data|)
    && (forall m :: 0 <= m < j ==> SECTOR_SIZE * m <= |data| && d'[lbas[m]] == Piece(data, m))
    && (forall m :: j <= m < |lbas| ==> d'[lbas[m]] == d[lbas[m]])
    && (forall b :: 0 <= b < |d| && b !in lbas ==> d'[b] == d[b])
  }

  /** The first `j` 512-byte pieces of `data`, the last padded with zeros, over the start of `was`. */
  ghost predicate Overlaid(was: seq<byte>, now: seq<byte>, data: seq<byte>, j: nat) {
    && |was| <= |now| && (j > 0 ==> SECTOR_SIZE * (j - 1) < |data|)
    && forall x :: 0 <= x < |was| ==>
         now[x] == if x >= SECTOR_SIZE * j then was[x] else if x < |data| then data[x] else 0
  }

  ghost predicate PartlyOver(was: seq<byte>, now: seq<byte>, data: seq<byte>) {
    exists j: nat :: Overlaid(was, now, data, j)
  }

  lemma DataStep(d: Disk, d1: Disk, d2: Disk, lbas: seq<nat>, data: seq<byte>, j: nat)
    requires DataWritten(d, d1, lbas, data, j) && j < |lbas| && SECTOR_SIZE * j < |data| && Distinct(lbas)
    requires lbas[j] < |d1| && d2 == d1[lbas[j] := Piece(data, j)]
    ensures DataWritten(d, d2, lbas, data, j + 1)
  {
    assert lbas[j] in lbas;
  }

  lemma AppendPiece(data: seq<byte>, m: nat)
    requires SECTOR_SIZE * m <= |data|
    ensures var n := Min(SECTOR_SIZE * (m + 1), |data|);
            (data[..SECTOR_SIZE * m] + Piece(data, m))[..n] == data[..n]
  {
  }

  /** Blocks holding the first `j` pieces of the data read back as its first bytes. */
  lemma {:induction false} PiecesContent(d: Disk, lbas: seq<nat>, data: seq<byte>, j: nat)
    requires OnDisk(d, lbas) && j <= |lbas|
    requires forall m :: 0 <= m < j ==> SECTOR_SIZE * m <= |data| && d[lbas[m]] == Piece(data, m)
    ensures OnDisk(d, lbas[..j])
    ensures var n := Min(SECTOR_SIZE * j, |data|); Content(d, lbas[..j])[..n] == data[..n]
  {
    hide Piece;
    if j > 0 {
      var m := j - 1;
      assert d[lbas[m]] == Piece(data, m);
      PiecesContent(d, lbas, data, m);
      ContentSnoc(d, lbas, m);
      assert Content(d, lbas[..m]) == data[..SECTOR_SIZE * m];
      AppendPiece(data, m);
    }
  }

  /** Only data blocks of the chain changed, so only its clusters were touched, and no FAT entry. */
  lemma DataFrame(g: Fat32, d: Disk, d': Disk, cs: seq<nat>, data: seq<byte>, j: nat)
    requires g.Valid(|d|) && InTable(g, cs) && DataWritten(d, d', Lbas(g, cs), data, j)
    ensures OnlyClusters(g, d, d', SetOf(cs)) && Fat(g, d') == Fat(g, d)
    ensures Mirrored(g, d) ==> Mirrored(g, d')
  {
    LbasOnDisk(g, d, cs);
    FatBlocksSame(g, d, d');
    forall c | 2 <= c < g.MaxCluster() && c !in SetOf(cs)
      ensures SameCluster(g, d, d', c)
    {
      OutsideChain(g, cs, c);
    }
  }

  lemma OutsideChain(g: Fat32, cs: seq<nat>, c: nat)
    requires InTable(g, cs) && 2 <= c && c !in SetOf(cs)
    ensures forall b :: g.ClusterToLba(c) <= b < g.ClusterToLba(c) + g.sectorsPerCluster ==> b !in Lbas(g, cs)
  {
    forall b | g.ClusterToLba(c) <= b < g.ClusterToLba(c) + g.sectorsPerCluster && b in Lbas(g, cs)
      ensures false
    {
      var i :| 0 <= i < |Lbas(g, cs)| && Lbas(g, cs)[i] == b;
      var x, s := LbasOwner(g, cs, i);
      ClusterRangesApart(g, c, x);
    }
  }

  lemma DataDone(g: Fat32, d: Disk, d': Disk, cs: seq<nat>, data: seq<byte>, j: nat)
    requires g.Valid(|d|) && |d'| == |d| && IsChain(Fat(g, d'), cs) && InTable(g, cs)
    requires DataWritten(d, d', Lbas(g, cs), data, j) && |data| <= SECTOR_SIZE * j
    ensures |data| <= |ChainBytes(g, d', cs[0])| && ChainBytes(g, d', cs[0])[..|data|] == data
  {
    hide IsChain, Fat, Raw, Times, Lbas, ChainBytes, ChainOf, Piece;
    ChainViews(g, d', cs);
    var lbas := Lbas(g, cs);
    PiecesContent(d', lbas, data, j);
    assert lbas == lbas[..j] + lbas[j..];
    ContentAppend(d', lbas[..j], lbas[j..]);
  }

  lemma PieceByte(data: seq<byte>, x: nat)
    requires SECTOR_SIZE * (x / SECTOR_SIZE) <= |data|
    ensures Piece(data, x / SECTOR_SIZE)[x % SECTOR_SIZE] == if x < |data| then data[x] else 0
  {
  }

  /** However far the writing came, the chain holds that many pieces over what it held before. */
  lemma DataOverlaid(g: Fat32, d: Disk, d': Disk, cs: seq<nat>, data: seq<byte>, j: nat)
    requires g.Valid(|d|) && |d'| == |d| && IsChain(Fat(g, d), cs) && Fat(g, d') == Fat(g, d) && InTable(g, cs)
    requires DataWritten(d, d', Lbas(g, cs), data, j)
    ensures PartlyOver(ChainBytes(g, d, cs[0]), ChainBytes(g, d', cs[0]), data)
  {
    hide IsChain, Fat, Raw, Times, Lbas, ChainBytes, ChainOf, Piece, Content;
    ChainViews(g, d, cs);
    ChainViews(g, d', cs);
    var lbas := Lbas(g, cs);
    var was, now := Content(d, lbas), Content(d', lbas);
    forall x | 0 <= x < |was|
      ensures now[x] == if x >= SECTOR_SIZE * j then was[x] else if x < |data| then data[x] else 0
    {
      ContentByte(d, lbas, x);
      ContentByte(d', lbas, x);
      if x < SECTOR_SIZE * j {
        PieceByte(data, x);
      }
    }
    assert Overlaid(was, now, data, j);
  }

  /** Writes pieces of the data into one cluster until it or the data is exhausted. */
  method WriteCluster(
    g: Fat32, card: Card, cluster: nat, data: seq<byte>, start: nat,
    ghost d: Disk, ghost cs: seq<nat>, ghost p: nat, ghost j: nat)
    returns (r: Result<nat>, ghost j': nat)
    requires InTable(g, cs) && p < |cs| && cluster == cs[p] && 2 <= cluster
    requires Cursor(g, cs, p, 0, j) && Distinct(Lbas(g, cs))
    requires DataWritten(d, card.disk, Lbas(g, cs), data, j) && start == Min(SECTOR_SIZE * j, |data|)
    modifies card
    ensures DataWritten(d, card.disk, Lbas(g, cs), data, j')
    ensures r.Ok? ==> r.value == Min(SECTOR_SIZE * j', |data|)
    ensures r.Ok? && r.value < |data| ==> Cursor(g, cs, p, g.sectorsPerCluster, j')
    ensures r.Err? ==> r.error == Sd
    ensures card.faults == old(card.faults) + Faulted(r)
  {
    hide Lbas, Times, Cursor, Run, DataWritten, Distinct;
    ghost var lbas := Lbas(g, cs);
    var lba := g.ClusterToLba(cluster);
    var s := 0;
    var written: nat := start;
    j' := j;
    while s < g.sectorsPerCluster
      invariant card.faults == old(card.faults)
      invariant 0 <= s <= g.sectorsPerCluster
      invariant written < |data| ==> Cursor(g, cs, p, s, j')
      invariant DataWritten(d, card.disk, lbas, data, j') && written == Min(SECTOR_SIZE * j', |data|)
    {
      if written >= |data| {
        break;
      }
      CursorHere(g, cs, p, s, j');
      var take := Min(|data| - written, SECTOR_SIZE);
      var sector := data[written..written + take] + Zeros(SECTOR_SIZE - take);
      assert sector == Piece(data, j');
      ghost var d1 := card.disk;
      DataSize(d, d1, lbas, data, j');
      var e := card.WriteBlock(lba + s, sector);
      if e.Ok? || card.disk != d1 {
        DataStep(d, d1, card.disk, lbas, data, j');
        j' := j' + 1;
      }
      if e.Err? {
        return Err(e.error), j';
      }
      written := written + take;
      s := s + 1;
    }
    return Ok(written), j';
  }

  /** Writes `data` over the content of the chain `cs` starting at `first`, which is long enough for it. */
  method WriteData(g: Fat32, card: Card, first: nat, data: seq<byte>, ghost cs: seq<nat>) returns (r: Result<()>)
    requires g.Valid(|card.disk|) && IsChain(Fat(g, card.disk), cs) && cs[0] == first
    requires InTable(g, cs) && |data| <= SECTOR_SIZE * |Lbas(g, cs)|
    modifies card
    ensures OnlyClusters(g, old(card.disk), card.disk, SetOf(cs))
    ensures |card.disk| == |old(card.disk)| && Fat(g, card.disk) == Fat(g, old(card.disk))
    ensures Mirrored(g, old(card.disk)) ==> Mirrored(g, card.disk)
    ensures r.Ok? ==> |data| <= |ChainBytes(g, card.disk, first)| && ChainBytes(g, card.disk, first)[..|data|] == data
    ensures PartlyOver(ChainBytes(g, old(card.disk), first), ChainBytes(g, card.disk, first), data)
    ensures r.Err? ==> r.error == Sd
    ensures card.faults == old(card.faults) + Faulted(r)
  {
    hide OnlyClusters, IsChain, Fat, Raw, Times, Mirrored, Lbas, ChainBytes, Cursor, DataWritten, Distinct, SetOf,
      PartlyOver;
    ghost var d := card.disk;
    ghost var lbas := Lbas(g, cs);
    ChainDistinct(g, d, cs);
    CursorStart(g, cs);
    NothingWritten(g, d, cs, data);
    DataFrame(g, d, d, cs, data, 0);
    var written := 0;
    var cluster := first;
    ghost var p, j := 0, 0;
    while written < |data|
      invariant card.faults == old(card.faults)
      invariant 0 <= p < |cs| && cluster == cs[p] && 2 <= cluster < g.MaxCluster()
      invariant written < |data| ==> Cursor(g, cs, p, 0, j)
      invariant |card.disk| == |d| && DataWritten(d, card.disk, lbas, data, j)
      invariant written == Min(SECTOR_SIZE * j, |data|)
      decreases |cs| - p
    {
      var wrote;
      wrote, j := WriteCluster(g, card, cluster, data, written, d, cs, p, j);
      DataSize(d, card.disk, lbas, data, j);
      DataFrame(g, d, card.disk, cs, data, j);
      DataOverlaid(g, d, card.disk, cs, data, j);
      if wrote.Err? {
        return Err(wrote.error);
      }
      written := wrote.value;
      if written >= |data| {
        break;
      }
      CursorNext(g, cs, p, j);
      ChainStep(Fat(g, d), cs, p);
      var next := FatEntry(g, card, cluster);
      if next.Err? {
        return Err(next.error);
      }
      cluster := next.value;
      p := p + 1;
    }
    DataFrame(g, d, card.disk, cs, data, j);
    DataOverlaid(g, d, card.disk, cs, data, j);
    DataDone(g, d, card.disk, cs, data, j);
    return Ok(());
  }

  lemma ChainDistinct(g: Fat32, d: Disk, cs: seq<nat>)
    requires g.Valid(|d|) && IsChain(Fat(g, d), cs) && InTable(g, cs)
    ensures cs != [] && 2 <= cs[0] < g.MaxCluster() && Distinct(Lbas(g, cs))
  {
    LbasDistinct(g, cs);
  }

  lemma NothingWritten(g: Fat32, d: Disk, cs: seq<nat>, data: seq<byte>)
    requires g.Valid(|d|) && InTable(g, cs)
    ensures DataWritten(d, d, Lbas(g, cs), data, 0)
  {
    LbasOnDisk(g, d, cs);
  }

  lemma DataSize(d: Disk, d': Disk, lbas: seq<nat>, data: seq<byte>, j: nat)
    requires DataWritten(d, d', lbas, data, j)
    ensures |d'| == |d| && j <= |lbas| && OnDisk(d', lbas)
  {
  }

  // ---------- the directory entry ----------

  /** Overwrites one directory slot in place. */
  method WriteEntry(card: Card, spot: Spot, entry: Slot, ghost lbas: seq<nat>, ghost k: nat) returns (r: Result<()>)
    requires OnDisk(card.disk, lbas) && k < SLOTS_PER_SECTOR * |lbas| && spot == SpotOf(lbas, k)
    modifies card
    ensures r.Ok? ==> SlotWritten(old(card.disk), card.disk, lbas, k, entry)
    ensures r.Err? ==> r.error == Sd
    ensures r.Err? ==> card.disk == old(card.disk) || SlotWritten(old(card.disk), card.disk, lbas, k, entry)
    ensures card.faults == old(card.faults) + Faulted(r)
  {
    var sector := card.ReadBlock(spot.lba);
    if sector.Err? {
      return Err(sector.error);
    }
    r := card.WriteBlock(spot.lba, Patch(sector.value, spot.off, entry));
  }

  // ---------- what the whole write keeps ----------

  /**
   * Nothing outside the named file is lost: other files read the same, the root directory still lists
   * every other entry, the name did not turn into a directory, and reserved FAT bits are kept.
   */
  ghost predicate Safe(g: Fat32, d: Disk, d': Disk, name: Name)
    requires g.Valid(|d|)
  {
    && |d'| == |d|
    && OthersKept(g, d, d', name)
    && (forall path :: Avoids(g, d', path, name) <==> Avoids(g, d, path, name))
    && ReservedKept(g, d, d')
    && RootKept(g, d, d', name)
  }

  /** The root directory finds every other name as before. */
  ghost predicate OtherNamesKept(g: Fat32, d: Disk, d': Disk, name: Name)
    requires g.Valid(|d|) && |d'| == |d|
  {
    forall n :: n != name ==> Find(DirOf(g, d', g.rootCluster), n) == Find(DirOf(g, d, g.rootCluster), n)
  }

  ghost predicate RootKept(g: Fat32, d: Disk, d': Disk, name: Name)
    requires g.Valid(|d|) && |d'| == |d|
  {
    OtherNamesKept(g, d, d', name) && (Storable(g, d, name) ==> Storable(g, d', name))
  }

  /**
   * What is left of that when `name` is the directory that starts at `t`: every file whose path neither
   * goes through the name nor into the directory, the other root names, and the reserved bits.
   */
  ghost predicate SafeAround(g: Fat32, d: Disk, d': Disk, name: Name, t: nat)
    requires g.Valid(|d|)
  {
    && |d'| == |d|
    && OutsidersKept(g, d, d', name, t)
    && ReservedKept(g, d, d')
    && OtherNamesKept(g, d, d', name)
  }

  /** Whichever of the two applies to a name. */
  ghost predicate SafeFor(g: Fat32, d: Disk, d': Disk, name: Name)
    requires g.Valid(|d|)
  {
    if DirNamed(g, d, name) then SafeAround(g, d, d', name, TargetOf(g, d, name)) else Safe(g, d, d', name)
  }

  /** A second write, over what is no directory any more, leaves alone what the first did. */
  lemma SafeForTrans(g: Fat32, d: Disk, d1: Disk, d2: Disk, name: Name)
    requires g.Valid(|d|) && |d1| == |d| && SafeFor(g, d, d1, name) && SafeFor(g, d1, d2, name)
    requires d1 == d || !DirNamed(g, d1, name)
    ensures SafeFor(g, d, d2, name)
  {
    hide Raw, Fat, Times, PathBytes, DirOf, Find, Avoids, Enters, DirNamed, TargetOf;
    if d1 != d && !DirNamed(g, d, name) {
      SafeTrans(g, d, d1, d2, name);
    }
  }

  /** Whichever of the two applies to a target starting at `t`. */
  ghost predicate Kept(g: Fat32, d: Disk, d': Disk, lay: Layout, name: Name, t: nat)
    requires g.Valid(|d|)
  {
    if t in lay.dirs then SafeAround(g, d, d', name, t) else Safe(g, d, d', name)
  }

  lemma SafeTrans(g: Fat32, d: Disk, d1: Disk, d2: Disk, name: Name)
    requires g.Valid(|d|) && Safe(g, d, d1, name) && Safe(g, d1, d2, name)
    ensures Safe(g, d, d2, name)
  {
    hide Raw, Fat, Times, PathBytes, DirOf, Find;
    forall path | Avoids(g, d, path, name)
      ensures PathBytes(g, d2, path) == PathBytes(g, d, path)
    {
      assert Avoids(g, d1, path, name);
    }
  }

  /** Where the entry goes and what its old chain is, on a well-formed volume. */
  ghost predicate Ready(g: Fat32, d: Disk, lay: Layout, name: Name, t: nat, k: nat)
  {
    && Wf(g, d, lay) && name[0] != 0 && name[0] != FREE_MARK
    && t != g.rootCluster && (t == 0 || t in lay.chains)
    && Place(DirOf(g, d, g.rootCluster), k, name, t)
  }

  lemma ReadyTarget(g: Fat32, d: Disk, lay: Layout, name: Name, t: nat, k: nat)
    requires Ready(g, d, lay, name, t, k)
    ensures Target(g, d, lay, t, Some(name))
  {
    if t != 0 && t !in lay.dirs {
      assert EntryOk(lay, DirOf(g, d, g.rootCluster)[k]);
      assert OwnsFile(DirOf(g, d, g.rootCluster), k, t);
    }
  }

  /** Work on free clusters and the target's own chain leaves everything else alone. */
  lemma WorkIsSafe(g: Fat32, d: Disk, d': Disk, lay: Layout, name: Name, t: nat, k: nat)
    requires Ready(g, d, lay, name, t, k)
    requires OnlyClusters(g, d, d', FreeSet(Fat(g, d)) + ChainSet(lay, t))
    ensures Kept(g, d, d', lay, name, t)
  {
    ReadyTarget(g, d, lay, name, t, k);
    WorkUnaffected(g, d, d', lay, t, Some(name));
    if t in lay.dirs {
      UnaffectedOutsiders(g, d, d', lay, t, name);
    } else {
      UnaffectedOthers(g, d, d', lay, t, name);
    }
  }

  /** With no old chain that work is on free clusters alone, and even the target reads as before. */
  lemma WorkWithoutChain(g: Fat32, d: Disk, d': Disk, lay: Layout, name: Name)
    requires Wf(g, d, lay) && OnlyClusters(g, d, d', FreeSet(Fat(g, d)) + ChainSet(lay, 0))
    ensures |d'| == |d| && Wf(g, d', lay) && PathBytes(g, d', [name]) == PathBytes(g, d, [name])
  {
    hide OnlyClusters, Fat, FreeSet, SetOf, EntriesOk, SoleOwners, Closed, UniqueNames, PathBytes, DirOf, ChainsOk;
    OnlyClustersMono(g, d, d', FreeSet(Fat(g, d)) + ChainSet(lay, 0), FreeSet(Fat(g, d)) + ChainSet(lay, 0));
    ZeroIsNoDir(g, d, lay);
    assert FreeSet(Fat(g, d)) + ChainSet(lay, 0) == FreeSet(Fat(g, d));
    LeakIsSafe(g, d, d', lay, name);
  }

  lemma LeakIsSafe(g: Fat32, d: Disk, d': Disk, lay: Layout, name: Name)
    requires Wf(g, d, lay) && OnlyClusters(g, d, d', FreeSet(Fat(g, d)))
    ensures Safe(g, d, d', name) && AllKept(g, d, d') && Wf(g, d', lay)
  {
    LeakKeepsWf(g, d, d', lay);
    UnaffectedAll(g, d, d', lay, name);
  }

  lemma CommitFatKept(
    g: Fat32, d: Disk, d1: Disk, d2: Disk, lay: Layout, t: nat, cs: seq<nat>, k: nat, s: Slot)
    requires Entered(g, d, d1, d2, lay, t, cs, k, s)
    ensures |d2| == |d1| == |d| && ReservedKept(g, d, d2) && (Mirrored(g, d1) ==> Mirrored(g, d2))
  {
    hide Entered, DirOf, Find, ChainBytes, Fat, Raw, Wf;
    EnteredFacts(g, d, d1, d2, lay, t, cs, k, s);
    CommitRoot(g, d, d1, d2, lay, t, cs, k, s);
    ReservedTrans(g, d, d1, d2);
  }

  lemma EnteredFacts(
    g: Fat32, d: Disk, d1: Disk, d2: Disk, lay: Layout, t: nat, cs: seq<nat>, k: nat, s: Slot)
    requires Entered(g, d, d1, d2, lay, t, cs, k, s)
    ensures g.Valid(|d|) && |d1| == |d| && ReservedKept(g, d, d1)
    ensures cs != [] && cs[0] != 0 && FirstOf(s) == cs[0] && !IsDir(s)
  {
    hide Place, SlotWritten, EntriesOk, SoleOwners, ChainsOk, Closed, UniqueNames, Raw, DirOf, ReservedKept;
  }

  /** After the commit the name reads as what its new chain held before the commit. */
  lemma CommitReads(
    g: Fat32, d: Disk, d1: Disk, d2: Disk, lay: Layout, t: nat, cs: seq<nat>, k: nat, s: Slot)
    requires Entered(g, d, d1, d2, lay, t, cs, k, s)
    ensures |d2| == |d1| == |d|
    ensures PathBytes(g, d2, [NameOf(s)]) == Some(FileBytes(g, d1, FirstOf(s), SizeOf(s)))
  {
    hide Entered, DirOf, Find, ChainBytes, PathBytes, Unaffected, Target, Fat, Raw, IsDir, FirstOf, SizeOf;
    EnteredFacts(g, d, d1, d2, lay, t, cs, k, s);
    CommitUnaffected(g, d, d1, d2, lay, t, cs, k, s);
    CommitRoot(g, d, d1, d2, lay, t, cs, k, s);
    RootPath(g, d2, NameOf(s));
  }

  lemma CommitRootKept(
    g: Fat32, d: Disk, d1: Disk, d2: Disk, lay: Layout, t: nat, cs: seq<nat>, k: nat, s: Slot)
    requires Entered(g, d, d1, d2, lay, t, cs, k, s)
    ensures |d2| == |d| && RootKept(g, d, d2, NameOf(s))
  {
    CommitUnaffected(g, d, d1, d2, lay, t, cs, k, s);
  }

  lemma CommitIsSafe(
    g: Fat32, d: Disk, d1: Disk, d2: Disk, lay: Layout, t: nat, cs: seq<nat>, k: nat, s: Slot)
    requires Entered(g, d, d1, d2, lay, t, cs, k, s) && Wf(g, d, lay) && t != g.rootCluster
    ensures Kept(g, d, d2, lay, NameOf(s), t)
    ensures t !in lay.dirs ==> Wf(g, d2, CommittedLayout(lay, t, cs))
  {
    hide Entered, DirOf, Find, Wf, Unaffected, Target, OthersKept, Avoids, Enters, ReservedKept, Mirrored;
    CommitFatKept(g, d, d1, d2, lay, t, cs, k, s);
    CommitUnaffected(g, d, d1, d2, lay, t, cs, k, s);
    CommitRootKept(g, d, d1, d2, lay, t, cs, k, s);
    if t in lay.dirs {
      UnaffectedOutsiders(g, d, d2, lay, t, NameOf(s));
    } else {
      UnaffectedOthers(g, d, d2, lay, t, NameOf(s));
      CommitKeepsWf(g, d, d1, d2, lay, t, cs, k, s);
    }
  }

  // ---------- a write cut short before its entry ----------

  /** No entry changed, and some pieces of the data are over the start of the chain at `t`. */
  ghost predicate HalfStored(g: Fat32, d: Disk, d': Disk, t: nat, data: seq<byte>)
    requires g.Valid(|d|) && |d'| == |d|
  {
    && DirOf(g, d', g.rootCluster) == DirOf(g, d, g.rootCluster)
    && PartlyOver(ChainBytes(g, d, t), ChainBytes(g, d', t), data)
  }

  /**
   * The file kept its entry, so its size, and reads as some leading 512-byte pieces of the data over what
   * it held. Only an entry that claims more bytes than its chain has can then show more of them.
   */
  ghost predicate HalfWritten(g: Fat32, d: Disk, d': Disk, name: Name, data: seq<byte>)
    requires g.Valid(|d|) && |d'| == |d|
  {
    var e := Find(DirOf(g, d, g.rootCluster), name);
    var was, now := PathBytes(g, d, [name]), PathBytes(g, d', [name]);
    && e.Some? && Find(DirOf(g, d', g.rootCluster), name) == e && was.Some? && now.Some?
    && PartlyOver(was.value, now.value, data)
    && (|was.value| == SizeOf(e.value) ==> |now.value| == |was.value|)
  }

  lemma PartlyOverRefl(was: seq<byte>, now: seq<byte>, data: seq<byte>)
    requires was <= now
    ensures PartlyOver(was, now, data)
  {
    assert Overlaid(was, now, data, 0);
  }

  lemma PartlyOverPrefix(was: seq<byte>, grown: seq<byte>, now: seq<byte>, data: seq<byte>)
    requires was <= grown && PartlyOver(grown, now, data)
    ensures PartlyOver(was, now, data)
  {
    var j: nat :| Overlaid(grown, now, data, j);
    assert Overlaid(was, now, data, j);
  }

  lemma PartlyOverCut(was: seq<byte>, now: seq<byte>, data: seq<byte>, size: nat)
    requires PartlyOver(was, now, data)
    ensures |was| <= |now|
    ensures PartlyOver(was[..Min(size, |was|)], now[..Min(size, |now|)], data)
  {
    var j: nat :| Overlaid(was, now, data, j);
    assert Overlaid(was[..Min(size, |was|)], now[..Min(size, |now|)], data, j);
  }

  lemma StoredNothing(g: Fat32, d: Disk, t: nat, data: seq<byte>)
    requires g.Valid(|d|)
    ensures HalfStored(g, d, d, t, data)
  {
    PartlyOverRefl(ChainBytes(g, d, t), ChainBytes(g, d, t), data);
  }

  /** After the entry write the name has its entry and just the chain prepared for it. */
  lemma CommitHolds(
    g: Fat32, d: Disk, d1: Disk, d2: Disk, lay: Layout, t: nat, cs: seq<nat>, k: nat, s: Slot)
    requires Entered(g, d, d1, d2, lay, t, cs, k, s)
    ensures |d2| == |d| && g.Valid(|d|)
    ensures Find(DirOf(g, d2, g.rootCluster), NameOf(s)) == Some(s) && HeldBy(g, d2, NameOf(s)) == |cs|
  {
    hide Place, SlotWritten, EntriesOk, SoleOwners, ChainsOk, Closed, UniqueNames, Raw, DirOf, ReservedKept, Find, Fat,
      FirstOf, IsDir, IsChain, Unaffected, Target, OnlyClusters;
    EnteredFacts(g, d, d1, d2, lay, t, cs, k, s);
    CommitUnaffected(g, d, d1, d2, lay, t, cs, k, s);
    CommitRoot(g, d, d1, d2, lay, t, cs, k, s);
    ChainViews(g, d2, cs);
  }

  lemma {:induction false} CommitAllotted(g: Fat32, d: Disk, name: Name, first: u32, size: u32, n: nat)
    requires g.Valid(|d|) && Find(DirOf(g, d, g.rootCluster), name) == Some(NewSlot(name, first, size))
    requires HeldBy(g, d, name) == n == ClustersFor(g, size) && name[0] != 0 && name[0] != FREE_MARK
    ensures Allotted(g, d, name, size)
  {
    hide HeldBy, ClustersFor, DirOf, Find, EnoughClusters;
    NewSlotFields(name, first, size);
    ClustersForIsLeast(g, size, n);
    ClustersForIsLeast(g, size, n - 1);
  }

  /** What the driver leaves in the chain is what the file's path shows. */
  lemma HalfStoredReads(g: Fat32, d: Disk, d': Disk, name: Name, data: seq<byte>)
    requires g.Valid(|d|) && |d'| == |d| && TargetOf(g, d, name) != 0 && !DirNamed(g, d, name)
    requires HalfStored(g, d, d', TargetOf(g, d, name), data)
    ensures HalfWritten(g, d, d', name, data)
  {
    hide DirOf, Find, ChainBytes, PartlyOver, IsDir, FirstOf, SizeOf, PathBytes;
    RootPath(g, d, name);
    RootPath(g, d', name);
    var e := Find(DirOf(g, d, g.rootCluster), name).value;
    PartlyOverCut(ChainBytes(g, d, FirstOf(e)), ChainBytes(g, d', FirstOf(e)), data, SizeOf(e));
  }

  // ---------- storing a file ----------

  /** `data.len()` in whole clusters, at least one. */
  function ClustersFor(g: Fat32, len: nat): (n: nat)
    requires g.sectorsPerCluster >= 1
    ensures n >= 1
  {
    var n := (len + g.ClusterSizeBytes() - 1) / g.ClusterSizeBytes();
    if n > 1 then n else 1
  }

  lemma CeilIsLeast(len: nat, unit: nat, n: nat)
    requires unit >= 1
    ensures n >= (len + unit - 1) / unit <==> len <= n * unit
  {
    var q := (len + unit - 1) / unit;
    CeilCovers(len, unit);
    if n >= q {
      MulGrows(q, n, unit);
    } else {
      MulGrows(n + 1, q, unit);
      assert (n + 1) * unit == n * unit + unit;
    }
  }

  lemma MulGrows(a: nat, b: nat, n: nat)
    requires a <= b
    ensures a * n <= b * n
  {
  }

  /** No cluster is wasted: it is the least number of clusters that takes the bytes. */
  lemma ClustersForIsLeast(g: Fat32, len: nat, n: int)
    requires g.sectorsPerCluster >= 1
    ensures n >= ClustersFor(g, len) <==> EnoughClusters(g, n, len)
  {
    if n >= 1 {
      CeilIsLeast(len, g.ClusterSizeBytes(), n);
    }
  }

  lemma CeilCovers(len: nat, unit: nat)
    requires unit >= 1
    ensures len <= (len + unit - 1) / unit * unit
  {
    var q := (len + unit - 1) / unit;
    assert len + unit - 1 == q * unit + (len + unit - 1) % unit;
  }

  /** That many clusters have room for the data. */
  lemma ClustersCover(g: Fat32, len: nat, cs: seq<nat>)
    requires g.sectorsPerCluster >= 1 && InTable(g, cs) && |cs| == ClustersFor(g, len)
    ensures len <= SECTOR_SIZE * |Lbas(g, cs)|
  {
    var unit, n, spc := g.ClusterSizeBytes(), |cs|, g.sectorsPerCluster;
    LbasSize(g, cs);
    TimesIsProduct(n, spc);
    CeilCovers(len, unit);
    Scale(n, spc, unit, (len + unit - 1) / unit);
  }

  lemma Scale(n: nat, spc: nat, unit: nat, q: nat)
    requires unit == spc * SECTOR_SIZE && q <= n
    ensures q * unit <= SECTOR_SIZE * (n * spc)
  {
    assert q * unit <= n * unit by {
      TimesIsProduct(q, unit);
      TimesIsProduct(n, unit);
      if q < n {
        TimesStep(q, n, unit);
      }
    }
    assert n * unit == SECTOR_SIZE * (n * spc);
  }

  lemma PreparedStays(g: Fat32, d: Disk, d1: Disk, d2: Disk, lay: Layout, t: nat, cs: seq<nat>)
    requires g.Valid(|d|) && Prepared(g, d, d1, lay, t, cs) && OnlyClusters(g, d1, d2, SetOf(cs))
    requires |d2| == |d1| && Fat(g, d2) == Fat(g, d1)
    ensures Prepared(g, d, d2, lay, t, cs)
  {
    hide OnlyClusters, Wf, IsChain, FreeSet, SetOf, Fat;
    var all := FreeSet(Fat(g, d)) + ChainSet(lay, t);
    OnlyClustersJoin(g, d, d1, d2, all, SetOf(cs), all);
  }

  lemma PreparedFacts(g: Fat32, d: Disk, d1: Disk, lay: Layout, t: nat, cs: seq<nat>)
    requires Prepared(g, d, d1, lay, t, cs)
    ensures |d1| == |d| && g.Valid(|d|)
    ensures InTable(g, cs) && IsChain(Fat(g, d1), cs) && cs != [] && 2 <= cs[0] < LOW28
    ensures OnlyClusters(g, d, d1, FreeSet(Fat(g, d)) + ChainSet(lay, t))
  {
  }

  lemma RootTable(g: Fat32, d: Disk, lay: Layout)
    requires Wf(g, d, lay)
    ensures InTable(g, RootChain(g, lay)) && OnDisk(d, Lbas(g, RootChain(g, lay)))
    ensures |DirOf(g, d, g.rootCluster)| == SLOTS_PER_SECTOR * |Lbas(g, RootChain(g, lay))|
  {
    ChainViews(g, d, RootChain(g, lay));
  }

  /** What `StoreAt` keeps up to its entry write. */
  lemma BeforeEntry(g: Fat32, d: Disk, d': Disk, lay: Layout, name: Name, t: nat, k: nat)
    requires Ready(g, d, lay, name, t, k)
    requires OnlyClusters(g, d, d', FreeSet(Fat(g, d)) + ChainSet(lay, t))
    ensures |d'| == |d| && Kept(g, d, d', lay, name, t) && ReservedKept(g, d, d')
    ensures DirOf(g, d', g.rootCluster) == DirOf(g, d, g.rootCluster)
    ensures t == 0 ==> Wf(g, d', lay) && PathBytes(g, d', [name]) == PathBytes(g, d, [name])
  {
    hide FreeSet, SetOf, EntriesOk, SoleOwners, Closed, UniqueNames, PathBytes, DirOf, ChainsOk, ChainSet, Kept, Place;
    WorkIsSafe(g, d, d', lay, name, t, k);
    WorkUnaffected(g, d, d', lay, t, None);
    if t == 0 {
      WorkWithoutChain(g, d, d', lay, name);
    }
  }

  /** The data is in place: a file that did not shrink is on a well-formed volume. */
  lemma DataKeepsLayout(
    g: Fat32, d: Disk, d1: Disk, d2: Disk, lay: Layout, lay1: Layout, t: nat, cs: seq<nat>)
    requires Prepared(g, d, d1, lay, t, cs) && t !in lay.dirs
    requires |d1| == |d| == |d2| && Wf(g, d1, lay1) && SameButFor(lay, lay1, t)
    requires OnlyClusters(g, d1, d2, SetOf(cs)) && Fat(g, d2) == Fat(g, d1)
    ensures Wf(g, d2, lay1)
  {
    hide OnlyClusters, Wf, Prepared, Fat, FreeSet, SetOf;
    DirsHaveChains(g, d, d1, lay, t, cs);
    forall h | h in lay1.dirs
      ensures h in lay1.chains && Apart(lay1.chains[h], cs)
    {
      PreparedApart(g, d, d1, lay, t, cs, h);
    }
    DataKeepsWf(g, d1, d2, lay1, cs);
  }

  lemma DirsHaveChains(g: Fat32, d: Disk, d1: Disk, lay: Layout, t: nat, cs: seq<nat>)
    requires Prepared(g, d, d1, lay, t, cs)
    ensures lay.dirs <= lay.chains.Keys
  {
  }

  /** Gives the file a chain, writes its data, and only then its directory entry at slot `k`. */
  method StoreAt(
    g: Fat32, card: Card, name: Name, data: seq<byte>, spot: Spot, t: nat, ghost k: nat, ghost lay: Layout)
    returns (r: Result<()>, ghost lay': Layout)
    requires Ready(g, card.disk, lay, name, t, k) && |data| < 0x1_0000_0000
    requires InTable(g, RootChain(g, lay)) && k < SLOTS_PER_SECTOR * |Lbas(g, RootChain(g, lay))|
    requires spot == SpotOf(Lbas(g, RootChain(g, lay)), k)
    modifies card
    ensures |card.disk| == |old(card.disk)|
    ensures Kept(g, old(card.disk), card.disk, lay, name, t)
    ensures r.Ok? ==> PathBytes(g, card.disk, [name]) == Some(data) && Allotted(g, card.disk, name, |data|)
    ensures t !in lay.dirs && (r.Ok? || Held(lay, t) <= ClustersFor(g, |data|)) ==> Wf(g, card.disk, lay')
    ensures t in lay.dirs && r.Ok? && SeveredAt(g, old(card.disk), name, t) ==> Wf(g, card.disk, lay')
    ensures t in lay.dirs && r.Ok? && !SeveredAt(g, old(card.disk), name, t) ==> forall any :: !Wf(g, card.disk, any)
    ensures t == 0 ==> PathBytes(g, card.disk, [name]) in {PathBytes(g, old(card.disk), [name]), Some(data)}
    ensures t != 0 && Held(lay, t) <= ClustersFor(g, |data|) ==>
              PathBytes(g, card.disk, [name]) == Some(data) || HalfStored(g, old(card.disk), card.disk, t, data)
    ensures r.Err? ==> r.error in {Sd, NoSpace}
    ensures r == Err(NoSpace) ==> Wf(g, card.disk, lay') && AllKept(g, old(card.disk), card.disk)
    ensures r.Ok? ==> ClustersFor(g, |data|) <= FreeCount(g, old(card.disk)) + Held(lay, t)
    ensures r == Err(NoSpace) ==> FreeCount(g, old(card.disk)) + Held(lay, t) < ClustersFor(g, |data|)
    ensures r != Err(Sd) && Mirrored(g, old(card.disk)) ==> Mirrored(g, card.disk)
    ensures card.faults == old(card.faults) + Faulted(r)
  {
    hide OnlyClusters, IsChain, Fat, Raw, Times, Mirrored, FreeSet, SetOf, EntriesOk, SoleOwners, Closed, UniqueNames,
      Place, Lbas, SpotOf, NewSlot, Kept, AllKept, ChainsOk, ChainBytes, ChainOf, DirOf, Prepared, SlotWritten, InTable,
      Wf, PathBytes, FreeCount, Held, ClustersFor, SameButFor, CommittedLayout, ReservedKept, SeveredAt, SparedLayout,
      PartlyOver, Allotted, HeldBy;
    ghost var d := card.disk;
    WfValid(g, d, lay);
    ghost var root := Lbas(g, RootChain(g, lay));
    RootTable(g, d, lay);
    var needed := NeededClusters(g, |data|);
    ghost var cs;
    var chain;
    chain, cs, lay' := PrepareChain(g, card, t, needed, lay);
    ghost var lay1 := lay';
    ghost var d2 := card.disk;
    BeforeEntry(g, d, d2, lay, name, t, k);
    if t != 0 && Held(lay, t) <= needed {
      PartlyOverRefl(ChainBytes(g, d, t), ChainBytes(g, d2, t), data);
    }
    if chain.Err? {
      if chain.error == NoSpace {
        LeakIsSafe(g, d, d2, lay, name);
        lay' := lay;
      }
      return Err(chain.error), lay';
    }
    var first := chain.value;
    PreparedFacts(g, d, d2, lay, t, cs);
    ClustersCover(g, |data|, cs);
    var wrote := WriteData(g, card, first, data, cs);
    ghost var d3 := card.disk;
    PreparedStays(g, d, d2, d3, lay, t, cs);
    PreparedFacts(g, d, d3, lay, t, cs);
    BeforeEntry(g, d, d3, lay, name, t, k);
    if t != 0 && Held(lay, t) <= needed {
      PartlyOverPrefix(ChainBytes(g, d, t), ChainBytes(g, d2, t), ChainBytes(g, d3, t), data);
    }
    if t !in lay.dirs && Held(lay, t) <= needed {
      DataKeepsLayout(g, d, d2, d3, lay, lay1, t, cs);
    }
    if wrote.Err? {
      return Err(wrote.error), lay';
    }
    var entry := NewSlot(name, first, |data|);
    NewSlotFields(name, first, |data|);
    var e := WriteEntry(card, spot, entry, root, k);
    ghost var d4 := card.disk;
    if d4 != d3 || e.Ok? {
      assert Entered(g, d, d3, d4, lay, t, cs, k, entry);
      CommitIsSafe(g, d, d3, d4, lay, t, cs, k, entry);
      CommitReads(g, d, d3, d4, lay, t, cs, k, entry);
      CommitHolds(g, d, d3, d4, lay, t, cs, k, entry);
      CommitAllotted(g, d4, name, first, |data|, |cs|);
      CommitFatKept(g, d, d3, d4, lay, t, cs, k, entry);
      DataReads(g, d3, first, data);
      lay' := CommittedLayout(lay, t, cs);
      if t in lay.dirs {
        ZeroIsNoDir(g, d, lay);
        lay' := OverDirectoryWfIff(g, d, d3, d4, lay, t, cs, k, entry);
      }
    }
    if e.Err? {
      return Err(e.error), lay';
    }
    return Ok(()), lay';
  }

  lemma DataReads(g: Fat32, d: Disk, first: nat, data: seq<byte>)
    requires g.Valid(|d|) && first != 0
    requires |data| <= |ChainBytes(g, d, first)| && ChainBytes(g, d, first)[..|data|] == data
    ensures FileBytes(g, d, first, |data|) == data
  {
    hide ChainBytes;
  }

  /** `data.len()` in whole clusters, rounded up, at least one. */
  method NeededClusters(g: Fat32, len: nat) returns (n: nat)
    requires g.sectorsPerCluster >= 1
    ensures n == ClustersFor(g, len) && n >= 1
  {
    n := (len + g.ClusterSizeBytes() - 1) / g.ClusterSizeBytes();
    if n < 1 {
      n := 1;
    }
  }

  lemma FoundIsReady(
    g: Fat32, d: Disk, lay: Layout, name: Name, k: nat, hit: Hit, free: Option<Spot>, kf: nat, kr: nat)
    requires Wf(g, d, lay) && Writable(g, d, name) && InTable(g, RootChain(g, lay))
    requires Scanned(
               DirOf(g, d, g.rootCluster), Lbas(g, RootChain(g, lay)), name, k, Some(hit), free, kf, kr)
    ensures Ready(g, d, lay, name, hit.first, kf) && Find(DirOf(g, d, g.rootCluster), name).Some?
    ensures hit.first == TargetOf(g, d, name) && (hit.first in lay.dirs <==> DirNamed(g, d, name))
    ensures kf < SLOTS_PER_SECTOR * |Lbas(g, RootChain(g, lay))| && hit.spot == SpotOf(Lbas(g, RootChain(g, lay)), kf)
  {
    var slots := DirOf(g, d, g.rootCluster);
    PlaceFound(slots, Lbas(g, RootChain(g, lay)), name, k, hit, free, kf, kr);
    assert EntryOk(lay, slots[kf]);
    NoZeroHead(Fat(g, d), lay.chains);
  }

  lemma FreeIsReady(g: Fat32, d: Disk, lay: Layout, name: Name, k: nat, spot: Spot, kf: nat, kr: nat)
    requires Wf(g, d, lay) && Writable(g, d, name) && InTable(g, RootChain(g, lay))
    requires var slots := DirOf(g, d, g.rootCluster);
             && Scanned(slots, Lbas(g, RootChain(g, lay)), name, k, None, Some(spot), kf, kr)
             && (k == |slots| || slots[k][0] == 0)
    ensures Ready(g, d, lay, name, 0, kr)
    ensures Find(DirOf(g, d, g.rootCluster), name) == None && !RootFull(g, d)
    ensures kr < SLOTS_PER_SECTOR * |Lbas(g, RootChain(g, lay))| && spot == SpotOf(Lbas(g, RootChain(g, lay)), kr)
  {
    PlaceFree(DirOf(g, d, g.rootCluster), Lbas(g, RootChain(g, lay)), name, k, spot, kf, kr);
    NoZeroHead(Fat(g, d), lay.chains);
  }

  lemma TargetIsNoDir(g: Fat32, d: Disk, lay: Layout, name: Name)
    requires Wf(g, d, lay) && !DirNamed(g, d, name)
    ensures TargetOf(g, d, name) !in lay.dirs
  {
    hide DirOf, Find, SoleOwners, Closed, UniqueNames;
    var slots := DirOf(g, d, g.rootCluster);
    NoZeroHead(Fat(g, d), lay.chains);
    if Find(slots, name).Some? {
      var k := FindWhere(slots, name);
      assert EntryOk(lay, slots[k]);
    }
  }

  /** What a chain holds by the layout is what the volume shows. */
  lemma HeldIsShown(g: Fat32, d: Disk, lay: Layout, name: Name)
    requires Wf(g, d, lay)
    ensures var t := TargetOf(g, d, name);
            && (t == 0 || t in lay.chains) && HeldBy(g, d, name) == Held(lay, t)
            && (HeldBy(g, d, name) == 0 <==> t == 0)
  {
    hide OnlyClusters, Lbas, Content, ChainBytes;
    var slots := DirOf(g, d, g.rootCluster);
    NoZeroHead(Fat(g, d), lay.chains);
    if Find(slots, name).Some? {
      var k := FindWhere(slots, name);
      assert EntryOk(lay, slots[k]);
      if FirstOf(slots[k]) != 0 {
        ChainViews(g, d, lay.chains[FirstOf(slots[k])]);
      }
    }
  }

  /** The first slot of the cluster added to a full root directory. */
  lemma NewIsReady(g: Fat32, d: Disk, d1: Disk, lay: Layout, name: Name, c: nat, kf: nat, kr: nat)
    requires RootGrown(g, d, d1, lay, c) && Writable(g, d, name) && InTable(g, RootChain(g, lay))
    requires var slots := DirOf(g, d, g.rootCluster);
             Scanned(slots, Lbas(g, RootChain(g, lay)), name, |slots|, None, None, kf, kr)
    ensures var lay1, k := Extended(g, lay, c), |DirOf(g, d, g.rootCluster)|;
            && Ready(g, d1, lay1, name, 0, k) && InTable(g, RootChain(g, lay1))
            && k < SLOTS_PER_SECTOR * |Lbas(g, RootChain(g, lay1))|
            && 2 <= c && Spot(g.ClusterToLba(c), 0) == SpotOf(Lbas(g, RootChain(g, lay1)), k)
    ensures |d1| == |d| && g.Valid(|d|) && 0 !in Extended(g, lay, c).dirs && 0 !in Extended(g, lay, c).chains
  {
    hide Raw, Fat, Times, RootGrown, Wf, Scanned, Place, Find, DirOf, Lbas, InTable;
    GrownFacts(g, d, d1, lay, c);
    GrowKeepsWf(g, d, d1, lay, c);
    var pad := RootGrownDir(g, d, d1, lay, c);
    PlaceNew(DirOf(g, d, g.rootCluster), pad, Lbas(g, RootChain(g, lay)), name, kf, kr);
    ZeroIsNoDir(g, d1, Extended(g, lay, c));
    RootGrownSpot(g, d, d1, lay, c);
  }

  lemma GrownFacts(g: Fat32, d: Disk, d1: Disk, lay: Layout, c: nat)
    requires RootGrown(g, d, d1, lay, c)
    ensures Wf(g, d, lay) && g.Valid(|d|) && |d1| == |d| && g.rootCluster in lay.chains
  {
  }

  lemma ZeroIsNoDir(g: Fat32, d: Disk, lay: Layout)
    requires Wf(g, d, lay)
    ensures 0 !in lay.dirs && 0 !in lay.chains
  {
    NoZeroHead(Fat(g, d), lay.chains);
  }

  lemma RootGrownSpot(g: Fat32, d: Disk, d1: Disk, lay: Layout, c: nat)
    requires RootGrown(g, d, d1, lay, c)
    ensures var cs := RootChain(g, lay);
            && InTable(g, cs + [c]) && InTable(g, cs) && 2 <= c
            && |DirOf(g, d, g.rootCluster)| == SLOTS_PER_SECTOR * |Lbas(g, cs)|
            && |Lbas(g, cs)| < |Lbas(g, cs + [c])| && Lbas(g, cs + [c])[|Lbas(g, cs)|] == g.ClusterToLba(c)
  {
    hide Raw, Times, OnlyClusters, EntriesOk, SoleOwners, Closed, UniqueNames, SameCluster, ZeroedCluster, DirOf, Find;
    GrownFacts(g, d, d1, lay, c);
    var cs := RootChain(g, lay);
    RootGrownChain(g, d, d1, lay, c);
    RootTable(g, d, lay);
    ChainViews(g, d1, cs + [c]);
    LbasAppend(g, cs, [c]);
    assert Lbas(g, [c]) == Run(g.ClusterToLba(c), g.sectorsPerCluster) + Lbas(g, []);
  }

  lemma ExtensionIsSafe(g: Fat32, d: Disk, d1: Disk, lay: Layout, name: Name)
    requires Wf(g, d, lay) && Unaffected(g, d, d1, lay, 0, None) && ReservedKept(g, d, d1)
    ensures Safe(g, d, d1, name) && AllKept(g, d, d1)
  {
    UnaffectedAll(g, d, d1, lay, name);
  }

  lemma AllKeptTrans(g: Fat32, d: Disk, d1: Disk, d2: Disk)
    requires g.Valid(|d|) && |d| == |d1| == |d2| && AllKept(g, d, d1) && AllKept(g, d1, d2)
    ensures AllKept(g, d, d2)
  {
    hide PathBytes;
    assert forall path :: PathBytes(g, d1, path) == PathBytes(g, d, path);
  }

  lemma SafeKeepsSize(g: Fat32, d: Disk, d': Disk, name: Name)
    requires g.Valid(|d|) && Safe(g, d, d', name)
    ensures |d'| == |d| && g.Valid(|d'|)
  {
  }

  /**
   * Creates or overwrites the root-directory file `name`. It fails only if the card does or if the volume
   * has no room. On success the file reads back as `data` and has as few clusters as that takes; without
   * room every file, this one included, still reads as before; and wherever the card fails between two
   * block writes, every other file, root or nested, still reads as before. Then, too, a file that has no
   * more clusters than it needs leaves the volume well formed, and one that has none yet is either not
   * written at all or complete.
   *
   * The name may also be a directory's, which the driver does not check; then only what stays out of
   * that directory is kept, and the volume is well formed after a success if and only if nothing else
   * led to it.
   */
  method WriteFile(g: Fat32, card: Card, name: Name, data: seq<byte>, ghost lay: Layout)
    returns (r: Result<()>, ghost lay': Layout)
    requires Wf(g, card.disk, lay) && Writable(g, card.disk, name) && |data| < 0x1_0000_0000
    modifies card
    ensures |card.disk| == |old(card.disk)|
    ensures !DirNamed(g, old(card.disk), name) ==> Safe(g, old(card.disk), card.disk, name)
    ensures DirNamed(g, old(card.disk), name) ==>
              SafeAround(g, old(card.disk), card.disk, name, TargetOf(g, old(card.disk), name))
    ensures r.Ok? ==> PathBytes(g, card.disk, [name]) == Some(data) && Allotted(g, card.disk, name, |data|)
    ensures !DirNamed(g, old(card.disk), name) ==>
              (r.Ok? || !Shrinks(g, old(card.disk), name, |data|)) ==> Wf(g, card.disk, lay')
    ensures r.Ok? && Severed(g, old(card.disk), name) ==> Wf(g, card.disk, lay')
    ensures r.Ok? && !Severed(g, old(card.disk), name) ==> forall any :: !Wf(g, card.disk, any)
    ensures HeldBy(g, old(card.disk), name) == 0 ==>
              PathBytes(g, card.disk, [name]) in {PathBytes(g, old(card.disk), [name]), Some(data)}
    ensures !DirNamed(g, old(card.disk), name)
            && 0 < HeldBy(g, old(card.disk), name) && !Shrinks(g, old(card.disk), name, |data|) ==>
              PathBytes(g, card.disk, [name]) == Some(data) || HalfWritten(g, old(card.disk), card.disk, name, data)
    ensures r.Err? ==> r.error in {Sd, NoSpace}
    ensures r == Err(NoSpace) ==> Wf(g, card.disk, lay') && AllKept(g, old(card.disk), card.disk)
    ensures r != Err(Sd) ==> (r.Ok? <==> HasRoom(g, old(card.disk), name, |data|))
    ensures r != Err(Sd) && Mirrored(g, old(card.disk)) ==> Mirrored(g, card.disk)
    ensures card.faults == old(card.faults) + Faulted(r)
  {
    hide OnlyClusters, IsChain, Fat, Raw, Times, Mirrored, EntriesOk, SoleOwners, Closed, UniqueNames, PathBytes, Find,
      Place, Lbas, SpotOf, Safe, SafeAround, AllKept, DirOf, InTable, Scanned, RootGrown, Ready, ReservedKept,
      Unaffected, Wf, RootFull, FreeCount, ClustersFor, FreeSet, HeldBy, Held, ChainsOk, SeveredAt, HalfStored,
      HalfWritten, EnoughClusters, Allotted;
    ghost var d := card.disk;
    WfValid(g, d, lay);
    RoomIff(g, d, name, |data|);
    if !DirNamed(g, d, name) {
      TargetIsNoDir(g, d, lay, name);
      FileSevered(g, d, lay, name, TargetOf(g, d, name));
    }
    LeakIsSafeRefl(g, d, lay, name);
    LastOfRoot(g, d, lay);
    HeldIsShown(g, d, lay, name);
    lay' := lay;
    ghost var k, kf, kr;
    var search;
    search, k, kf, kr := SearchRoot(g, card, name, RootChain(g, lay));
    if search.Err? {
      AroundRefl(g, d, name, TargetOf(g, d, name));
      StoredNothing(g, d, TargetOf(g, d, name), data);
      if TargetOf(g, d, name) != 0 && !DirNamed(g, d, name) {
        HalfStoredReads(g, d, d, name, data);
      }
      return Err(search.error), lay';
    }
    var found, free := search.value.found, search.value.free;
    if found.None? && free.None? && !search.value.ended {
      r, lay' := StoreExtended(g, card, name, data, search.value.last, lay, kf, kr);
    } else if found.Some? {
      FoundIsReady(g, d, lay, name, k, found.value, free, kf, kr);
      r, lay' := StoreAt(g, card, name, data, found.value.spot, found.value.first, kf, lay);
      if found.value.first != 0 && !DirNamed(g, d, name) && HalfStored(g, d, card.disk, found.value.first, data) {
        HalfStoredReads(g, d, card.disk, name, data);
      }
    } else {
      FreeIsReady(g, d, lay, name, k, free.value, kf, kr);
      ZeroIsNoDir(g, d, lay);
      r, lay' := StoreAt(g, card, name, data, free.value, 0, kr, lay);
    }
  }

  /** Room and shrinking in terms of the number of clusters the driver computes. */
  lemma RoomIff(g: Fat32, d: Disk, name: Name, len: nat)
    requires g.Valid(|d|)
    ensures var extra := if Find(DirOf(g, d, g.rootCluster), name).None? && RootFull(g, d) then 1 else 0;
            HasRoom(g, d, name, len) <==> FreeCount(g, d) + HeldBy(g, d, name) >= ClustersFor(g, len) + extra
    ensures Shrinks(g, d, name, len) <==> HeldBy(g, d, name) > ClustersFor(g, len)
  {
    hide FreeCount, HeldBy, ClustersFor, DirOf, Find, RootFull, EnoughClusters;
    var extra := if Find(DirOf(g, d, g.rootCluster), name).None? && RootFull(g, d) then 1 else 0;
    ClustersForIsLeast(g, len, FreeCount(g, d) + HeldBy(g, d, name) - extra);
    ClustersForIsLeast(g, len, HeldBy(g, d, name) - 1);
  }

  /** The branch for a full root directory: one more cluster for it, then the file in its first slot. */
  method StoreExtended(
    g: Fat32, card: Card, name: Name, data: seq<byte>, last: nat, ghost lay: Layout, ghost kf: nat, ghost kr: nat)
    returns (r: Result<()>, ghost lay': Layout)
    requires Wf(g, card.disk, lay) && Writable(g, card.disk, name) && |data| < 0x1_0000_0000
    requires last == RootChain(g, lay)[|RootChain(g, lay)| - 1] && InTable(g, RootChain(g, lay))
    requires var slots := DirOf(g, card.disk, g.rootCluster);
             Scanned(slots, Lbas(g, RootChain(g, lay)), name, |slots|, None, None, kf, kr)
    modifies card
    ensures Find(DirOf(g, old(card.disk), g.rootCluster), name) == None && RootFull(g, old(card.disk))
    ensures |card.disk| == |old(card.disk)| && Safe(g, old(card.disk), card.disk, name) && Wf(g, card.disk, lay')
    ensures r.Ok? ==> PathBytes(g, card.disk, [name]) == Some(data) && Allotted(g, card.disk, name, |data|)
    ensures PathBytes(g, card.disk, [name]) in {PathBytes(g, old(card.disk), [name]), Some(data)}
    ensures r.Err? ==> r.error in {Sd, NoSpace}
    ensures r == Err(NoSpace) ==> AllKept(g, old(card.disk), card.disk)
    ensures r != Err(Sd) ==> (r.Ok? <==> FreeCount(g, old(card.disk)) >= ClustersFor(g, |data|) + 1)
    ensures r != Err(Sd) && Mirrored(g, old(card.disk)) ==> Mirrored(g, card.disk)
    ensures card.faults == old(card.faults) + Faulted(r)
  {
    hide OnlyClusters, IsChain, Fat, Raw, Times, Mirrored, EntriesOk, SoleOwners, Closed, UniqueNames, PathBytes, Find,
      Place, Lbas, SpotOf, Safe, AllKept, DirOf, InTable, Scanned, RootGrown, Ready, ReservedKept, Unaffected, Wf,
      RootFull, FreeCount, ClustersFor, FreeSet, ChainsOk, Writable, Allotted;
    ghost var d := card.disk;
    NewIsFull(g, d, lay, name, kf, kr);
    var c;
    c, lay' := ExtendRoot(g, card, last, lay);
    ghost var d1 := card.disk;
    WfValid(g, d1, lay');
    ExtensionIsSafe(g, d, d1, lay, name);
    AllKeptReads(g, d, d1, name);
    NeedsOne(g, |data|);
    if c.Err? {
      return Err(c.error), lay';
    }
    NewIsReady(g, d, d1, lay, name, c.value, kf, kr);
    r, lay' := StoreAt(g, card, name, data, Spot(g.ClusterToLba(c.value), 0), 0, |DirOf(g, d, g.rootCluster)|, lay');
    SafeTrans(g, d, d1, card.disk, name);
    if r == Err(NoSpace) {
      AllKeptTrans(g, d, d1, card.disk);
    }
  }

  lemma NeedsOne(g: Fat32, len: nat)
    requires g.sectorsPerCluster >= 1
    ensures ClustersFor(g, len) >= 1
  {
  }

  lemma AllKeptReads(g: Fat32, d: Disk, d': Disk, name: Name)
    requires g.Valid(|d|) && |d'| == |d| && AllKept(g, d, d')
    ensures PathBytes(g, d', [name]) == PathBytes(g, d, [name])
  {
  }

  lemma NewIsFull(g: Fat32, d: Disk, lay: Layout, name: Name, kf: nat, kr: nat)
    requires Wf(g, d, lay) && InTable(g, RootChain(g, lay))
    requires var slots := DirOf(g, d, g.rootCluster);
             Scanned(slots, Lbas(g, RootChain(g, lay)), name, |slots|, None, None, kf, kr)
    ensures Find(DirOf(g, d, g.rootCluster), name) == None && RootFull(g, d)
  {
    var slot: Slot := Zeros(SLOT_SIZE);
    PlaceNew(DirOf(g, d, g.rootCluster), [slot], Lbas(g, RootChain(g, lay)), name, kf, kr);
  }

  lemma SafeForRefl(g: Fat32, d: Disk, lay: Layout, name: Name)
    requires Wf(g, d, lay)
    ensures SafeFor(g, d, d, name)
  {
    LeakIsSafeRefl(g, d, lay, name);
    AroundRefl(g, d, name, TargetOf(g, d, name));
  }

  /** What is no directory is writable, and writing it leaves the volume well formed. */
  lemma StorableIsSevered(g: Fat32, d: Disk, lay: Layout, name: Name)
    requires Wf(g, d, lay) && Storable(g, d, name)
    ensures Writable(g, d, name) && !DirNamed(g, d, name) && Severed(g, d, name)
  {
    hide DirOf, Find, Wf, SeveredAt;
    WfValid(g, d, lay);
    StorableIsWritable(g, d, lay, name);
    TargetIsNoDir(g, d, lay, name);
    FileSevered(g, d, lay, name, TargetOf(g, d, name));
  }

  lemma AroundRefl(g: Fat32, d: Disk, name: Name, t: nat)
    requires g.Valid(|d|)
    ensures SafeAround(g, d, d, name, t)
  {
  }

  lemma LeakIsSafeRefl(g: Fat32, d: Disk, lay: Layout, name: Name)
    requires Wf(g, d, lay)
    ensures Safe(g, d, d, name)
  {
  }
}
