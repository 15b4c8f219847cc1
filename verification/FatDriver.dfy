/** The FAT32 driver's operations: table entries, chain allocation, and files in the root directory. */
module FatDriver {
  import opened Bytes
  import opened SdCard
  import opened FatGeometry
  import opened FatChain
  import opened FatDir
  import opened FatVolume

  // ---------- single FAT entries ----------

  method FatEntry(g: Fat32, card: Card, cluster: nat) returns (r: Result<nat>)
    requires g.Valid(|card.disk|) && cluster < g.MaxCluster()
    modifies card`faults
    ensures r.Ok? ==> r.value == Fat(g, card.disk)[cluster]
    ensures r.Ok? ==> g.EntryAddress(0, cluster) + 4 <= 512 * |card.disk|
                      && r.value == CardWord(card.disk, g.EntryAddress(0, cluster)) % 0x1000_0000
    ensures r.Err? ==> r.error == Sd
    ensures card.faults == old(card.faults) + Faulted(r)
  {
    FatLbaInside(g, 0, cluster);
    EntryOnCard(g, card.disk, 0, cluster);
    var sector := card.ReadBlock(g.FatLba(0, cluster));
    if sector.Err? {
      return Err(sector.error);
    }
    var o := g.EntryOffset(cluster);
    return Ok(U32(sector.value[o..o + 4]) % LOW28);
  }

  /** Only the entries for `c` can differ between the two disks, and only in their low 28 bits. */
  ghost predicate OnlyEntry(g: Fat32, d: Disk, d': Disk, c: nat)
    requires g.Valid(|d|)
  {
    && SameOutsideFat(g, d, d')
    && ReservedKept(g, d, d')
    && (forall i, x :: 0 <= i < g.numFats && 0 <= x < g.MaxCluster() && x != c ==> Raw(g, d', i, x) == Raw(g, d, i, x))
  }

  lemma OnlyEntryFat(g: Fat32, d: Disk, d': Disk, c: nat)
    requires g.Valid(|d|) && OnlyEntry(g, d, d', c) && c < g.MaxCluster()
    ensures Fat(g, d') == Fat(g, d)[c := Fat(g, d')[c]]
    ensures forall x :: 2 <= x < g.MaxCluster() ==> SameCluster(g, d, d', x)
    ensures forall touched: set<nat> :: c in touched ==> OnlyClusters(g, d, d', touched)
  {
    forall x | 2 <= x < g.MaxCluster()
      ensures SameCluster(g, d, d', x)
    {
      ClusterSectorsApart(g, x, 0, x, 0);
    }
  }

  /** New low 28 bits under the reserved top bits already on disk. */
  function Merge(value: nat, existing: u32): (entry: u32)
    ensures entry % LOW28 == value % LOW28 && entry / LOW28 == existing / LOW28
  {
    value % LOW28 + existing / LOW28 * LOW28
  }

  lemma EntryMerged(g: Fat32, d: Disk, d1: Disk, d2: Disk, copy: nat, c: nat, value: nat)
    requires g.Valid(|d|) && OnlyEntry(g, d, d1, c) && copy < g.numFats && c < g.MaxCluster()
    requires var b := g.FatLba(copy, c);
             b < |d1| && d2 == d1[b := Patch(d1[b], g.EntryOffset(c), Le32(Merge(value, Raw(g, d1, copy, c))))]
    ensures OnlyEntry(g, d, d2, c) && Raw(g, d2, copy, c) % LOW28 == value % LOW28
    ensures forall i :: 0 <= i < g.numFats && i != copy ==> Raw(g, d2, i, c) == Raw(g, d1, i, c)
  {
    PutEntry(g, d1, d2, copy, c, Merge(value, Raw(g, d1, copy, c)));
  }

  /** On the card, copy `copy`'s word for `c` has the low 28 bits of `value` and the top four it had. */
  ghost predicate EntryIs(g: Fat32, d: Disk, d': Disk, copy: nat, c: nat, value: nat) {
    var a := g.EntryAddress(copy, c);
    && a + 4 <= 512 * |d| && a + 4 <= 512 * |d'|
    && CardWord(d', a) % 0x1000_0000 == value % 0x1000_0000
    && CardWord(d', a) / 0x1000_0000 == CardWord(d, a) / 0x1000_0000
  }

  lemma EntriesAre(g: Fat32, d: Disk, d': Disk, c: nat, value: nat)
    requires g.Valid(|d|) && OnlyEntry(g, d, d', c) && c < g.MaxCluster()
    requires forall i :: 0 <= i < g.numFats ==> Raw(g, d', i, c) % LOW28 == value % LOW28
    ensures forall i :: 0 <= i < g.numFats ==> EntryIs(g, d, d', i, c, value)
  {
    hide CardWord, Raw;
    forall i | 0 <= i < g.numFats
      ensures EntryIs(g, d, d', i, c, value)
    {
      EntryOnCard(g, d, i, c);
      EntryOnCard(g, d', i, c);
    }
  }

  method SetFatEntry(g: Fat32, card: Card, cluster: nat, value: nat) returns (r: Result<()>)
    requires g.Valid(|card.disk|) && cluster < g.MaxCluster()
    modifies card
    ensures |card.disk| == |old(card.disk)|
    ensures OnlyEntry(g, old(card.disk), card.disk, cluster)
    ensures r.Ok? ==> forall i :: 0 <= i < g.numFats ==> Raw(g, card.disk, i, cluster) % LOW28 == value % LOW28
    ensures OnlyWords(g, old(card.disk), card.disk, cluster)
    ensures r.Ok? ==> forall i :: 0 <= i < g.numFats ==> EntryIs(g, old(card.disk), card.disk, i, cluster, value)
    ensures r.Err? ==> r.error == Sd
    ensures r.Err? ==> Fat(g, card.disk)[cluster] in {Fat(g, old(card.disk))[cluster], value % LOW28}
    ensures card.faults == old(card.faults) + Faulted(r)
  {
    var copy := 0;
    while copy < g.numFats
      invariant card.faults == old(card.faults)
      invariant 0 <= copy <= g.numFats
      invariant |card.disk| == |old(card.disk)|
      invariant OnlyEntry(g, old(card.disk), card.disk, cluster)
      invariant OnlyWords(g, old(card.disk), card.disk, cluster)
      invariant forall i :: 0 <= i < copy ==> Raw(g, card.disk, i, cluster) % LOW28 == value % LOW28
      invariant copy == 0 ==> card.disk == old(card.disk)
    {
      FatLbaInside(g, copy, cluster);
      var lba := g.FatLba(copy, cluster);
      var sector := card.ReadBlock(lba);
      if sector.Err? {
        return Err(sector.error);
      }
      var o := g.EntryOffset(cluster);
      var patched := Patch(sector.value, o, Le32(Merge(value, U32(sector.value[o..o + 4]))));
      EntryMerged(g, old(card.disk), card.disk, card.disk[lba := patched], copy, cluster, value);
      OnlyWordsStep(g, old(card.disk), card.disk, card.disk[lba := patched], copy, cluster,
                    Merge(value, U32(sector.value[o..o + 4])));
      r := card.WriteBlock(lba, patched);
      if r.Err? {
        return;
      }
      copy := copy + 1;
    }
    EntriesAre(g, old(card.disk), card.disk, cluster, value);
    return Ok(());
  }

  // ---------- data blocks ----------

  /** Changing nothing below the data area leaves every FAT copy alone. */
  lemma FatBlocksSame(g: Fat32, d: Disk, d': Disk)
    requires g.Valid(|d|) && |d'| == |d|
    requires forall b :: 0 <= b < g.FirstDataSector() ==> d'[b] == d[b]
    ensures forall i, x :: 0 <= i < g.numFats && 0 <= x < g.MaxCluster() ==> Raw(g, d', i, x) == Raw(g, d, i, x)
    ensures Fat(g, d') == Fat(g, d)
    ensures Mirrored(g, d) ==> Mirrored(g, d')
  {
    forall i, x | 0 <= i < g.numFats && 0 <= x < g.MaxCluster()
      ensures Raw(g, d', i, x) == Raw(g, d, i, x)
    {
      FatLbaInside(g, i, x);
    }
  }

  ghost predicate OnlyBlocksOf(g: Fat32, d: Disk, d': Disk, c: nat)
    requires 2 <= c
  {
    && |d'| == |d|
    && forall b :: 0 <= b < |d| && !(g.ClusterToLba(c) <= b < g.ClusterToLba(c) + g.sectorsPerCluster) ==> d'[b] == d[b]
  }

  lemma OtherClusterSame(g: Fat32, d: Disk, d': Disk, c: nat, x: nat)
    requires 2 <= c && 2 <= x && x != c && OnlyBlocksOf(g, d, d', c)
    ensures SameCluster(g, d, d', x)
  {
    ClusterRangesApart(g, c, x);
  }

  lemma OnlyBlocksFrame(g: Fat32, d: Disk, d': Disk, c: nat)
    requires g.Valid(|d|) && 2 <= c < g.MaxCluster() && OnlyBlocksOf(g, d, d', c)
    ensures Fat(g, d') == Fat(g, d)
    ensures Mirrored(g, d) ==> Mirrored(g, d')
    ensures forall x :: 2 <= x < g.MaxCluster() && x != c ==> SameCluster(g, d, d', x)
    ensures forall touched: set<nat> :: c in touched ==> OnlyClusters(g, d, d', touched)
  {
    ClusterPastFat(g, c);
    ClusterInside(g, |d|, c, g.sectorsPerCluster - 1);
    FatBlocksSame(g, d, d');
    assert ReservedKept(g, d, d');
    forall x | 2 <= x < g.MaxCluster() && x != c
      ensures SameCluster(g, d, d', x)
    {
      OtherClusterSame(g, d, d', c, x);
    }
  }

  method ZeroCluster(g: Fat32, card: Card, cluster: nat) returns (r: Result<()>)
    requires g.Valid(|card.disk|) && 2 <= cluster < g.MaxCluster()
    modifies card
    ensures OnlyBlocksOf(g, old(card.disk), card.disk, cluster)
    ensures r.Ok? ==> ZeroedCluster(g, card.disk, cluster)
    ensures r.Err? ==> r.error == Sd
    ensures card.faults == old(card.faults) + Faulted(r)
  {
    var lba := g.ClusterToLba(cluster);
    var s := 0;
    while s < g.sectorsPerCluster
      invariant card.faults == old(card.faults)
      invariant 0 <= s <= g.sectorsPerCluster
      invariant OnlyBlocksOf(g, old(card.disk), card.disk, cluster)
      invariant forall b :: 0 <= b < |card.disk| && lba <= b < lba + s ==> card.disk[b] == ZERO_SECTOR
    {
      ClusterInside(g, |card.disk|, cluster, s);
      r := card.WriteBlock(lba + s, ZERO_SECTOR);
      if r.Err? {
        return;
      }
      s := s + 1;
    }
    return Ok(());
  }

  // ---------- allocation ----------

  /** The first free cluster at or after `start`; NoSpace exactly when there is none. */
  method FindFreeCluster(g: Fat32, card: Card, start: nat) returns (r: Result<nat>)
    requires g.Valid(|card.disk|)
    modifies card`faults
    ensures r.Ok? ==> start <= r.value && r.value in FreeSet(Fat(g, card.disk))
    ensures r.Ok? ==> forall c :: c in FreeSet(Fat(g, card.disk)) && start <= c ==> r.value <= c
    ensures r.Err? ==> r.error in {Sd, NoSpace}
    ensures r == Err(NoSpace) ==> forall c :: c in FreeSet(Fat(g, card.disk)) ==> c < start
    ensures card.faults == old(card.faults) + Faulted(r)
  {
    var cluster := if start > 2 then start else 2;
    while cluster < g.MaxCluster()
      invariant card.faults == old(card.faults)
      invariant start <= cluster && 2 <= cluster
      invariant forall c :: c in FreeSet(Fat(g, card.disk)) && start <= c ==> cluster <= c
    {
      var entry := FatEntry(g, card, cluster);
      if entry.Err? {
        return Err(entry.error);
      }
      if entry.value == 0 {
        return Ok(cluster);
      }
      cluster := cluster + 1;
    }
    return Err(NoSpace);
  }

  /** `cs` are the first free clusters of `d`, all below `from`, taken and zeroed, chained up in `d'`. */
  ghost predicate Taken(g: Fat32, d: Disk, d': Disk, cs: seq<nat>, from: nat)
    requires g.Valid(|d|)
  {
    && OnlyClusters(g, d, d', SetOf(cs))
    && (cs != [] ==> IsChain(Fat(g, d'), cs))
    && SetOf(cs) == (set c | c in FreeSet(Fat(g, d)) && c < from)
    && (forall c :: c in cs && 2 <= c ==> ZeroedCluster(g, d', c))
    && (Mirrored(g, d) ==> Mirrored(g, d'))
  }

  lemma MirroredEntry(g: Fat32, d: Disk, d': Disk, c: nat, value: nat)
    requires g.Valid(|d|) && c < g.MaxCluster() && OnlyEntry(g, d, d', c)
    requires forall i :: 0 <= i < g.numFats ==> Raw(g, d', i, c) % LOW28 == value % LOW28
    ensures Fat(g, d') == Fat(g, d)[c := value % LOW28]
    ensures Mirrored(g, d) ==> Mirrored(g, d')
  {
    OnlyEntryFat(g, d, d', c);
  }

  lemma TakenFree(g: Fat32, d: Disk, d': Disk, cs: seq<nat>, from: nat)
    requires g.Valid(|d|) && Taken(g, d, d', cs, from)
    ensures FreeSet(Fat(g, d')) == FreeSet(Fat(g, d)) - SetOf(cs)
  {
    if cs != [] {
      ChainNotFree(Fat(g, d'), cs);
    }
    forall c | 2 <= c < g.MaxCluster()
      ensures c in FreeSet(Fat(g, d')) <==> c in FreeSet(Fat(g, d)) - SetOf(cs)
    {
      if c !in SetOf(cs) {
        assert Fat(g, d')[c] == Fat(g, d)[c];
      }
    }
  }

  /** Cluster `c` alone was marked end of chain and zeroed. */
  ghost predicate Claimed(g: Fat32, d: Disk, d': Disk, c: nat)
    requires g.Valid(|d|)
  {
    && 2 <= c < g.MaxCluster()
    && OnlyClusters(g, d, d', {c})
    && Fat(g, d')[c] == END_OF_CHAIN && ZeroedCluster(g, d', c)
    && (Mirrored(g, d) ==> Mirrored(g, d'))
  }

  /** The entry for `prev` alone changed, to a link to `c`; no data block changed. */
  ghost predicate LinkedOn(g: Fat32, d: Disk, d': Disk, prev: nat, c: nat)
    requires g.Valid(|d|)
  {
    && prev < g.MaxCluster()
    && OnlyClusters(g, d, d', {prev}) && Fat(g, d')[prev] == c
    && (forall x :: 2 <= x < g.MaxCluster() ==> SameCluster(g, d, d', x))
    && (Mirrored(g, d) ==> Mirrored(g, d'))
  }

  method ClaimCluster(g: Fat32, card: Card, cluster: nat) returns (r: Result<()>)
    requires g.Valid(|card.disk|) && 2 <= cluster < g.MaxCluster()
    modifies card
    ensures OnlyClusters(g, old(card.disk), card.disk, {cluster})
    ensures r.Ok? ==> Claimed(g, old(card.disk), card.disk, cluster)
    ensures r.Err? ==> r.error == Sd
    ensures card.faults == old(card.faults) + Faulted(r)
  {
    r := SetFatEntry(g, card, cluster, END_OF_CHAIN);
    ghost var d := card.disk;
    OnlyEntryFat(g, old(card.disk), d, cluster);
    if r.Ok? {
      MirroredEntry(g, old(card.disk), d, cluster, END_OF_CHAIN);
      r := ZeroCluster(g, card, cluster);
      OnlyBlocksFrame(g, d, card.disk, cluster);
      OnlyClustersTrans(g, old(card.disk), d, card.disk, {cluster});
    }
  }

  method LinkCluster(g: Fat32, card: Card, prev: nat, cluster: nat) returns (r: Result<()>)
    requires g.Valid(|card.disk|) && prev < g.MaxCluster() && cluster < LOW28
    modifies card
    ensures OnlyClusters(g, old(card.disk), card.disk, {prev})
    ensures Fat(g, card.disk)[prev] in {Fat(g, old(card.disk))[prev], cluster}
    ensures forall x :: 2 <= x < g.MaxCluster() ==> SameCluster(g, old(card.disk), card.disk, x)
    ensures r.Ok? ==> LinkedOn(g, old(card.disk), card.disk, prev, cluster)
    ensures r.Err? ==> r.error == Sd
    ensures card.faults == old(card.faults) + Faulted(r)
  {
    r := SetFatEntry(g, card, prev, cluster);
    assert cluster % LOW28 == cluster;
    OnlyEntryFat(g, old(card.disk), card.disk, prev);
    if r.Ok? {
      MirroredEntry(g, old(card.disk), card.disk, prev, cluster);
    }
  }

  lemma TakenZeroed(g: Fat32, d1: Disk, d2: Disk, d3: Disk, cs: seq<nat>, c: nat)
    requires g.Valid(|d1|) && Claimed(g, d1, d2, c)
    requires forall x :: x in cs ==> 2 <= x < g.MaxCluster() && x != c && ZeroedCluster(g, d1, x)
    requires if cs == [] then d3 == d2 else LinkedOn(g, d2, d3, cs[|cs| - 1], c)
    ensures forall x :: x in cs + [c] && 2 <= x ==> ZeroedCluster(g, d3, x)
  {
    hide Fat, ReservedKept, FreeSet;
    forall x | x in cs + [c]
      ensures 2 <= x && ZeroedCluster(g, d3, x)
    {
      assert x != c ==> SameCluster(g, d1, d2, x);
      assert cs != [] ==> SameCluster(g, d2, d3, x);
    }
  }

  lemma TakenChain(g: Fat32, d1: Disk, d2: Disk, d3: Disk, cs: seq<nat>, c: nat)
    requires g.Valid(|d1|) && Claimed(g, d1, d2, c) && c in FreeSet(Fat(g, d1))
    requires cs != [] ==> IsChain(Fat(g, d1), cs) && c !in cs
    requires if cs == [] then d3 == d2 else LinkedOn(g, d2, d3, cs[|cs| - 1], c)
    ensures IsChain(Fat(g, d3), cs + [c])
  {
    if cs != [] {
      GrowChain(Fat(g, d1), Fat(g, d3), cs, c);
    }
  }

  lemma TakenFrame(g: Fat32, d: Disk, d1: Disk, d2: Disk, d3: Disk, cs: seq<nat>, c: nat)
    requires g.Valid(|d|) && OnlyClusters(g, d, d1, SetOf(cs)) && Claimed(g, d1, d2, c)
    requires if cs == [] then d3 == d2 else LinkedOn(g, d2, d3, cs[|cs| - 1], c)
    ensures OnlyClusters(g, d, d3, SetOf(cs + [c]))
    ensures Mirrored(g, d1) ==> Mirrored(g, d3)
  {
    var more := SetOf(cs + [c]);
    assert more == SetOf(cs) + {c};
    OnlyClustersJoin(g, d, d1, d2, SetOf(cs), {c}, more);
    if cs != [] {
      assert cs[|cs| - 1] in SetOf(cs);
      OnlyClustersJoin(g, d, d2, d3, more, {cs[|cs| - 1]}, more);
    }
  }

  lemma TakenSet(free: set<nat>, cs: seq<nat>, from: nat, c: nat)
    requires SetOf(cs) == (set x | x in free && x < from)
    requires c in free - SetOf(cs) && from <= c
    requires forall x :: x in free - SetOf(cs) && from <= x ==> c <= x
    ensures SetOf(cs + [c]) == (set x | x in free && x < c + 1)
  {
    assert SetOf(cs + [c]) == SetOf(cs) + {c};
    forall x | x in free && x < c + 1
      ensures x in SetOf(cs) + {c}
    {
      assert x < from || x in free - SetOf(cs);
    }
  }

  /** Claiming the lowest free cluster and linking the previous one to it takes one more. */
  lemma TakenStep(g: Fat32, d: Disk, d1: Disk, d2: Disk, d3: Disk, cs: seq<nat>, from: nat, c: nat)
    requires g.Valid(|d|) && Taken(g, d, d1, cs, from)
    requires FreeSet(Fat(g, d1)) == FreeSet(Fat(g, d)) - SetOf(cs)
    requires c in FreeSet(Fat(g, d1)) && from <= c && Claimed(g, d1, d2, c)
    requires forall x :: x in FreeSet(Fat(g, d1)) && from <= x ==> c <= x
    requires if cs == [] then d3 == d2 else LinkedOn(g, d2, d3, cs[|cs| - 1], c)
    ensures Taken(g, d, d3, cs + [c], c + 1)
  {
    assert c !in SetOf(cs);
    TakenChain(g, d1, d2, d3, cs, c);
    TakenZeroed(g, d1, d2, d3, cs, c);
    TakenFrame(g, d, d1, d2, d3, cs, c);
    TakenSet(FreeSet(Fat(g, d)), cs, from, c);
  }

  lemma NoneLeft(free: set<nat>, free': set<nat>, cs: seq<nat>, from: nat)
    requires Distinct(cs) && SetOf(cs) == (set c | c in free && c < from)
    requires free' == free - SetOf(cs) && forall c :: c in free' ==> c < from
    ensures |free| == |cs|
  {
    forall c | c in free
      ensures c in SetOf(cs)
    {
      assert c < from || c in free';
    }
    assert free == SetOf(cs);
    DistinctSize(cs);
  }

  lemma FreeInTable(g: Fat32, d: Disk, c: nat)
    requires g.Valid(|d|) && c in FreeSet(Fat(g, d))
    ensures 2 <= c < g.MaxCluster() < LOW28
  {
  }

  lemma TakenFacts(g: Fat32, d: Disk, d': Disk, cs: seq<nat>, from: nat)
    requires g.Valid(|d|) && Taken(g, d, d', cs, from)
    ensures |d'| == |d| && OnlyClusters(g, d, d', SetOf(cs)) && SetOf(cs) <= FreeSet(Fat(g, d))
    ensures Mirrored(g, d) ==> Mirrored(g, d')
    ensures SetOf(cs) == (set c | c in FreeSet(Fat(g, d)) && c < from) && Distinct(cs)
    ensures cs != [] ==> cs[|cs| - 1] in FreeSet(Fat(g, d)) && cs[|cs| - 1] < g.MaxCluster()
  {
    hide ZeroedCluster, ReservedKept, SameCluster, Raw, Mirrored;
    assert cs != [] ==> cs[|cs| - 1] in SetOf(cs);
  }

  /** One round of the allocation loop: find, claim, and link to what was taken before. */
  method TakeOne(g: Fat32, card: Card, ghost d: Disk, ghost cs: seq<nat>, first: nat, prev: nat, searchFrom: nat)
    returns (r: Result<nat>)
    requires g.Valid(|d|) && Taken(g, d, card.disk, cs, searchFrom)
    requires if cs == [] then first == 0 else first != 0 && prev == cs[|cs| - 1]
    modifies card
    ensures |card.disk| == |d| && OnlyClusters(g, d, card.disk, FreeSet(Fat(g, d)))
    ensures r == Err(NoSpace) && Mirrored(g, d) ==> Mirrored(g, card.disk)
    ensures r.Ok? ==> 2 <= r.value < g.MaxCluster() && Taken(g, d, card.disk, cs + [r.value], r.value + 1)
    ensures r.Err? ==> r.error in {Sd, NoSpace}
    ensures r == Err(NoSpace) ==> card.disk == old(card.disk) && |FreeSet(Fat(g, d))| == |cs|
    ensures card.faults == old(card.faults) + Faulted(r)
  {
    hide OnlyClusters, Taken, IsChain, Distinct, SetOf, FreeSet, Fat, Claimed, LinkedOn, SameCluster, Mirrored, Raw,
      Times;
    ghost var d1 := card.disk;
    ghost var free := FreeSet(Fat(g, d));
    TakenFacts(g, d, d1, cs, searchFrom);
    TakenFree(g, d, d1, cs, searchFrom);
    OnlyClustersMono(g, d, d1, SetOf(cs), free);
    r := FindFreeCluster(g, card, searchFrom);
    if r.Err? {
      if r.error == NoSpace {
        NoneLeft(free, FreeSet(Fat(g, d1)), cs, searchFrom);
      }
      return;
    }
    FreeInTable(g, d1, r.value);
    var e := ClaimCluster(g, card, r.value);
    ghost var d2 := card.disk;
    OnlyClustersJoin(g, d, d1, d2, free, {r.value}, free);
    if e.Err? {
      return Err(e.error);
    }
    if first != 0 {
      e := LinkCluster(g, card, prev, r.value);
      OnlyClustersJoin(g, d, d2, card.disk, free, {prev}, free);
      if e.Err? {
        return Err(e.error);
      }
    }
    TakenStep(g, d, d1, d2, card.disk, cs, searchFrom, r.value);
  }

  /**
   * Takes the `count` lowest free clusters and chains them up, zeroed. It runs out of space exactly
   * when fewer are free; whatever happens, no cluster in use is touched.
   */
  method AllocateChain(g: Fat32, card: Card, count: nat) returns (r: Result<nat>, ghost cs: seq<nat>)
    requires g.Valid(|card.disk|)
    modifies card
    ensures |card.disk| == |old(card.disk)|
    ensures OnlyClusters(g, old(card.disk), card.disk, FreeSet(Fat(g, old(card.disk))))
    ensures r.Ok? ==> |cs| == count && (if count == 0 then r.value == 0 else r.value == cs[0])
    ensures r.Ok? ==> exists from :: Taken(g, old(card.disk), card.disk, cs, from)
    ensures r.Err? ==> r.error in {Sd, NoSpace}
    ensures r == Err(NoSpace) ==> |FreeSet(Fat(g, old(card.disk)))| < count
    ensures r == Err(NoSpace) && Mirrored(g, old(card.disk)) ==> Mirrored(g, card.disk)
    ensures card.faults == old(card.faults) + Faulted(r)
  {
    hide OnlyClusters, Taken, Fat, FreeSet, Mirrored;
    ghost var d := card.disk;
    TakenNone(g, d);
    var first, prev, searchFrom := 0, 0, 2;
    var i := 0;
    cs := [];
    while i < count
      invariant card.faults == old(card.faults)
      invariant 0 <= i <= count && |cs| == i && |card.disk| == |d|
      invariant Taken(g, d, card.disk, cs, searchFrom)
      invariant OnlyClusters(g, d, card.disk, FreeSet(Fat(g, d)))
      invariant if cs == [] then first == 0 else first != 0 && first == cs[0] && prev == cs[i - 1]
    {
      var c := TakeOne(g, card, d, cs, first, prev, searchFrom);
      if c.Err? {
        return Err(c.error), cs;
      }
      if first == 0 {
        first := c.value;
      }
      prev := c.value;
      searchFrom := c.value + 1;
      cs := cs + [c.value];
      i := i + 1;
    }
    return Ok(first), cs;
  }

  lemma TakenNone(g: Fat32, d: Disk)
    requires g.Valid(|d|)
    ensures Taken(g, d, d, [], 2) && OnlyClusters(g, d, d, FreeSet(Fat(g, d)))
  {
  }

  // ---------- releasing and resizing ----------

  /** The clusters in `freed` are released; no data block changed. */
  ghost predicate Released(g: Fat32, d: Disk, d': Disk, freed: set<nat>)
    requires g.Valid(|d|)
  {
    && OnlyClusters(g, d, d', freed)
    && (forall c :: c in freed && 0 <= c < g.MaxCluster() ==> Fat(g, d')[c] == 0)
    && (forall x :: 2 <= x < g.MaxCluster() ==> SameCluster(g, d, d', x))
    && (Mirrored(g, d) ==> Mirrored(g, d'))
  }

  lemma SameClusterTrans(g: Fat32, d: Disk, d1: Disk, d2: Disk)
    requires |d1| == |d| && |d2| == |d|
    requires forall x :: 2 <= x < g.MaxCluster() ==> SameCluster(g, d, d1, x)
    requires forall x :: 2 <= x < g.MaxCluster() ==> SameCluster(g, d1, d2, x)
    ensures forall x :: 2 <= x < g.MaxCluster() ==> SameCluster(g, d, d2, x)
  {
    forall x | 2 <= x < g.MaxCluster()
      ensures SameCluster(g, d, d2, x)
    {
      assert SameCluster(g, d, d1, x) && SameCluster(g, d1, d2, x);
    }
  }

  lemma LinkedFat(g: Fat32, d: Disk, d': Disk, prev: nat, c: nat)
    requires g.Valid(|d|) && LinkedOn(g, d, d', prev, c)
    ensures |d'| == |d| && Fat(g, d') == Fat(g, d)[prev := c]
  {
  }

  lemma ReleasedStep(g: Fat32, d: Disk, d1: Disk, d2: Disk, freed: set<nat>, c: nat)
    requires g.Valid(|d|) && Released(g, d, d1, freed) && LinkedOn(g, d1, d2, c, 0)
    ensures Released(g, d, d2, freed + {c})
  {
    hide OnlyClusters, SameCluster, Mirrored;
    OnlyClustersJoin(g, d, d1, d2, freed, {c}, freed + {c});
    LinkedFat(g, d1, d2, c, 0);
    SameClusterTrans(g, d, d1, d2);
  }

  lemma ReleasedNext(g: Fat32, d: Disk, d1: Disk, cs: seq<nat>, i: nat)
    requires g.Valid(|d|) && IsChain(Fat(g, d), cs) && i < |cs| && Released(g, d, d1, SetOf(cs[..i]))
    ensures i + 1 < |cs| ==> Fat(g, d1)[cs[i]] == cs[i + 1]
    ensures i + 1 == |cs| ==> Fat(g, d1)[cs[i]] >= END_OF_CHAIN
    ensures SetOf(cs[..i + 1]) == SetOf(cs[..i]) + {cs[i]}
  {
    assert cs[..i + 1] == cs[..i] + [cs[i]];
    assert cs[i] !in SetOf(cs[..i]);
    if i + 1 < |cs| {
      assert Fat(g, d)[cs[i]] == cs[i + 1];
    }
  }

  /** Releases every cluster of the chain `cs` that starts at `start`. */
  method FreeChainFrom(g: Fat32, card: Card, start: nat, ghost cs: seq<nat>) returns (r: Result<()>)
    requires g.Valid(|card.disk|) && IsChain(Fat(g, card.disk), cs) && cs[0] == start
    modifies card
    ensures OnlyClusters(g, old(card.disk), card.disk, SetOf(cs))
    ensures r.Ok? ==> Released(g, old(card.disk), card.disk, SetOf(cs))
    ensures r.Err? ==> r.error == Sd
    ensures card.faults == old(card.faults) + Faulted(r)
  {
    hide OnlyClusters, Mirrored, LinkedOn, SameCluster;
    ghost var d := card.disk;
    ghost var i := 0;
    var cluster := start;
    FrameRefl(g, d, SetOf(cs));
    assert SetOf(cs[..0]) == {};
    while 2 <= cluster < END_OF_CHAIN
      invariant card.faults == old(card.faults)
      invariant 0 <= i <= |cs|
      invariant if i < |cs| then cluster == cs[i] else cluster >= END_OF_CHAIN
      invariant |card.disk| == |d| && Released(g, d, card.disk, SetOf(cs[..i]))
      invariant OnlyClusters(g, d, card.disk, SetOf(cs))
      decreases |cs| - i
    {
      ghost var d1 := card.disk;
      ReleasedNext(g, d, d1, cs, i);
      var next := FatEntry(g, card, cluster);
      if next.Err? {
        return Err(next.error);
      }
      r := LinkCluster(g, card, cluster, 0);
      assert cs[i] in SetOf(cs);
      OnlyClustersJoin(g, d, d1, card.disk, SetOf(cs), {cluster}, SetOf(cs));
      if r.Err? {
        return;
      }
      ReleasedStep(g, d, d1, card.disk, SetOf(cs[..i]), cluster);
      cluster := next.value;
      i := i + 1;
    }
    assert cs[..|cs|] == cs;
    return Ok(());
  }

  lemma FrameRefl(g: Fat32, d: Disk, touched: set<nat>)
    requires g.Valid(|d|)
    ensures OnlyClusters(g, d, d, touched) && Released(g, d, d, {})
  {
  }

  /** The data in the clusters of `cs` did not change. */
  ghost predicate DataStays(g: Fat32, d: Disk, d': Disk, cs: seq<nat>)
    requires |d'| == |d|
  {
    forall c :: c in cs && 2 <= c < g.MaxCluster() ==> SameCluster(g, d, d', c)
  }

  /** A resize as the disk shows it: the chain's own data kept, nothing outside old and new chain touched. */
  ghost predicate Resized(g: Fat32, d: Disk, d': Disk, cs: seq<nat>, cs': seq<nat>, needed: nat)
    requires g.Valid(|d|)
  {
    && OnlyClusters(g, d, d', SetOf(cs) + SetOf(cs'))
    && ResizedChain(Fat(g, d), Fat(g, d'), cs, cs', needed)
    && DataStays(g, d, d', cs)
    && (Mirrored(g, d) ==> Mirrored(g, d'))
  }

  lemma CutTable(g: Fat32, d: Disk, d1: Disk, d2: Disk, last: nat, tail: set<nat>)
    requires g.Valid(|d|) && last !in tail
    requires Released(g, d, d1, tail) && LinkedOn(g, d1, d2, last, END_OF_CHAIN)
    ensures Truncated(Fat(g, d), Fat(g, d2), last, tail)
  {
    LinkedFat(g, d1, d2, last, END_OF_CHAIN);
  }

  lemma CutResult(g: Fat32, d: Disk, d1: Disk, d2: Disk, cs: seq<nat>, n: nat)
    requires g.Valid(|d|) && IsChain(Fat(g, d), cs) && 0 < n <= |cs|
    requires Released(g, d, d1, SetOf(cs[n..])) && LinkedOn(g, d1, d2, cs[n - 1], END_OF_CHAIN)
    ensures Resized(g, d, d2, cs, cs[..n], n)
  {
    hide OnlyClusters, SameCluster, Mirrored, Fat, IsChain, ResizedChain, SetOf, Raw, Times;
    CutResultTable(g, d, d1, d2, cs, n);
    TailOf(Fat(g, d), cs, n);
    OnlyClustersJoin(g, d, d1, d2, SetOf(cs[n..]), {cs[n - 1]}, SetOf(cs) + SetOf(cs[..n]));
    SameClusterTrans(g, d, d1, d2);
  }

  lemma CutResultTable(g: Fat32, d: Disk, d1: Disk, d2: Disk, cs: seq<nat>, n: nat)
    requires g.Valid(|d|) && IsChain(Fat(g, d), cs) && 0 < n <= |cs|
    requires Released(g, d, d1, SetOf(cs[n..])) && LinkedOn(g, d1, d2, cs[n - 1], END_OF_CHAIN)
    ensures ResizedChain(Fat(g, d), Fat(g, d2), cs, cs[..n], n)
  {
    SplitSets(cs, n);
    assert cs[..n][n - 1] in SetOf(cs[..n]);
    CutTable(g, d, d1, d2, cs[n - 1], SetOf(cs[n..]));
    TruncatedResized(Fat(g, d), Fat(g, d2), cs, n);
  }

  /** What follows the first `n` clusters of a chain. */
  lemma TailOf(fat: seq<nat>, cs: seq<nat>, n: nat)
    requires IsChain(fat, cs) && 1 <= n <= |cs|
    ensures SetOf(cs[n..]) <= SetOf(cs) && cs[n - 1] in SetOf(cs) && 2 <= cs[n - 1] < |fat|
    ensures if n == |cs| then SetOf(cs[n..]) == {} && fat[cs[n - 1]] >= END_OF_CHAIN
            else IsChain(fat, cs[n..]) && fat[cs[n - 1]] == cs[n] && 2 <= cs[n] < |fat|
  {
    if n < |cs| {
      ChainTail(fat, cs, n);
    }
  }

  lemma GrowResult(g: Fat32, d: Disk, d1: Disk, d2: Disk, cs: seq<nat>, more: seq<nat>, from: nat)
    requires g.Valid(|d|) && IsChain(Fat(g, d), cs) && more != [] && Taken(g, d, d1, more, from)
    requires LinkedOn(g, d1, d2, cs[|cs| - 1], more[0])
    ensures Resized(g, d, d2, cs, cs + more, |cs| + |more|)
  {
    hide OnlyClusters, SameCluster, Mirrored, Fat, IsChain, ResizedChain, SetOf, FreeSet, Raw, Times;
    ChainStep(Fat(g, d), cs, 0);
    TailOf(Fat(g, d), cs, |cs|);
    GrowResultTable(g, d, d1, d2, cs, more, from);
    JoinSets(cs, more);
    OnlyClustersJoin(g, d, d1, d2, SetOf(more), {cs[|cs| - 1]}, SetOf(cs) + SetOf(cs + more));
    GrowData(g, d, d1, d2, cs, more);
  }

  lemma GrowResultTable(g: Fat32, d: Disk, d1: Disk, d2: Disk, cs: seq<nat>, more: seq<nat>, from: nat)
    requires g.Valid(|d|) && IsChain(Fat(g, d), cs) && more != [] && Taken(g, d, d1, more, from)
    requires LinkedOn(g, d1, d2, cs[|cs| - 1], more[0])
    ensures ResizedChain(Fat(g, d), Fat(g, d2), cs, cs + more, |cs| + |more|)
    ensures SetOf(more) <= FreeSet(Fat(g, d))
  {
    TakenFree(g, d, d1, more, from);
    LinkedFat(g, d1, d2, cs[|cs| - 1], more[0]);
    GrownResized(Fat(g, d), Fat(g, d1), Fat(g, d2), cs, more);
  }

  lemma GrowData(g: Fat32, d: Disk, d1: Disk, d2: Disk, cs: seq<nat>, more: seq<nat>)
    requires g.Valid(|d|) && IsChain(Fat(g, d), cs)
    requires OnlyClusters(g, d, d1, SetOf(more)) && SetOf(more) <= FreeSet(Fat(g, d)) && |d2| == |d|
    requires forall x :: 2 <= x < g.MaxCluster() ==> SameCluster(g, d1, d2, x)
    ensures forall c :: c in cs && 2 <= c < g.MaxCluster() ==> SameCluster(g, d, d2, c)
  {
    ChainNotFree(Fat(g, d), cs);
    forall c | c in cs && 2 <= c < g.MaxCluster()
      ensures SameCluster(g, d, d2, c)
    {
      assert c in SetOf(cs);
      assert SameCluster(g, d, d1, c) && SameCluster(g, d1, d2, c);
    }
  }

  /** With nothing to release, the new end mark leaves the chain as it was, whether or not it landed. */
  lemma EndStays(g: Fat32, d: Disk, d': Disk, cs: seq<nat>)
    requires g.Valid(|d|) && IsChain(Fat(g, d), cs) && OnlyClusters(g, d, d', {cs[|cs| - 1]}) && |d'| == |d|
    requires Fat(g, d')[cs[|cs| - 1]] in {Fat(g, d)[cs[|cs| - 1]], END_OF_CHAIN}
    requires forall x :: 2 <= x < g.MaxCluster() ==> SameCluster(g, d, d', x)
    ensures StillChain(Fat(g, d), Fat(g, d'), cs, cs) && DataStays(g, d, d', cs)
  {
    StaysChain(Fat(g, d), Fat(g, d'), cs);
  }

  /** Work on free clusters leaves the chain as it was. */
  lemma FreeWorkStays(g: Fat32, d: Disk, d': Disk, cs: seq<nat>)
    requires g.Valid(|d|) && IsChain(Fat(g, d), cs) && OnlyClusters(g, d, d', FreeSet(Fat(g, d))) && |d'| == |d|
    ensures StillChain(Fat(g, d), Fat(g, d'), cs, cs) && DataStays(g, d, d', cs)
  {
    ChainNotFree(Fat(g, d), cs);
    assert cs[|cs| - 1] in SetOf(cs);
    StaysChain(Fat(g, d), Fat(g, d'), cs);
    assert forall c :: c in cs ==> c in SetOf(cs);
  }

  /** Taken clusters are linked on, or not yet: either way the chain starts at its head. */
  lemma LinkStays(g: Fat32, d: Disk, d1: Disk, d2: Disk, cs: seq<nat>, more: seq<nat>, from: nat)
    requires g.Valid(|d|) && IsChain(Fat(g, d), cs) && more != [] && Taken(g, d, d1, more, from)
    requires |d1| == |d| == |d2| && OnlyClusters(g, d1, d2, {cs[|cs| - 1]})
    requires Fat(g, d2)[cs[|cs| - 1]] in {Fat(g, d1)[cs[|cs| - 1]], more[0]}
    ensures StillChain(Fat(g, d), Fat(g, d2), cs, if Fat(g, d2)[cs[|cs| - 1]] == more[0] then cs + more else cs)
  {
    hide SameCluster, ReservedKept, Raw, ZeroedCluster, Times;
    var last := cs[|cs| - 1];
    var fat, fat1, fat2 := Fat(g, d), Fat(g, d1), Fat(g, d2);
    assert SetOf(more) <= FreeSet(fat);
    FreeApart(fat, cs, more);
    ChainKept(fat, fat1, cs);
    assert fat2 == fat1[last := fat2[last]];
    if fat2[last] == more[0] {
      JoinChains(fat1, cs, more);
      JoinSets(cs, more);
    } else {
      assert fat2 == fat1;
    }
  }

  /** The branch that releases everything after the first `count` clusters. */
  method TruncateAt(g: Fat32, card: Card, first: nat, cluster: nat, ghost cs: seq<nat>, ghost count: nat)
    returns (r: Result<nat>)
    requires g.Valid(|card.disk|) && IsChain(Fat(g, card.disk), cs)
    requires 1 <= count <= |cs| && cluster == cs[count - 1]
    modifies card
    ensures |card.disk| == |old(card.disk)|
    ensures OnlyClusters(g, old(card.disk), card.disk, SetOf(cs))
    ensures r.Ok? ==> r.value == first && Resized(g, old(card.disk), card.disk, cs, cs[..count], count)
    ensures count == |cs| ==> StillChain(Fat(g, old(card.disk)), Fat(g, card.disk), cs, cs)
    ensures count == |cs| ==> DataStays(g, old(card.disk), card.disk, cs)
    ensures r.Err? ==> r.error == Sd
    ensures card.faults == old(card.faults) + Faulted(r)
  {
    hide OnlyClusters, Mirrored, LinkedOn, SameCluster, Released, Resized, IsChain;
    ghost var d := card.disk;
    ghost var tail := cs[count..];
    FrameRefl(g, d, SetOf(cs));
    TailOf(Fat(g, d), cs, count);
    FrameRefl(g, d, {});
    FrameRefl(g, d, {cluster});
    if count == |cs| {
      EndStays(g, d, d, cs);
    }
    var next := FatEntry(g, card, cluster);
    if next.Err? {
      return Err(next.error);
    }
    if 2 <= next.value < END_OF_CHAIN {
      var freed := FreeChainFrom(g, card, next.value, tail);
      OnlyClustersMono(g, d, card.disk, SetOf(tail), SetOf(cs));
      if freed.Err? {
        return Err(freed.error);
      }
    }
    ghost var d1 := card.disk;
    var ended := LinkCluster(g, card, cluster, END_OF_CHAIN);
    if count == |cs| {
      EndStays(g, d, card.disk, cs);
    }
    OnlyClustersJoin(g, d, d1, card.disk, SetOf(cs), {cluster}, SetOf(cs));
    if ended.Err? {
      return Err(ended.error);
    }
    CutResult(g, d, d1, card.disk, cs, count);
    return Ok(first);
  }

  /** The branch that allocates `extra` clusters and links them to the end of the chain. */
  method ExtendAt(g: Fat32, card: Card, first: nat, cluster: nat, ghost cs: seq<nat>, extra: nat)
    returns (r: Result<nat>, ghost cs': seq<nat>)
    requires g.Valid(|card.disk|) && IsChain(Fat(g, card.disk), cs) && cluster == cs[|cs| - 1] && extra >= 1
    modifies card
    ensures |card.disk| == |old(card.disk)|
    ensures OnlyClusters(g, old(card.disk), card.disk, FreeSet(Fat(g, old(card.disk))) + SetOf(cs))
    ensures r.Ok? ==> r.value == first && Resized(g, old(card.disk), card.disk, cs, cs', |cs| + extra)
    ensures StillChain(Fat(g, old(card.disk)), Fat(g, card.disk), cs, cs')
    ensures DataStays(g, old(card.disk), card.disk, cs)
    ensures r.Err? ==> r.error in {Sd, NoSpace}
    ensures r == Err(NoSpace) ==>
      && |FreeSet(Fat(g, old(card.disk)))| < extra
      && OnlyClusters(g, old(card.disk), card.disk, FreeSet(Fat(g, old(card.disk))))
      && (Mirrored(g, old(card.disk)) ==> Mirrored(g, card.disk))
    ensures card.faults == old(card.faults) + Faulted(r)
  {
    hide OnlyClusters, Mirrored, LinkedOn, SameCluster, Taken, Resized, IsChain, SetOf, FreeSet, DataStays;
    ghost var d := card.disk;
    ghost var free := FreeSet(Fat(g, d));
    ChainStep(Fat(g, d), cs, 0);
    TailOf(Fat(g, d), cs, |cs|);
    ghost var more;
    var head;
    head, more := AllocateChain(g, card, extra);
    ghost var d1 := card.disk;
    OnlyClustersMono(g, d, d1, free, free + SetOf(cs));
    cs' := cs;
    if head.Err? {
      FreeWorkStays(g, d, d1, cs);
      return Err(head.error), cs';
    }
    FreeWorkStays(g, d, d1, cs);
    ghost var from :| Taken(g, d, d1, more, from);
    TakenHead(g, d, d1, more, from);
    var linked := LinkCluster(g, card, cluster, head.value);
    LinkStays(g, d, d1, card.disk, cs, more, from);
    DataStaysTrans(g, d, d1, card.disk, cs);
    cs' := if Fat(g, card.disk)[cluster] == more[0] then cs + more else cs;
    OnlyClustersJoin(g, d, d1, card.disk, free + SetOf(cs), {cluster}, free + SetOf(cs));
    if linked.Err? {
      return Err(linked.error), cs';
    }
    GrowResult(g, d, d1, card.disk, cs, more, from);
    return Ok(first), cs';
  }

  lemma DataStaysTrans(g: Fat32, d: Disk, d1: Disk, d2: Disk, cs: seq<nat>)
    requires |d| == |d1| == |d2| && DataStays(g, d, d1, cs)
    requires forall x :: 2 <= x < g.MaxCluster() ==> SameCluster(g, d1, d2, x)
    ensures DataStays(g, d, d2, cs)
  {
    forall c | c in cs && 2 <= c < g.MaxCluster()
      ensures SameCluster(g, d, d2, c)
    {
      assert SameCluster(g, d, d1, c) && SameCluster(g, d1, d2, c);
    }
  }

  lemma TakenHead(g: Fat32, d: Disk, d': Disk, cs: seq<nat>, from: nat)
    requires g.Valid(|d|) && Taken(g, d, d', cs, from) && cs != []
    ensures |d'| == |d| && 2 <= cs[0] < g.MaxCluster()
  {
  }

  /** One step along a chain: on to its next cluster, or past an end mark. */
  lemma ChainStep(fat: seq<nat>, cs: seq<nat>, i: nat)
    requires IsChain(fat, cs) && (i == 0 || i < |cs|)
    ensures i < |cs| && 2 <= cs[i] < |fat|
    ensures if i + 1 == |cs| then fat[cs[i]] >= END_OF_CHAIN else fat[cs[i]] == cs[i + 1] && 2 <= cs[i + 1] < |fat|
  {
  }

  /**
   * Makes the chain `cs` starting at `first` exactly `needed` clusters long. Running out of space
   * touches no cluster in use, so the chain and its data are then as before. A chain that is not to
   * shrink leads the chain there is afterwards, data included, in every outcome.
   */
  method ResizeChain(g: Fat32, card: Card, first: nat, needed: nat, ghost cs: seq<nat>)
    returns (r: Result<nat>, ghost cs': seq<nat>)
    requires g.Valid(|card.disk|) && IsChain(Fat(g, card.disk), cs) && cs[0] == first && needed >= 1
    modifies card
    ensures |card.disk| == |old(card.disk)|
    ensures OnlyClusters(g, old(card.disk), card.disk, FreeSet(Fat(g, old(card.disk))) + SetOf(cs))
    ensures r.Ok? ==> r.value == first && Resized(g, old(card.disk), card.disk, cs, cs', needed)
    ensures |cs| <= needed ==> StillChain(Fat(g, old(card.disk)), Fat(g, card.disk), cs, cs')
    ensures |cs| <= needed ==> DataStays(g, old(card.disk), card.disk, cs)
    ensures r.Err? ==> r.error in {Sd, NoSpace}
    ensures r == Err(NoSpace) ==>
      && |FreeSet(Fat(g, old(card.disk)))| + |cs| < needed
      && OnlyClusters(g, old(card.disk), card.disk, FreeSet(Fat(g, old(card.disk))))
      && (Mirrored(g, old(card.disk)) ==> Mirrored(g, card.disk))
    ensures card.faults == old(card.faults) + Faulted(r)
  {
    hide OnlyClusters, Mirrored, Resized, IsChain, SetOf, FreeSet, Fat, Raw, Times, DataStays;
    var cluster := first;
    var count := 1;
    cs' := cs;
    FrameRefl(g, card.disk, FreeSet(Fat(g, card.disk)) + SetOf(cs));
    FrameRefl(g, card.disk, FreeSet(Fat(g, card.disk)));
    FreeWorkStays(g, card.disk, card.disk, cs);
    ChainStep(Fat(g, card.disk), cs, 0);
    while true
      invariant card.faults == old(card.faults)
      invariant cs' == cs && 1 <= count <= |cs| && count <= needed
      invariant cluster == cs[count - 1] && 2 <= cluster < g.MaxCluster()
      invariant card.disk == old(card.disk)
      decreases |cs| - count
    {
      if count == needed {
        r := TruncateAt(g, card, first, cluster, cs, count);
        cs' := cs[..count];
        assert count == |cs| ==> cs' == cs;
        OnlyClustersMono(g, old(card.disk), card.disk, SetOf(cs), FreeSet(Fat(g, old(card.disk))) + SetOf(cs));
        return;
      }
      ChainStep(Fat(g, card.disk), cs, count - 1);
      var next := FatEntry(g, card, cluster);
      if next.Err? {
        return Err(next.error), cs';
      }
      if next.value < 2 || next.value >= END_OF_CHAIN {
        r, cs' := ExtendAt(g, card, first, cluster, cs, needed - count);
        return;
      }
      cluster := next.value;
      count := count + 1;
    }
  }
}
