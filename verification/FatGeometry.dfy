/** Where a FAT32 volume keeps its allocation tables and its clusters on the card. */
module FatGeometry {
  import opened Bytes
  import opened SdCard

  const END_OF_CHAIN := 0x0FFF_FFF8
  const LOW28 := 0x1000_0000
  const ENTRIES_PER_SECTOR := 128 // 4-byte entries in a 512-byte sector

  /** Multiplication as repeated addition, which keeps block arithmetic linear for the verifier. */
  function Times(a: nat, n: nat): nat {
    if a == 0 then 0 else Times(a - 1, n) + n
  }

  lemma {:induction false} TimesIsProduct(a: nat, n: nat)
    ensures Times(a, n) == a * n
  {
    if a > 0 {
      TimesIsProduct(a - 1, n);
      assert (a - 1) * n + n == a * n;
    }
  }

  datatype Fat32 = Fat32(
    partitionStart: nat,
    sectorsPerCluster: nat,
    reservedSectors: nat,
    numFats: nat,
    fatSize: nat,
    rootCluster: nat)
  {
    function FatStart(): nat {
      partitionStart + reservedSectors
    }

    function FirstDataSector(): nat {
      FatStart() + Times(numFats, fatSize)
    }

    function ClusterSizeBytes(): nat {
      sectorsPerCluster * SECTOR_SIZE
    }

    /** One past the largest cluster number the FAT has an entry for. */
    function MaxCluster(): nat {
      fatSize * ENTRIES_PER_SECTOR
    }

    /** The first block after the last cluster the FAT can index. */
    function VolumeEnd(): nat
      requires fatSize >= 1
    {
      FirstDataSector() + Times(MaxCluster() - 2, sectorsPerCluster)
    }

    function ClusterToLba(cluster: nat): nat
      requires cluster >= 2
    {
      FirstDataSector() + Times(cluster - 2, sectorsPerCluster)
    }

    function FatLba(copy: nat, cluster: nat): nat {
      FatStart() + Times(copy, fatSize) + cluster / ENTRIES_PER_SECTOR
    }

    function EntryOffset(cluster: nat): (o: nat)
      ensures o + 4 <= SECTOR_SIZE
    {
      4 * (cluster % ENTRIES_PER_SECTOR)
    }

    /** The byte of the card where copy `copy` keeps its entry for `cluster`. */
    function EntryAddress(copy: nat, cluster: nat): nat {
      512 * (partitionStart + reservedSectors + copy * fatSize) + 4 * cluster
    }

    /** The byte of the card where cluster `cluster` begins. */
    function ClusterAddress(cluster: nat): nat
      requires cluster >= 2
    {
      512 * (partitionStart + reservedSectors + numFats * fatSize + (cluster - 2) * sectorsPerCluster)
    }

    /**
     * What the driver relies on: at least one sector per cluster and one FAT, cluster numbers that
     * cannot be mistaken for an end-of-chain mark, and a card that covers every cluster the FAT can
     * index without overflowing a 32-bit block number.
     */
    predicate Valid(blocks: nat) {
      && 1 <= sectorsPerCluster
      && 1 <= numFats
      && 1 <= fatSize
      && MaxCluster() <= END_OF_CHAIN
      && 2 <= rootCluster < MaxCluster()
      && VolumeEnd() <= blocks <= 0x1_0000_0000
    }
  }

  lemma {:induction false} TimesStep(a: nat, b: nat, n: nat)
    requires a < b
    ensures Times(a, n) + n <= Times(b, n)
  {
    if a + 1 < b {
      TimesStep(a, b - 1, n);
    }
  }

  lemma FatLbaInside(g: Fat32, copy: nat, cluster: nat)
    requires copy < g.numFats && cluster < g.MaxCluster()
    ensures cluster / ENTRIES_PER_SECTOR < g.fatSize
    ensures g.FatStart() <= g.FatLba(copy, cluster) < g.FirstDataSector()
  {
    TimesStep(copy, g.numFats, g.fatSize);
  }

  /** Entries of different FAT copies never share a sector. */
  lemma FatCopiesApart(g: Fat32, copy: nat, cluster: nat, copy': nat, cluster': nat)
    requires copy < copy' < g.numFats
    requires cluster < g.MaxCluster() && cluster' < g.MaxCluster()
    ensures g.FatLba(copy, cluster) < g.FatLba(copy', cluster')
  {
    TimesStep(copy, copy', g.fatSize);
    FatLbaInside(g, copy, cluster);
  }

  lemma ClusterInside(g: Fat32, blocks: nat, cluster: nat, s: nat)
    requires g.Valid(blocks)
    requires 2 <= cluster < g.MaxCluster() && s < g.sectorsPerCluster
    ensures g.FirstDataSector() <= g.ClusterToLba(cluster) + s < g.VolumeEnd() <= blocks
  {
    var n, last := g.sectorsPerCluster, g.MaxCluster() - 2;
    TimesStep(cluster - 2, last, n);
    assert g.ClusterToLba(cluster) + n <= g.VolumeEnd();
  }

  lemma ClusterPastFat(g: Fat32, c: nat)
    requires 2 <= c
    ensures g.FirstDataSector() <= g.ClusterToLba(c)
  {
  }

  lemma ClusterRangesApart(g: Fat32, c: nat, c': nat)
    requires 2 <= c && 2 <= c' && c != c'
    ensures var a, a', n := g.ClusterToLba(c), g.ClusterToLba(c'), g.sectorsPerCluster;
            a + n <= a' || a' + n <= a
  {
    if c < c' {
      TimesStep(c - 2, c' - 2, g.sectorsPerCluster);
    } else {
      TimesStep(c' - 2, c - 2, g.sectorsPerCluster);
    }
  }

  /** Distinct (cluster, sector) pairs live in distinct blocks, all past every FAT copy. */
  lemma ClusterSectorsApart(g: Fat32, c: nat, s: nat, c': nat, s': nat)
    requires 2 <= c && 2 <= c' && s < g.sectorsPerCluster && s' < g.sectorsPerCluster
    ensures g.ClusterToLba(c) + s == g.ClusterToLba(c') + s' ==> c == c' && s == s'
    ensures g.FirstDataSector() <= g.ClusterToLba(c) + s
  {
    if c != c' {
      ClusterRangesApart(g, c, c');
    }
  }

  /** The 32-bit entry FAT copy `copy` holds for `cluster`, reserved top bits included. */
  function Raw(g: Fat32, d: Disk, copy: nat, cluster: nat): u32
    requires g.Valid(|d|) && copy < g.numFats && cluster < g.MaxCluster()
  {
    FatLbaInside(g, copy, cluster);
    ClusterInside(g, |d|, 2, 0);
    var o := g.EntryOffset(cluster);
    U32(d[g.FatLba(copy, cluster)][o..o + 4])
  }

  lemma EntryBlock(g: Fat32, copy: nat, cluster: nat)
    ensures g.EntryAddress(copy, cluster) == 512 * g.FatLba(copy, cluster) + g.EntryOffset(cluster)
  {
    TimesIsProduct(copy, g.fatSize);
  }

  lemma ClusterBlock(g: Fat32, cluster: nat)
    requires cluster >= 2
    ensures g.ClusterAddress(cluster) == 512 * g.ClusterToLba(cluster)
  {
    TimesIsProduct(g.numFats, g.fatSize);
    TimesIsProduct(cluster - 2, g.sectorsPerCluster);
  }

  /** Where the FAT entries are on the card, and what readers take from them. */
  lemma EntryOnCard(g: Fat32, d: Disk, copy: nat, c: nat)
    requires g.Valid(|d|) && copy < g.numFats && c < g.MaxCluster()
    ensures g.EntryAddress(copy, c) + 4 <= 512 * |d| && Raw(g, d, copy, c) == CardWord(d, g.EntryAddress(copy, c))
    ensures copy == 0 ==> Fat(g, d)[c] == CardWord(d, g.EntryAddress(0, c)) % 0x1000_0000
  {
    hide CardWord;
    EntryBlock(g, copy, c);
    FatLbaInside(g, copy, c);
    ClusterInside(g, |d|, 2, 0);
    WordOfBlock(d, g.FatLba(copy, c), g.EntryOffset(c));
  }

  /** Where a cluster's bytes are on the card. */
  lemma ClusterOnCard(g: Fat32, d: Disk, c: nat, s: nat, o: nat)
    requires g.Valid(|d|) && 2 <= c < g.MaxCluster() && s < g.sectorsPerCluster && o < 512
    ensures g.ClusterToLba(c) + s < |d| && g.ClusterAddress(c) + 512 * s + o < 512 * |d|
    ensures CardByte(d, g.ClusterAddress(c) + 512 * s + o) == d[g.ClusterToLba(c) + s][o]
  {
    ClusterBlock(g, c);
    ClusterInside(g, |d|, c, s);
    ByteOfBlock(d, g.ClusterToLba(c) + s, o);
  }

  /** The volume ends with its last cluster. */
  lemma VolumeEndIs(g: Fat32)
    requires g.fatSize >= 1
    ensures 512 * g.VolumeEnd() == g.ClusterAddress(128 * g.fatSize - 1) + 512 * g.sectorsPerCluster
  {
    ClusterBlock(g, g.MaxCluster() - 1);
  }

  /** The byte `a` is in none of the words the FAT copies keep for `c`. */
  ghost predicate OffEntries(g: Fat32, c: nat, a: nat) {
    forall i :: 0 <= i < g.numFats ==> a < g.EntryAddress(i, c) || g.EntryAddress(i, c) + 4 <= a
  }

  /** No byte of the card changed outside the words the FAT copies keep for `c`. */
  ghost predicate OnlyWords(g: Fat32, d: Disk, d': Disk, c: nat) {
    |d'| == |d| && forall a :: 0 <= a < 512 * |d| && OffEntries(g, c, a) ==> CardByte(d', a) == CardByte(d, a)
  }

  lemma OnlyWordsStep(g: Fat32, d: Disk, d1: Disk, d2: Disk, copy: nat, c: nat, v: u32)
    requires g.Valid(|d|) && OnlyWords(g, d, d1, c) && copy < g.numFats && c < g.MaxCluster()
    requires var b := g.FatLba(copy, c);
             b < |d1| && d2 == d1[b := Patch(d1[b], g.EntryOffset(c), Le32(v))]
    ensures OnlyWords(g, d, d2, c)
  {
    EntryBlock(g, copy, c);
    forall a | 0 <= a < 512 * |d| && OffEntries(g, c, a)
      ensures CardByte(d2, a) == CardByte(d, a)
    {
      PatchedBlock(d1, g.FatLba(copy, c), g.EntryOffset(c), Le32(v), a);
    }
  }

  /** The FAT as readers see it: copy 0, low 28 bits. */
  function Fat(g: Fat32, d: Disk): (f: seq<nat>)
    requires g.Valid(|d|)
    ensures |f| == g.MaxCluster()
    ensures forall c :: 0 <= c < |f| ==> f[c] == Raw(g, d, 0, c) % LOW28
  {
    seq(g.MaxCluster(), c requires 0 <= c < g.MaxCluster() => Raw(g, d, 0, c) % LOW28)
  }

  /** Every FAT copy carries the same 28-bit entries. */
  ghost predicate Mirrored(g: Fat32, d: Disk)
    requires g.Valid(|d|)
  {
    forall i, c :: 0 <= i < g.numFats && 0 <= c < g.MaxCluster() ==>
      Raw(g, d, i, c) % LOW28 == Raw(g, d, 0, c) % LOW28
  }

  /**
   * What no operation changes: the blocks before the first FAT copy, boot sector and all, those past the
   * last cluster, and the reserved top four bits of every entry of every copy.
   */
  ghost predicate ReservedKept(g: Fat32, d: Disk, d': Disk)
    requires g.Valid(|d|) && |d'| == |d|
  {
    && (forall b :: 0 <= b < |d| && (b < g.partitionStart + g.reservedSectors || g.VolumeEnd() <= b) ==> d'[b] == d[b])
    && (forall i, c :: 0 <= i < g.numFats && 0 <= c < g.MaxCluster() ==>
          Raw(g, d', i, c) / LOW28 == Raw(g, d, i, c) / LOW28)
  }

  /** The blocks outside the FAT copies. */
  ghost predicate SameOutsideFat(g: Fat32, d: Disk, d': Disk) {
    && |d'| == |d|
    && forall b :: 0 <= b < |d| && !(g.FatStart() <= b < g.FirstDataSector()) ==> d'[b] == d[b]
  }

  lemma PatchedEntry(s: Sector, slot: nat, v: u32, slot': nat)
    requires slot < ENTRIES_PER_SECTOR && slot' < ENTRIES_PER_SECTOR
    ensures U32(Patch(s, 4 * slot, Le32(v))[4 * slot'..4 * slot' + 4])
         == if slot == slot' then v else U32(s[4 * slot'..4 * slot' + 4])
  {
    var s' := Patch(s, 4 * slot, Le32(v));
    if slot == slot' {
      Le32RoundTrip(v);
    } else {
      assert s'[4 * slot'..4 * slot' + 4] == s[4 * slot'..4 * slot' + 4];
    }
  }

  /** Rewriting one entry of one copy changes that entry alone, and nothing outside the FAT. */
  lemma PutEntry(g: Fat32, d: Disk, d': Disk, copy: nat, c: nat, v: u32)
    requires g.Valid(|d|) && copy < g.numFats && c < g.MaxCluster()
    requires var b := g.FatLba(copy, c);
             b < |d| && d' == d[b := Patch(d[b], g.EntryOffset(c), Le32(v))]
    ensures |d'| == |d| && Raw(g, d', copy, c) == v
    ensures forall i, x :: 0 <= i < g.numFats && 0 <= x < g.MaxCluster() && !(i == copy && x == c) ==>
              Raw(g, d', i, x) == Raw(g, d, i, x)
    ensures SameOutsideFat(g, d, d')
  {
    FatLbaInside(g, copy, c);
    ClusterInside(g, |d|, 2, 0);
    var b := g.FatLba(copy, c);
    PatchedEntry(d[b], c % ENTRIES_PER_SECTOR, v, c % ENTRIES_PER_SECTOR);
    forall i, x | 0 <= i < g.numFats && 0 <= x < g.MaxCluster() && !(i == copy && x == c)
      ensures Raw(g, d', i, x) == Raw(g, d, i, x)
    {
      FatLbaInside(g, i, x);
      if i < copy {
        FatCopiesApart(g, i, x, copy, c);
      } else if copy < i {
        FatCopiesApart(g, copy, c, i, x);
      } else if x / ENTRIES_PER_SECTOR == c / ENTRIES_PER_SECTOR {
        PatchedEntry(d[b], c % ENTRIES_PER_SECTOR, v, x % ENTRIES_PER_SECTOR);
      }
    }
  }

  /** Writing a data block leaves every FAT entry alone. */
  lemma PutData(g: Fat32, d: Disk, d': Disk, lba: nat, s: Sector)
    requires g.Valid(|d|) && g.FirstDataSector() <= lba < |d| && d' == d[lba := s]
    ensures forall i, x :: 0 <= i < g.numFats && 0 <= x < g.MaxCluster() ==>
              Raw(g, d', i, x) == Raw(g, d, i, x)
    ensures Fat(g, d') == Fat(g, d)
  {
    forall i, x | 0 <= i < g.numFats && 0 <= x < g.MaxCluster()
      ensures Raw(g, d', i, x) == Raw(g, d, i, x)
    {
      FatLbaInside(g, i, x);
    }
  }
}
