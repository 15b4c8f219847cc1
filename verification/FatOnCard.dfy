/**
 * What a file is on the card, byte for byte: any FAT32 reader finds the files this driver wrote, and this
 * driver reads exactly the files such a reader would find.
 */
module FatOnCard {
  import opened Bytes
  import opened SdCard
  import opened Options
  import opened FatGeometry
  import opened FatChain
  import opened FatDir
  import opened FatVolume
  import opened FatReader

  // ---------- chains ----------

  /** The low 28 bits of the first FAT copy's word for `c`. */
  function Link(g: Fat32, d: Disk, c: nat): nat
    requires g.Valid(|d|) && c < 128 * g.fatSize
  {
    EntryOnCard(g, d, 0, c);
    CardWord(d, g.EntryAddress(0, c)) % 0x1000_0000
  }

  /** Clusters linked to one another by the words of the first FAT copy, up to an end mark. */
  ghost predicate Linked(g: Fat32, d: Disk, cs: seq<nat>)
    requires g.Valid(|d|)
  {
    && cs != []
    && (forall i :: 0 <= i < |cs| ==> 2 <= cs[i] < 128 * g.fatSize)
    && (forall i, j :: 0 <= i < j < |cs| ==> cs[i] != cs[j])
    && (forall i :: 0 <= i < |cs| - 1 ==> Link(g, d, cs[i]) == cs[i + 1])
    && Link(g, d, cs[|cs| - 1]) >= 0x0FFF_FFF8
  }

  /** The chains the driver follows are the chains on the card. */
  lemma {:induction false} ChainOnCard(g: Fat32, d: Disk, cs: seq<nat>)
    requires g.Valid(|d|)
    ensures IsChain(Fat(g, d), cs) <==> Linked(g, d, cs)
  {
    hide CardWord, Raw;
    forall c | 0 <= c < g.MaxCluster()
      ensures Fat(g, d)[c] == Link(g, d, c)
    {
      EntryOnCard(g, d, 0, c);
    }
    if Linked(g, d, cs) {
      forall i, j | 0 <= i && j == i + 1 && j < |cs|
        ensures Fat(g, d)[cs[i]] == cs[j]
      {
        assert Link(g, d, cs[i]) == cs[i + 1];
      }
    }
  }

  /** And the free clusters are those whose word there is zero. */
  lemma {:induction false} FreeOnCard(g: Fat32, d: Disk, c: nat)
    requires g.Valid(|d|)
    ensures c in FreeSet(Fat(g, d)) <==> 2 <= c < 128 * g.fatSize && Link(g, d, c) == 0
  {
    hide CardWord, Raw;
    if 2 <= c < 128 * g.fatSize {
      EntryOnCard(g, d, 0, c);
    }
  }

  // ---------- their bytes ----------

  lemma {:induction false} LbaOf(g: Fat32, cs: seq<nat>, p: nat, s: nat)
    requires InTable(g, cs) && p < |cs| && s < g.sectorsPerCluster
    ensures var j := Times(p, g.sectorsPerCluster) + s;
            j < |Lbas(g, cs)| && Lbas(g, cs)[j] == g.ClusterToLba(cs[p]) + s
  {
    if p > 0 {
      LbaOf(g, cs[1..], p - 1, s);
    }
  }

  /** Byte `k` of the `i`-th piece of `n` bytes. */
  function Offset(n: nat, i: nat, k: nat): nat {
    i * n + k
  }

  /** Byte `x` of `b` is the card's byte `a`. */
  ghost predicate ByteThere(d: Disk, a: nat, b: seq<byte>, x: nat) {
    x < |b| && a < 512 * |d| && b[x] == CardByte(d, a)
  }

  /** Byte `k` of the chain's `p`-th cluster is there on the card. */
  lemma {:induction false} ContentOnCard(g: Fat32, d: Disk, cs: seq<nat>, p: nat, k: nat)
    requires g.Valid(|d|) && Linked(g, d, cs) && p < |cs| && k < 512 * g.sectorsPerCluster
    ensures ByteThere(d, g.ClusterAddress(cs[p]) + k, ChainBytes(g, d, cs[0]), Offset(512 * g.sectorsPerCluster, p, k))
  {
    hide Linked, IsChain, Fat, Raw, Content, Lbas, ChainBytes, CardByte, Times;
    ChainOnCard(g, d, cs);
    ChainViews(g, d, cs);
    var s, o := k / 512, k % 512;
    var lbas, j := Lbas(g, cs), Times(p, g.sectorsPerCluster) + s;
    LbaOf(g, cs, p, s);
    var x := 512 * j + o;
    ContentByte(d, lbas, x);
    ClusterOnCard(g, d, cs[p], s, o);
    TimesIsProduct(p, g.sectorsPerCluster);
    FlatIndex(p, g.sectorsPerCluster, k);
  }

  lemma FlatIndex(p: nat, n: nat, k: nat)
    ensures p * (512 * n) + k == 512 * (p * n + k / 512) + k % 512
  {
  }

  lemma {:induction false} ChainBytesSize(g: Fat32, d: Disk, cs: seq<nat>)
    requires g.Valid(|d|) && Linked(g, d, cs)
    ensures |ChainBytes(g, d, cs[0])| == |cs| * (512 * g.sectorsPerCluster)
  {
    hide Linked, IsChain, Fat, Raw, Content, Lbas, ChainBytes, Times;
    ChainOnCard(g, d, cs);
    ChainViews(g, d, cs);
    LbasSize(g, cs);
    TimesIsProduct(|cs|, g.sectorsPerCluster);
    Regroup(|cs|, 512, g.sectorsPerCluster);
  }

  // ---------- directory entries ----------

  /** What the bytes of a slot mean, as everything here takes them. */
  lemma SlotFields(s: Slot)
    ensures Live(s) <==> s[0] != 0x00 && s[0] != 0xE5 && s[11] != 0x0F && s[11] / 8 % 2 == 0
    ensures IsDir(s) <==> s[11] / 16 % 2 == 1
    ensures forall i :: 0 <= i < 11 ==> NameOf(s)[i] == s[i]
    ensures FirstOf(s) == s[26] as int + 0x100 * s[27] as int + 0x1_0000 * s[20] as int + 0x100_0000 * s[21] as int
    ensures SizeOf(s) == s[28] as int + 0x100 * s[29] as int + 0x1_0000 * s[30] as int + 0x100_0000 * s[31] as int
  {
  }

  lemma SlotIndex(n: nat, p: nat, q: nat)
    ensures var k := p * (16 * n) + q; k / 16 == p * n + q / 16 && k % 16 == q % 16
  {
    assert p * (16 * n) + q == 16 * (p * n + q / 16) + q % 16;
  }

  lemma SlotInside(n: nat, p: nat, q: nat, len: nat)
    requires p < len && q < 16 * n
    ensures p * (16 * n) + q < 16 * (len * n)
  {
    TimesIsProduct(p, n);
    TimesIsProduct(len, n);
    TimesStep(p, len, n);
    assert p * (16 * n) == 16 * (p * n);
  }

  /** Slot `q` of the `p`-th cluster of a directory is there on the card. */
  lemma {:induction false} SlotOnCard(g: Fat32, d: Disk, rc: seq<nat>, p: nat, q: nat)
    requires g.Valid(|d|) && Linked(g, d, rc) && p < |rc| && q < 16 * g.sectorsPerCluster
    ensures var k, a := Offset(16 * g.sectorsPerCluster, p, q), g.ClusterAddress(rc[p]) + 32 * q;
            && k < |DirOf(g, d, rc[0])| && a + 32 <= 512 * |d|
            && forall o :: 0 <= o < 32 ==> DirOf(g, d, rc[0])[k][o] == CardByte(d, a + o)
  {
    hide Linked, IsChain, Fat, Raw, Lbas, CardByte, Times;
    ChainOnCard(g, d, rc);
    ChainViews(g, d, rc);
    var n := g.sectorsPerCluster;
    var k, lbas, s := p * (16 * n) + q, Lbas(g, rc), q / 16;
    LbasSize(g, rc);
    TimesIsProduct(|rc|, n);
    TimesIsProduct(p, n);
    SlotIndex(n, p, q);
    SlotInside(n, p, q, |rc|);
    LbaOf(g, rc, p, s);
    ClusterOnCard(g, d, rc[p], s, 32 * (q % 16) + 31);
    forall o | 0 <= o < 32
      ensures DirOf(g, d, rc[0])[k][o] == CardByte(d, g.ClusterAddress(rc[p]) + 32 * q + o)
    {
      ClusterOnCard(g, d, rc[p], s, 32 * (q % 16) + o);
    }
  }

  /** Byte `o` of that slot. */
  ghost function EntryByte(g: Fat32, d: Disk, rc: seq<nat>, p: nat, q: nat, o: nat): byte
    requires g.Valid(|d|) && Linked(g, d, rc) && p < |rc| && q < 16 * g.sectorsPerCluster && o < 32
  {
    SlotOnCard(g, d, rc, p, q);
    CardByte(d, g.ClusterAddress(rc[p]) + 32 * q + o)
  }

  /** Byte `k` of the `i`-th cluster of a file. */
  ghost function DataByte(g: Fat32, d: Disk, cs: seq<nat>, i: nat, k: nat): byte
    requires g.Valid(|d|) && Linked(g, d, cs) && i < |cs| && k < 512 * g.sectorsPerCluster
  {
    ContentOnCard(g, d, cs, i, k);
    CardByte(d, g.ClusterAddress(cs[i]) + k)
  }

  // ---------- files ----------

  /** Where a file's entry and data are: the root's clusters, the slot in them, and the file's clusters. */
  datatype Place = Place(root: seq<nat>, p: nat, q: nat, first: nat, size: nat, clusters: seq<nat>)

  /** No slot before this one is the never-used one that ends a directory. */
  ghost predicate UsedUpTo(g: Fat32, d: Disk, root: seq<nat>, p: nat, q: nat)
    requires g.Valid(|d|) && Linked(g, d, root) && p < |root|
  {
    forall p', q' :: 0 <= p' <= p && 0 <= q' < 16 * g.sectorsPerCluster && (p' < p || q' < q) ==>
      EntryByte(g, d, root, p', q', 0) != 0x00
  }

  /** The slot carries a plain file's entry: its name, first cluster and size. */
  ghost predicate EntryThere(g: Fat32, d: Disk, name: Name, at: Place)
    requires g.Valid(|d|)
  {
    && Linked(g, d, at.root) && at.root[0] == g.rootCluster
    && at.p < |at.root| && at.q < 16 * g.sectorsPerCluster
    && UsedUpTo(g, d, at.root, at.p, at.q)
    && var e := (o: int) requires 0 <= o < 32 => EntryByte(g, d, at.root, at.p, at.q, o) as int;
    && (forall o :: 0 <= o < 11 ==> EntryByte(g, d, at.root, at.p, at.q, o) == name[o])
    && name[0] != 0x00 && name[0] != 0xE5 && e(11) != 0x0F && e(11) / 8 % 2 == 0 && e(11) / 16 % 2 == 0
    && at.first == e(26) + 0x100 * e(27) + 0x1_0000 * e(20) + 0x100_0000 * e(21)
    && at.size == e(28) + 0x100 * e(29) + 0x1_0000 * e(30) + 0x100_0000 * e(31)
  }

  /** The bytes of the file's clusters, as many as its size says, are `content`. */
  ghost predicate DataThere(g: Fat32, d: Disk, content: seq<byte>, at: Place)
    requires g.Valid(|d|)
  {
    if at.first == 0 then content == []
    else
      && Linked(g, d, at.clusters) && at.clusters[0] == at.first
      && |content| == Min(at.size, |at.clusters| * (512 * g.sectorsPerCluster))
      && forall i, k :: 0 <= i < |at.clusters| && 0 <= k < 512 * g.sectorsPerCluster ==>
           Offset(512 * g.sectorsPerCluster, i, k) < |content| ==>
             content[Offset(512 * g.sectorsPerCluster, i, k)] == DataByte(g, d, at.clusters, i, k)
  }

  lemma {:induction false} DataByteIs(g: Fat32, d: Disk, cs: seq<nat>, i: nat, k: nat)
    requires g.Valid(|d|) && Linked(g, d, cs) && i < |cs| && k < 512 * g.sectorsPerCluster
    ensures var x, b := Offset(512 * g.sectorsPerCluster, i, k), ChainBytes(g, d, cs[0]);
            x < |b| && b[x] == DataByte(g, d, cs, i, k)
  {
    hide Linked, ChainBytes, CardByte;
    ContentOnCard(g, d, cs, i, k);
  }

  lemma {:induction false} DataThereIs(g: Fat32, d: Disk, content: seq<byte>, at: Place)
    requires g.Valid(|d|) && (at.first != 0 ==> Linked(g, d, at.clusters) && at.clusters[0] == at.first)
    ensures DataThere(g, d, content, at) <==> content == FileBytes(g, d, at.first, at.size)
  {
    hide Linked, ChainBytes, DataByte, Offset;
    if at.first != 0 {
      var cs, n := at.clusters, 512 * g.sectorsPerCluster;
      var b := ChainBytes(g, d, at.first);
      ChainBytesSize(g, d, cs);
      forall i, k | 0 <= i < |cs| && 0 <= k < n
        ensures Offset(n, i, k) < |b| && b[Offset(n, i, k)] == DataByte(g, d, cs, i, k)
      {
        DataByteIs(g, d, cs, i, k);
      }
      if DataThere(g, d, content, at) {
        forall x | 0 <= x < |content|
          ensures content[x] == b[x]
        {
          var i, k := Position(x, n, |cs|);
          assert b[Offset(n, i, k)] == DataByte(g, d, cs, i, k);
        }
      }
    }
  }

  lemma Position(x: nat, n: nat, len: nat) returns (i: nat, k: nat)
    requires n > 0 && x < len * n
    ensures i < len && k < n && x == i * n + k == Offset(n, i, k)
  {
    i, k := x / n, x % n;
    if i >= len {
      TimesIsProduct(i, n);
      TimesIsProduct(len, n);
      if i > len {
        TimesStep(len, i, n);
      }
      assert false;
    }
  }

  lemma SlotOrder(n: nat, p: nat, q: nat, p': nat, q': nat)
    requires q < n && q' < n
    ensures p * n + q < p' * n + q' <==> p < p' || (p == p' && q < q')
  {
    TimesIsProduct(p, n);
    TimesIsProduct(p', n);
    if p < p' {
      TimesStep(p, p', n);
    } else if p' < p {
      TimesStep(p', p, n);
    }
  }

  /** The slot in question, as the directory lists it. */
  lemma {:induction false} EntrySlot(g: Fat32, d: Disk, rc: seq<nat>, p: nat, q: nat)
    requires g.Valid(|d|) && Linked(g, d, rc) && p < |rc| && q < 16 * g.sectorsPerCluster
    ensures var slots, k := DirOf(g, d, rc[0]), Offset(16 * g.sectorsPerCluster, p, q);
            k < |slots| && forall o :: 0 <= o < 32 ==> slots[k][o] == EntryByte(g, d, rc, p, q, o)
  {
    hide Linked, CardByte, DirOf;
    SlotOnCard(g, d, rc, p, q);
  }

  lemma NameIs(s: Slot, name: Name)
    requires forall i :: 0 <= i < 11 ==> s[i] == name[i]
    ensures NameOf(s) == name
  {
  }

  lemma {:induction false} FindUnique(slots: seq<Slot>, name: Name, k: nat)
    requires UniqueNames(slots) && LiveAt(slots, k) && NameOf(slots[k]) == name
    ensures Find(slots, name) == Some(slots[k])
  {
    hide Live, NameOf;
    FindHit(slots, name, k);
  }

  lemma {:induction false} EntryThereLive(g: Fat32, d: Disk, name: Name, at: Place) returns (k: nat)
    requires g.Valid(|d|) && EntryThere(g, d, name, at)
    ensures var slots := DirOf(g, d, g.rootCluster);
            && LiveAt(slots, k) && NameOf(slots[k]) == name && !IsDir(slots[k])
            && FirstOf(slots[k]) == at.first && SizeOf(slots[k]) == at.size
  {
    hide Linked, DirOf, EntryByte, Live, IsDir, FirstOf, SizeOf, NameOf;
    var slots := DirOf(g, d, g.rootCluster);
    k := at.p * (16 * g.sectorsPerCluster) + at.q;
    EntrySlot(g, d, at.root, at.p, at.q);
    SlotFields(slots[k]);
    NameIs(slots[k], name);
    forall j | 0 <= j < k
      ensures slots[j][0] != 0
    {
      EarlierSlot(g, d, name, at, j);
    }
  }

  lemma {:induction false} EarlierSlot(g: Fat32, d: Disk, name: Name, at: Place, j: nat)
    requires g.Valid(|d|) && EntryThere(g, d, name, at) && j < at.p * (16 * g.sectorsPerCluster) + at.q
    ensures j < |DirOf(g, d, g.rootCluster)| && DirOf(g, d, g.rootCluster)[j][0] != 0
  {
    hide Linked, DirOf, EntryByte;
    var n := 16 * g.sectorsPerCluster;
    assert at.p * n + at.q < (at.p + 1) * n;
    var p, q := Position(j, n, at.p + 1);
    SlotOrder(n, p, q, at.p, at.q);
    EntrySlot(g, d, at.root, p, q);
  }

  /** Such an entry is the one the driver finds. */
  lemma {:induction false} EntryThereFound(g: Fat32, d: Disk, lay: Layout, name: Name, at: Place)
    requires Wf(g, d, lay) && EntryThere(g, d, name, at)
    ensures var e := Find(DirOf(g, d, g.rootCluster), name);
            e.Some? && !IsDir(e.value) && FirstOf(e.value) == at.first && SizeOf(e.value) == at.size
  {
    hide EntryThere, DirOf, Find, ChainsOk, EntriesOk, SoleOwners, Live, IsDir, FirstOf, SizeOf, NameOf, Fat,
      UniqueNames;
    var k := EntryThereLive(g, d, name, at);
    FindUnique(DirOf(g, d, g.rootCluster), name, k);
  }

  lemma {:induction false} LiveUpTo(g: Fat32, d: Disk, rc: seq<nat>, p: nat, q: nat)
    requires g.Valid(|d|) && Linked(g, d, rc) && rc[0] == g.rootCluster && p < |rc| && q < 16 * g.sectorsPerCluster
    requires LiveAt(DirOf(g, d, g.rootCluster), p * (16 * g.sectorsPerCluster) + q)
    ensures UsedUpTo(g, d, rc, p, q)
  {
    hide Linked, DirOf, EntryByte, Live;
    forall p', q' | 0 <= p' <= p && 0 <= q' < 16 * g.sectorsPerCluster && (p' < p || q' < q)
      ensures EntryByte(g, d, rc, p', q', 0) != 0x00
    {
      EntrySlot(g, d, rc, p', q');
      SlotOrder(16 * g.sectorsPerCluster, p', q', p, q);
    }
  }

  /** A live slot with nothing unused before it is there as an entry. */
  lemma {:induction false} SlotThere(g: Fat32, d: Disk, rc: seq<nat>, k: nat, cs: seq<nat>) returns (at: Place)
    requires g.Valid(|d|) && Linked(g, d, rc) && rc[0] == g.rootCluster
    requires var slots := DirOf(g, d, g.rootCluster); LiveAt(slots, k) && !IsDir(slots[k])
    ensures var s := DirOf(g, d, g.rootCluster)[k];
            && EntryThere(g, d, NameOf(s), at)
            && at.first == FirstOf(s) && at.size == SizeOf(s) && at.clusters == cs
  {
    hide Linked, DirOf, EntryByte, Live, IsDir, FirstOf, SizeOf, NameOf, UsedUpTo;
    var n, slots := 16 * g.sectorsPerCluster, DirOf(g, d, g.rootCluster);
    RootSlots(g, d, rc);
    var p, q := Position(k, n, |rc|);
    EntrySlot(g, d, rc, p, q);
    SlotFields(slots[k]);
    LiveUpTo(g, d, rc, p, q);
    at := Place(rc, p, q, FirstOf(slots[k]), SizeOf(slots[k]), cs);
  }

  /** And the entry the driver finds is there. */
  lemma {:induction false} FoundEntryThere(g: Fat32, d: Disk, lay: Layout, name: Name) returns (at: Place)
    requires Wf(g, d, lay) && PathBytes(g, d, [name]).Some?
    ensures EntryThere(g, d, name, at)
    ensures var e := Find(DirOf(g, d, g.rootCluster), name).value; FirstOf(e) == at.first && SizeOf(e) == at.size
    ensures at.first != 0 ==> Linked(g, d, at.clusters) && at.clusters[0] == at.first
  {
    hide Linked, DirOf, EntryThere, Find, SoleOwners, Live, IsDir, FirstOf, SizeOf, NameOf, Closed, UniqueNames,
      PathBytes, Raw, Fat;
    RootPath(g, d, name);
    var slots := DirOf(g, d, g.rootCluster);
    var k := FindWhere(slots, name);
    assert EntryOk(lay, slots[k]);
    var first := FirstOf(slots[k]);
    var cs := if first == 0 then [] else lay.chains[first];
    if first != 0 {
      ChainOnCard(g, d, cs);
    }
    ChainOnCard(g, d, RootChain(g, lay));
    at := SlotThere(g, d, RootChain(g, lay), k, cs);
  }

  lemma {:induction false} RootSlots(g: Fat32, d: Disk, rc: seq<nat>)
    requires g.Valid(|d|) && Linked(g, d, rc)
    ensures |DirOf(g, d, rc[0])| == |rc| * (16 * g.sectorsPerCluster)
  {
    hide Linked, IsChain, Fat, Lbas, Times, Raw, SlotAt, Content, ChainBytes, ChainOf;
    ChainOnCard(g, d, rc);
    ChainViews(g, d, rc);
    LbasSize(g, rc);
    TimesIsProduct(|rc|, g.sectorsPerCluster);
    Regroup(|rc|, 16, g.sectorsPerCluster);
  }

  lemma Regroup(a: nat, u: nat, n: nat)
    ensures a * (u * n) == u * (a * n)
  {
  }

  /**
   * On a well-formed volume a root-directory name reads as `content` if and only if the card holds, byte for
   * byte, a plain file's entry of that name and, in the clusters linked from it, that content.
   */
  lemma {:induction false} FileOnCard(g: Fat32, d: Disk, lay: Layout, name: Name, content: seq<byte>)
    requires Wf(g, d, lay)
    ensures PathBytes(g, d, [name]) == Some(content)
            <==> exists at :: EntryThere(g, d, name, at) && DataThere(g, d, content, at)
  {
    hide Wf, EntryThere, DirOf, Find, FileBytes, IsDir, FirstOf, SizeOf, PathBytes;
    WfValid(g, d, lay);
    RootPath(g, d, name);
    if PathBytes(g, d, [name]) == Some(content) {
      var at := FoundEntryThere(g, d, lay, name);
      DataThereIs(g, d, content, at);
      assert EntryThere(g, d, name, at) && DataThere(g, d, content, at);
    }
    if at :| EntryThere(g, d, name, at) && DataThere(g, d, content, at) {
      EntryThereFound(g, d, lay, name, at);
      DataThereIs(g, d, content, at);
    }
  }
}
