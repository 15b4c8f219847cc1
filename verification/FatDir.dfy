/** A chain's blocks as one list, the bytes they hold, and directories as runs of 32-byte slots. */
module FatDir {
  import opened Bytes
  import opened SdCard
  import opened Options
  import opened FatGeometry
  import opened FatChain

  const SLOT_SIZE := 32
  const SLOTS_PER_SECTOR := 16
  const ATTR_ARCHIVE: byte := 0x20
  const FREE_MARK: byte := 0xE5

  // ---------- the blocks of a chain ----------

  ghost predicate InTable(g: Fat32, cs: seq<nat>) {
    forall i :: 0 <= i < |cs| ==> 2 <= cs[i] < g.MaxCluster()
  }

  function Run(start: nat, n: nat): (r: seq<nat>)
    ensures |r| == n
    ensures forall i :: 0 <= i < n ==> r[i] == start + i
  {
    seq(n, i requires 0 <= i => start + i)
  }

  function Lbas(g: Fat32, cs: seq<nat>): seq<nat>
    requires InTable(g, cs)
  {
    if cs == [] then [] else Run(g.ClusterToLba(cs[0]), g.sectorsPerCluster) + Lbas(g, cs[1..])
  }

  ghost predicate OnDisk(d: Disk, lbas: seq<nat>) {
    forall i :: 0 <= i < |lbas| ==> lbas[i] < |d|
  }

  lemma {:induction false} LbasSize(g: Fat32, cs: seq<nat>)
    requires InTable(g, cs)
    ensures |Lbas(g, cs)| == Times(|cs|, g.sectorsPerCluster)
  {
    if cs != [] {
      LbasSize(g, cs[1..]);
    }
  }

  lemma {:induction false} LbasAppend(g: Fat32, a: seq<nat>, b: seq<nat>)
    requires InTable(g, a) && InTable(g, b)
    ensures InTable(g, a + b) && Lbas(g, a + b) == Lbas(g, a) + Lbas(g, b)
  {
    if a == [] {
      assert a + b == b;
    } else {
      assert (a + b)[1..] == a[1..] + b;
      LbasAppend(g, a[1..], b);
      var head := Run(g.ClusterToLba(a[0]), g.sectorsPerCluster);
      assert Lbas(g, a + b) == head + (Lbas(g, a[1..]) + Lbas(g, b));
    }
  }

  /** Every block of a chain belongs to one of its clusters. */
  lemma {:induction false} LbasOwner(g: Fat32, cs: seq<nat>, i: nat) returns (c: nat, s: nat)
    requires InTable(g, cs) && i < |Lbas(g, cs)|
    ensures c in cs && 2 <= c && s < g.sectorsPerCluster && Lbas(g, cs)[i] == g.ClusterToLba(c) + s
  {
    if i < g.sectorsPerCluster {
      c, s := cs[0], i;
    } else {
      c, s := LbasOwner(g, cs[1..], i - g.sectorsPerCluster);
    }
  }

  lemma LbasOnDisk(g: Fat32, d: Disk, cs: seq<nat>)
    requires g.Valid(|d|) && InTable(g, cs)
    ensures OnDisk(d, Lbas(g, cs))
    ensures forall i :: 0 <= i < |Lbas(g, cs)| ==> g.FirstDataSector() <= Lbas(g, cs)[i] < g.VolumeEnd()
  {
    forall i | 0 <= i < |Lbas(g, cs)|
      ensures g.FirstDataSector() <= Lbas(g, cs)[i] < g.VolumeEnd() <= |d|
    {
      var c, s := LbasOwner(g, cs, i);
      ClusterInside(g, |d|, c, s);
    }
  }

  lemma LbasApart(g: Fat32, a: seq<nat>, b: seq<nat>)
    requires InTable(g, a) && InTable(g, b) && Apart(a, b)
    ensures Apart(Lbas(g, a), Lbas(g, b))
  {
    forall x | x in Lbas(g, a)
      ensures x !in Lbas(g, b)
    {
      if x in Lbas(g, b) {
        var i :| 0 <= i < |Lbas(g, a)| && Lbas(g, a)[i] == x;
        var j :| 0 <= j < |Lbas(g, b)| && Lbas(g, b)[j] == x;
        var c, s := LbasOwner(g, a, i);
        var c', s' := LbasOwner(g, b, j);
        ClusterSectorsApart(g, c, s, c', s');
      }
    }
  }

  lemma {:induction false} LbasDistinct(g: Fat32, cs: seq<nat>)
    requires InTable(g, cs) && Distinct(cs)
    ensures Distinct(Lbas(g, cs))
  {
    if cs != [] {
      LbasDistinct(g, cs[1..]);
      assert Apart([cs[0]], cs[1..]);
      LbasApart(g, [cs[0]], cs[1..]);
      var head, tail := Run(g.ClusterToLba(cs[0]), g.sectorsPerCluster), Lbas(g, cs[1..]);
      assert Lbas(g, [cs[0]]) == head + Lbas(g, []) == head;
      forall i, j | 0 <= i < j < |Lbas(g, cs)|
        ensures Lbas(g, cs)[i] != Lbas(g, cs)[j]
      {
        if i < |head| <= j {
          assert head[i] in head && tail[j - |head|] in tail;
        }
      }
    }
  }

  // ---------- the bytes of a chain ----------

  function Content(d: Disk, lbas: seq<nat>): (b: seq<byte>)
    requires OnDisk(d, lbas)
    ensures |b| == SECTOR_SIZE * |lbas|
  {
    if lbas == [] then [] else d[lbas[0]] + Content(d, lbas[1..])
  }

  lemma {:induction false} ContentAppend(d: Disk, a: seq<nat>, b: seq<nat>)
    requires OnDisk(d, a) && OnDisk(d, b)
    ensures OnDisk(d, a + b) && Content(d, a + b) == Content(d, a) + Content(d, b)
  {
    if a == [] {
      assert a + b == b;
    } else {
      assert (a + b)[1..] == a[1..] + b;
      ContentAppend(d, a[1..], b);
    }
  }

  lemma ContentSnoc(d: Disk, lbas: seq<nat>, j: nat)
    requires OnDisk(d, lbas) && j < |lbas|
    ensures OnDisk(d, lbas[..j]) && OnDisk(d, lbas[..j + 1])
    ensures Content(d, lbas[..j + 1]) == Content(d, lbas[..j]) + d[lbas[j]]
    ensures Content(d, lbas[..j + 1]) <= Content(d, lbas)
  {
    assert lbas[..j + 1] == lbas[..j] + [lbas[j]];
    ContentAppend(d, lbas[..j], [lbas[j]]);
    assert Content(d, [lbas[j]]) == d[lbas[j]] + Content(d, []) == d[lbas[j]];
    assert lbas == lbas[..j + 1] + lbas[j + 1..];
    ContentAppend(d, lbas[..j + 1], lbas[j + 1..]);
  }

  lemma {:induction false} ContentSame(d: Disk, d': Disk, lbas: seq<nat>)
    requires OnDisk(d, lbas) && OnDisk(d', lbas)
    requires forall i :: 0 <= i < |lbas| ==> d'[lbas[i]] == d[lbas[i]]
    ensures Content(d', lbas) == Content(d, lbas)
  {
    if lbas != [] {
      ContentSame(d, d', lbas[1..]);
    }
  }

  lemma {:induction false} ContentByte(d: Disk, lbas: seq<nat>, x: nat)
    requires OnDisk(d, lbas) && x < SECTOR_SIZE * |lbas|
    ensures Content(d, lbas)[x] == d[lbas[x / SECTOR_SIZE]][x % SECTOR_SIZE]
  {
    if x >= SECTOR_SIZE {
      ContentByte(d, lbas[1..], x - SECTOR_SIZE);
    }
  }

  // ---------- directory slots ----------

  type Slot = s: seq<byte> | |s| == SLOT_SIZE witness Zeros(SLOT_SIZE)
  type Name = s: seq<byte> | |s| == 11 witness Zeros(11)

  /** Neither free, nor a long-name fragment, nor a volume label. */
  predicate Live(s: Slot) {
    s[0] != 0 && s[0] != FREE_MARK && s[11] != 0x0F && s[11] / 8 % 2 == 0
  }

  function NameOf(s: Slot): Name {
    s[..11]
  }

  function FirstOf(s: Slot): nat {
    U16(s[20..22]) * 0x1_0000 + U16(s[26..28])
  }

  function SizeOf(s: Slot): nat {
    U32(s[28..32])
  }

  predicate IsDir(s: Slot) {
    s[11] / 16 % 2 == 1
  }

  /** The entry `write_file` leaves behind. */
  function NewSlot(name: Name, first: u32, size: u32): Slot {
    name + [ATTR_ARCHIVE] + Zeros(8) + Le16(first / 0x1_0000) + Zeros(4) + Le16(first % 0x1_0000) + Le32(size)
  }

  lemma NewSlotFields(name: Name, first: u32, size: u32)
    requires name[0] != 0 && name[0] != FREE_MARK
    ensures var s := NewSlot(name, first, size);
            Live(s) && !IsDir(s) && NameOf(s) == name && FirstOf(s) == first && SizeOf(s) == size
    ensures var s := NewSlot(name, first, size);
            s[11] == 0x20 && forall i :: 12 <= i < 20 || 22 <= i < 26 ==> s[i] == 0
  {
    var s := NewSlot(name, first, size);
    assert s[20..22] == Le16(first / 0x1_0000);
    assert s[26..28] == Le16(first % 0x1_0000);
    assert s[28..32] == Le32(size);
    Le16RoundTrip(first / 0x1_0000);
    Le16RoundTrip(first % 0x1_0000);
    Le32RoundTrip(size);
  }

  function SlotAt(d: Disk, lbas: seq<nat>, k: nat): Slot
    requires OnDisk(d, lbas) && k < SLOTS_PER_SECTOR * |lbas|
  {
    var o := SLOT_SIZE * (k % SLOTS_PER_SECTOR);
    d[lbas[k / SLOTS_PER_SECTOR]][o..o + SLOT_SIZE]
  }

  function Dir(d: Disk, lbas: seq<nat>): (slots: seq<Slot>)
    requires OnDisk(d, lbas)
    ensures |slots| == SLOTS_PER_SECTOR * |lbas|
    ensures forall k :: 0 <= k < |slots| ==> slots[k] == SlotAt(d, lbas, k)
  {
    seq(SLOTS_PER_SECTOR * |lbas|, k requires 0 <= k < SLOTS_PER_SECTOR * |lbas| => SlotAt(d, lbas, k))
  }

  lemma DirSame(d: Disk, d': Disk, lbas: seq<nat>)
    requires OnDisk(d, lbas) && OnDisk(d', lbas)
    requires forall i :: 0 <= i < |lbas| ==> d'[lbas[i]] == d[lbas[i]]
    ensures Dir(d', lbas) == Dir(d, lbas)
  {
    forall k | 0 <= k < SLOTS_PER_SECTOR * |lbas|
      ensures SlotAt(d', lbas, k) == SlotAt(d, lbas, k)
    {
    }
  }

  lemma DirAppend(d: Disk, a: seq<nat>, b: seq<nat>)
    requires OnDisk(d, a) && OnDisk(d, b)
    ensures OnDisk(d, a + b) && Dir(d, a + b) == Dir(d, a) + Dir(d, b)
  {
    forall k | 0 <= k < SLOTS_PER_SECTOR * |a + b|
      ensures Dir(d, a + b)[k] == (Dir(d, a) + Dir(d, b))[k]
    {
      var n := SLOTS_PER_SECTOR * |a|;
      if k >= n {
        assert (k - n) / SLOTS_PER_SECTOR == k / SLOTS_PER_SECTOR - |a|;
        assert SlotAt(d, a + b, k) == SlotAt(d, b, k - n);
      } else {
        assert SlotAt(d, a + b, k) == SlotAt(d, a, k);
      }
    }
  }

  lemma DirZeroed(d: Disk, lbas: seq<nat>)
    requires OnDisk(d, lbas) && forall i :: 0 <= i < |lbas| ==> d[lbas[i]] == ZERO_SECTOR
    ensures forall j :: 0 <= j < |Dir(d, lbas)| ==> Dir(d, lbas)[j][0] == 0
  {
  }

  lemma PaddedLive(slots: seq<Slot>, pad: seq<Slot>)
    requires forall j :: 0 <= j < |pad| ==> pad[j][0] == 0
    ensures forall k :: LiveAt(slots + pad, k) <==> LiveAt(slots, k)
    ensures Closed(slots) ==> Closed(slots + pad)
    ensures UniqueNames(slots) ==> UniqueNames(slots + pad)
  {
    forall k
      ensures LiveAt(slots + pad, k) <==> LiveAt(slots, k)
    {
      if LiveAt(slots, k) {
        assert forall j :: 0 <= j < k ==> (slots + pad)[j] == slots[j];
      }
      if LiveAt(slots + pad, k) {
        assert k < |slots|;
        assert forall j :: 0 <= j < k ==> (slots + pad)[j] == slots[j];
      }
    }
  }

  /** First live entry called `name`, looking no further than the first never-used slot. */
  function Find(slots: seq<Slot>, name: Name): Option<Slot> {
    if slots == [] || slots[0][0] == 0 then None
    else if Live(slots[0]) && NameOf(slots[0]) == name then Some(slots[0])
    else Find(slots[1..], name)
  }

  ghost predicate LiveAt(slots: seq<Slot>, k: int) {
    0 <= k < |slots| && Live(slots[k]) && forall j :: 0 <= j < k ==> slots[j][0] != 0
  }

  /** Everything past the first never-used slot is never-used too. */
  ghost predicate Closed(slots: seq<Slot>) {
    forall i, j :: 0 <= i < j < |slots| && slots[i][0] == 0 ==> slots[j][0] == 0
  }

  ghost predicate UniqueNames(slots: seq<Slot>) {
    forall i, j :: 0 <= i < j < |slots| && Live(slots[i]) && Live(slots[j]) ==> NameOf(slots[i]) != NameOf(slots[j])
  }

  lemma {:induction false} FindHit(slots: seq<Slot>, name: Name, k: nat)
    requires LiveAt(slots, k) && NameOf(slots[k]) == name
    requires forall j :: 0 <= j < k && Live(slots[j]) ==> NameOf(slots[j]) != name
    ensures Find(slots, name) == Some(slots[k])
  {
    if k > 0 {
      assert forall j :: 0 <= j < k - 1 ==> slots[1..][j] == slots[j + 1];
      FindHit(slots[1..], name, k - 1);
    }
  }

  lemma {:induction false} FindMiss(slots: seq<Slot>, name: Name)
    requires forall k :: LiveAt(slots, k) ==> NameOf(slots[k]) != name
    ensures Find(slots, name) == None
  {
    if slots != [] && slots[0][0] != 0 {
      assert Live(slots[0]) ==> LiveAt(slots, 0);
      forall k | LiveAt(slots[1..], k)
        ensures NameOf(slots[1..][k]) != name
      {
        forall j | 0 <= j < k + 1
          ensures slots[j][0] != 0
        {
          if j > 0 {
            assert slots[1..][j - 1] == slots[j];
          }
        }
        assert LiveAt(slots, k + 1);
      }
      FindMiss(slots[1..], name);
    }
  }

  /** Where a successful search stopped. */
  lemma {:induction false} FindWhere(slots: seq<Slot>, name: Name) returns (k: nat)
    requires Find(slots, name).Some?
    ensures LiveAt(slots, k) && NameOf(slots[k]) == name && Find(slots, name).value == slots[k]
  {
    if Live(slots[0]) && NameOf(slots[0]) == name {
      k := 0;
    } else {
      var k' := FindWhere(slots[1..], name);
      k := k' + 1;
      forall j | 0 <= j < k
        ensures slots[j][0] != 0
      {
        if j > 0 {
          assert slots[1..][j - 1] == slots[j];
        }
      }
    }
  }

  /**
   * `slots'` is `slots`, perhaps lengthened by never-used slots, with the live entry `s` stored at
   * position `k`, which lies no further than the first never-used slot.
   */
  ghost predicate Stored(slots: seq<Slot>, slots': seq<Slot>, k: nat, s: Slot) {
    && |slots| <= |slots'| && k < |slots'| && k <= |slots|
    && (forall j :: 0 <= j < k ==> slots[j][0] != 0)
    && (forall j :: 0 <= j < |slots| && j != k ==> slots'[j] == slots[j])
    && (forall j :: |slots| <= j < |slots'| && j != k ==> slots'[j][0] == 0)
    && slots'[k] == s && Live(s)
  }

  lemma StoredLive(slots: seq<Slot>, slots': seq<Slot>, k: nat, s: Slot)
    requires Closed(slots) && Stored(slots, slots', k, s)
    ensures Closed(slots') && LiveAt(slots', k)
    ensures forall j :: j != k ==> (LiveAt(slots', j) <==> LiveAt(slots, j))
  {
    forall j | j != k
      ensures LiveAt(slots', j) <==> LiveAt(slots, j)
    {
      if LiveAt(slots, j) {
        assert forall i :: 0 <= i < j ==> slots'[i][0] != 0;
      }
      if LiveAt(slots', j) {
        assert j < |slots|;
        assert forall i :: 0 <= i < j ==> slots[i][0] != 0;
      }
    }
  }

  /** In a closed directory, being live is a property of the slot alone. */
  lemma ClosedLive(slots: seq<Slot>, k: nat)
    requires Closed(slots) && k < |slots| && Live(slots[k])
    ensures LiveAt(slots, k)
  {
  }

  /** Storing an entry under a name no other slot uses is a map update. */
  lemma StoredFind(slots: seq<Slot>, slots': seq<Slot>, k: nat, s: Slot, n: Name)
    requires Closed(slots) && UniqueNames(slots) && Stored(slots, slots', k, s)
    requires forall j :: LiveAt(slots, j) && j != k ==> NameOf(slots[j]) != NameOf(s)
    requires LiveAt(slots, k) ==> NameOf(slots[k]) == NameOf(s)
    ensures UniqueNames(slots')
    ensures Find(slots', n) == if n == NameOf(s) then Some(s) else Find(slots, n)
  {
    StoredLive(slots, slots', k, s);
    forall i, j | 0 <= i < j < |slots'| && Live(slots'[i]) && Live(slots'[j])
      ensures NameOf(slots'[i]) != NameOf(slots'[j])
    {
      ClosedLive(slots', i);
      ClosedLive(slots', j);
    }
    if n == NameOf(s) {
      forall j | 0 <= j < k && Live(slots'[j])
        ensures NameOf(slots'[j]) != n
      {
        ClosedLive(slots', j);
      }
      FindHit(slots', n, k);
    } else if Find(slots, n).Some? {
      var j := FindWhere(slots, n);
      assert LiveAt(slots', j);
      FindHit(slots', n, j);
    } else {
      forall j | LiveAt(slots', j)
        ensures NameOf(slots'[j]) != n
      {
        if j != k && NameOf(slots[j]) == n {
          FindHit(slots, n, j);
        }
      }
      FindMiss(slots', n);
    }
  }

  /** Lengthening a directory by never-used slots changes no lookup. */
  lemma {:induction false} FindPadded(slots: seq<Slot>, pad: seq<Slot>, n: Name)
    requires forall j :: 0 <= j < |pad| ==> pad[j][0] == 0
    ensures Find(slots + pad, n) == Find(slots, n)
  {
    if slots == [] {
      assert slots + pad == pad;
    } else {
      assert (slots + pad)[1..] == slots[1..] + pad;
      FindPadded(slots[1..], pad, n);
    }
  }
}
