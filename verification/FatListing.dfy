/** Directory listings: every live entry's name and size, in directory order. */
module FatListing {
  import opened Bytes
  import opened SdCard
  import opened Options
  import opened FatGeometry
  import opened FatChain
  import opened FatDir
  import opened FatVolume
  import opened FatDriver
  import opened FatReader

  /** The live slots before the first never-used one. */
  function Entries(slots: seq<Slot>): (es: seq<Slot>)
    ensures |es| <= |slots|
  {
    if slots == [] || slots[0][0] == 0 then []
    else (if Live(slots[0]) then [slots[0]] else []) + Entries(slots[1..])
  }

  lemma {:induction false} EntriesSnoc(slots: seq<Slot>, k: nat)
    requires k < |slots| && forall i :: 0 <= i <= k ==> slots[i][0] != 0
    ensures Entries(slots[..k + 1]) == Entries(slots[..k]) + if Live(slots[k]) then [slots[k]] else []
  {
    hide Live;
    if k == 0 {
      assert slots[..1][1..] == [] && slots[..1][0] == slots[0];
    } else {
      EntriesSnoc(slots[1..], k - 1);
      assert slots[..k + 1][1..] == slots[1..][..k] && slots[..k][1..] == slots[1..][..k - 1];
      assert slots[..k + 1][0] == slots[..k][0] == slots[0];
    }
  }

  lemma {:induction false} EntriesEnd(slots: seq<Slot>, k: nat)
    requires k <= |slots| && (forall i :: 0 <= i < k ==> slots[i][0] != 0) && (k == |slots| || slots[k][0] == 0)
    ensures Entries(slots[..k]) == Entries(slots)
  {
    if k == |slots| {
      assert slots[..k] == slots;
    } else if k > 0 {
      EntriesEnd(slots[1..], k - 1);
      assert slots[..k][1..] == slots[1..][..k - 1];
    }
  }

  /** The first listed entry with a given name. */
  function FirstNamed(es: seq<Slot>, name: Name): (r: Option<Slot>)
    ensures r.None? ==> forall i :: 0 <= i < |es| ==> NameOf(es[i]) != name
    ensures r.Some? ==> r.value in es && NameOf(r.value) == name
  {
    if es == [] then None
    else if NameOf(es[0]) == name then Some(es[0])
    else FirstNamed(es[1..], name)
  }

  /** A listing and a lookup agree: a lookup finds exactly the first listed entry of that name. */
  lemma {:induction false} LookupIsFirstListed(slots: seq<Slot>, name: Name)
    ensures Find(slots, name) == FirstNamed(Entries(slots), name)
  {
    hide NameOf;
    if slots != [] && slots[0][0] != 0 {
      LookupIsFirstListed(slots[1..], name);
      if Live(slots[0]) {
        assert Entries(slots)[1..] == Entries(slots[1..]);
      } else {
        assert Entries(slots) == Entries(slots[1..]);
      }
    }
  }

  /** Every position moved on by one. */
  function MovedOn(at: seq<nat>): (r: seq<nat>)
    ensures |r| == |at| && forall i :: 0 <= i < |at| ==> r[i] == at[i] + 1
  {
    seq(|at|, i requires 0 <= i < |at| => at[i] + 1)
  }

  /** The positions of the live slots, in order. */
  function LivePositions(slots: seq<Slot>): (at: seq<nat>)
    ensures |at| == |Entries(slots)|
  {
    if slots == [] || slots[0][0] == 0 then []
    else (if Live(slots[0]) then [0] else []) + MovedOn(LivePositions(slots[1..]))
  }

  lemma {:induction false} PositionsGrow(slots: seq<Slot>)
    ensures forall i, j :: 0 <= i < j < |LivePositions(slots)| ==> LivePositions(slots)[i] < LivePositions(slots)[j]
  {
    if slots != [] && slots[0][0] != 0 {
      PositionsGrow(slots[1..]);
    }
  }

  lemma {:induction false} PositionIsLive(slots: seq<Slot>, i: nat)
    requires i < |Entries(slots)|
    ensures IsAt(slots, i)
  {
    hide Live;
    var here := if Live(slots[0]) then 1 else 0;
    if i >= here {
      PositionIsLive(slots[1..], i - here);
      LiveBehind(slots, LivePositions(slots[1..])[i - here]);
    }
  }

  lemma {:induction false} LiveIsListed(slots: seq<Slot>, k: nat)
    requires LiveAt(slots, k)
    ensures k in LivePositions(slots)
  {
    hide Live;
    var at := LivePositions(slots);
    LiveStart(slots, k);
    if k == 0 {
      assert at[0] == 0;
    } else {
      LiveBehind(slots, k - 1);
      LiveIsListed(slots[1..], k - 1);
      var rest := LivePositions(slots[1..]);
      var i :| 0 <= i < |rest| && rest[i] == k - 1;
      assert at[i + if Live(slots[0]) then 1 else 0] == k;
    }
  }

  lemma LiveStart(slots: seq<Slot>, k: nat)
    requires LiveAt(slots, k)
    ensures slots != [] && slots[0][0] != 0 && (k == 0 ==> Live(slots[0]))
  {
  }

  /** Entry `i` is that slot. */
  ghost predicate IsAt(slots: seq<Slot>, i: nat) {
    && i < |Entries(slots)|
    && var k := LivePositions(slots)[i]; k < |slots| && LiveAt(slots, k) && Entries(slots)[i] == slots[k]
  }

  /** The entries are the live slots, each once, in directory order. */
  lemma {:induction false} EachListedOnce(slots: seq<Slot>)
    ensures var at, es := LivePositions(slots), Entries(slots);
            && (forall i :: 0 <= i < |es| ==> IsAt(slots, i))
            && (forall i, j :: 0 <= i < j < |es| ==> at[i] < at[j])
            && (forall k: nat :: LiveAt(slots, k) ==> k in at)
  {
    hide Live, LiveAt, Entries, LivePositions, IsAt;
    PositionsGrow(slots);
    forall i | 0 <= i < |Entries(slots)|
      ensures IsAt(slots, i)
    {
      PositionIsLive(slots, i);
    }
    forall k: nat | LiveAt(slots, k)
      ensures k in LivePositions(slots)
    {
      LiveIsListed(slots, k);
    }
  }

  lemma LiveBehind(slots: seq<Slot>, k: nat)
    requires slots != [] && slots[0][0] != 0
    ensures LiveAt(slots, k + 1) <==> LiveAt(slots[1..], k)
    ensures LiveAt(slots[1..], k) ==> k + 1 < |slots| && slots[k + 1] == slots[1..][k]
  {
    hide Live;
    assert forall j :: 0 <= j < |slots| - 1 ==> slots[1..][j] == slots[j + 1];
    if LiveAt(slots[1..], k) {
      forall j | 0 <= j < k + 1
        ensures slots[j][0] != 0
      {
        assert j > 0 ==> slots[1..][j - 1][0] != 0;
      }
    }
    if LiveAt(slots, k + 1) {
      forall j | 0 <= j < k
        ensures slots[1..][j][0] != 0
      {
        assert slots[j + 1][0] != 0;
      }
    }
  }

  /** `count` entries of the first `k` slots are listed, as many as there are or fit. */
  ghost predicate Listed(slots: seq<Slot>, k: nat, names: seq<Name>, sizes: seq<nat>, count: nat) {
    && k <= |slots| && (forall i :: 0 <= i < k ==> slots[i][0] != 0)
    && Shown(Entries(slots[..k]), names, sizes, count)
  }

  ghost predicate Shown(es: seq<Slot>, names: seq<Name>, sizes: seq<nat>, count: nat) {
    && |names| <= |sizes| && count == Min(|es|, |names|)
    && forall i :: 0 <= i < count ==> names[i] == NameOf(es[i]) && sizes[i] == SizeOf(es[i])
  }

  lemma ShownSame(es: seq<Slot>, more: seq<Slot>, names: seq<Name>, sizes: seq<nat>, count: nat)
    requires Shown(es, names, sizes, count) && count == |names|
    ensures Shown(es + more, names, sizes, count)
  {
  }

  lemma ShownNext(es: seq<Slot>, e: Slot, names: seq<Name>, sizes: seq<nat>, count: nat)
    requires Shown(es, names, sizes, count) && count < |names|
    ensures Shown(es + [e], names[count := NameOf(e)], sizes[count := SizeOf(e)], count + 1)
  {
  }

  lemma ListedStart(slots: seq<Slot>, names: seq<Name>, sizes: seq<nat>)
    requires |names| <= |sizes|
    ensures Listed(slots, 0, names, sizes, 0)
  {
    assert slots[..0] == [];
  }

  lemma ListedSkip(slots: seq<Slot>, k: nat, names: seq<Name>, sizes: seq<nat>, count: nat)
    requires Listed(slots, k, names, sizes, count) && k < |slots| && slots[k][0] != 0 && !Live(slots[k])
    ensures Listed(slots, k + 1, names, sizes, count)
  {
    EntriesSnoc(slots, k);
    assert Entries(slots[..k]) + [] == Entries(slots[..k]);
  }

  lemma ListedFull(slots: seq<Slot>, k: nat, names: seq<Name>, sizes: seq<nat>, count: nat)
    requires Listed(slots, k, names, sizes, count) && k < |slots| && Live(slots[k]) && count >= |names|
    ensures Listed(slots, k + 1, names, sizes, count)
  {
    hide Shown;
    EntriesSnoc(slots, k);
    CountBound(Entries(slots[..k]), names, sizes, count);
    ShownSame(Entries(slots[..k]), [slots[k]], names, sizes, count);
  }

  lemma CountBound(es: seq<Slot>, names: seq<Name>, sizes: seq<nat>, count: nat)
    requires Shown(es, names, sizes, count)
    ensures count <= |names| <= |sizes|
  {
  }

  lemma ListedNext(slots: seq<Slot>, k: nat, names: seq<Name>, sizes: seq<nat>, count: nat)
    requires Listed(slots, k, names, sizes, count) && k < |slots| && Live(slots[k]) && count < |names| <= |sizes|
    ensures Listed(slots, k + 1, names[count := NameOf(slots[k])], sizes[count := SizeOf(slots[k])], count + 1)
  {
    hide Shown;
    EntriesSnoc(slots, k);
    ShownNext(Entries(slots[..k]), slots[k], names, sizes, count);
  }

  /** One sector's entries; `ended` when it held the directory's first never-used slot. */
  method ListSector(
    sector: Sector, names: array<Name>, sizes: array<nat>, count0: nat, ghost slots: seq<Slot>, ghost k0: nat)
    returns (count: nat, ended: bool, ghost k: nat)
    requires Listed(slots, k0, names[..], sizes[..], count0) && k0 + SLOTS_PER_SECTOR <= |slots|
    requires forall x :: 0 <= x < SLOTS_PER_SECTOR ==> slots[k0 + x] == SlotIn(sector, x)
    requires names as object != sizes as object
    modifies names, sizes
    ensures Listed(slots, k, names[..], sizes[..], count)
    ensures if ended then k < |slots| && slots[k][0] == 0 else k == k0 + SLOTS_PER_SECTOR
  {
    hide Listed, SlotIn;
    count, k := count0, k0;
    var i := 0;
    while i < SLOTS_PER_SECTOR
      invariant 0 <= i <= SLOTS_PER_SECTOR && k == k0 + i
      invariant Listed(slots, k, names[..], sizes[..], count)
    {
      var entry := SlotIn(sector, i);
      assert slots[k] == entry;
      if entry[0] == 0 {
        return count, true, k;
      }
      if entry[0] == FREE_MARK || entry[11] == 0x0F || entry[11] / 8 % 2 != 0 {
        ListedSkip(slots, k, names[..], sizes[..], count);
        i, k := i + 1, k + 1;
        continue;
      }
      ListedBound(slots, k, names[..], sizes[..], count);
      if count < names.Length {
        ListedNext(slots, k, names[..], sizes[..], count);
        ghost var names', sizes' := names[..][count := NameOf(entry)], sizes[..][count := SizeOf(entry)];
        names[count] := entry[..11];
        sizes[count] := U32(entry[28..32]);
        assert names[..] == names' && sizes[..] == sizes';
        count := count + 1;
      } else {
        ListedFull(slots, k, names[..], sizes[..], count);
      }
      i, k := i + 1, k + 1;
    }
    return count, false, k;
  }

  lemma ListedBound(slots: seq<Slot>, k: nat, names: seq<Name>, sizes: seq<nat>, count: nat)
    requires Listed(slots, k, names, sizes, count)
    ensures count <= |names| <= |sizes|
  {
  }

  lemma ListedDone(slots: seq<Slot>, k: nat, names: seq<Name>, sizes: seq<nat>, count: nat)
    requires Listed(slots, k, names, sizes, count) && (k == |slots| || slots[k][0] == 0)
    ensures Shown(Entries(slots), names, sizes, count)
  {
    hide Shown;
    EntriesEnd(slots, k);
  }

  /** Lists the directory whose chain `cs` starts at `dir`: every live entry in order, as many as fit. */
  method ListDir(g: Fat32, card: Card, dir: nat, names: array<Name>, sizes: array<nat>, ghost cs: seq<nat>)
    returns (r: Result<nat>)
    requires g.Valid(|card.disk|) && IsChain(Fat(g, card.disk), cs) && cs[0] == dir
    requires names.Length <= sizes.Length && names as object != sizes as object
    modifies names, sizes, card`faults
    ensures r.Ok? ==> Shown(Entries(DirOf(g, card.disk, dir)), names[..], sizes[..], r.value)
    ensures r.Err? ==> r.error == Sd
    ensures card.faults == old(card.faults) + Faulted(r)
  {
    hide IsChain, Lbas, Fat, Times, Raw, Cursor, Content, Run, SlotAt, SlotIn, InTable, ChainOf, DirOf, Listed,
      Entries, Shown;
    ghost var d := card.disk;
    ChainStep(Fat(g, d), cs, 0);
    ChainViews(g, d, cs);
    ghost var lbas := Lbas(g, cs);
    ghost var slots := Dir(d, lbas);
    CursorStart(g, cs);
    ListedStart(slots, names[..], sizes[..]);
    var cluster := dir;
    var count: nat := 0;
    ghost var p, j := 0, 0;
    while true
      invariant 0 <= p < |cs| && cluster == cs[p] && 2 <= cluster < g.MaxCluster() && Cursor(g, cs, p, 0, j)
      invariant Listed(slots, SLOTS_PER_SECTOR * j, names[..], sizes[..], count) && card.faults == old(card.faults)
      decreases |cs| - p
    {
      var lba := g.ClusterToLba(cluster);
      var s := 0;
      while s < g.sectorsPerCluster
        invariant 0 <= s <= g.sectorsPerCluster && Cursor(g, cs, p, s, j)
        invariant Listed(slots, SLOTS_PER_SECTOR * j, names[..], sizes[..], count) && card.faults == old(card.faults)
      {
        CursorHere(g, cs, p, s, j);
        var sector := card.ReadBlock(lba + s);
        if sector.Err? {
          return Err(sector.error);
        }
        DirSector(d, lbas, j);
        var ended;
        ghost var k;
        count, ended, k := ListSector(sector.value, names, sizes, count, slots, SLOTS_PER_SECTOR * j);
        if ended {
          ListedDone(slots, k, names[..], sizes[..], count);
          return Ok(count);
        }
        s := s + 1;
        j := j + 1;
      }
      CursorNext(g, cs, p, j);
      ChainStep(Fat(g, d), cs, p);
      var next := FatEntry(g, card, cluster);
      if next.Err? {
        return Err(next.error);
      }
      if next.value >= END_OF_CHAIN {
        ListedDone(slots, SLOTS_PER_SECTOR * j, names[..], sizes[..], count);
        return Ok(count);
      }
      cluster := next.value;
      p := p + 1;
    }
  }
}
