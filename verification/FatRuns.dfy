/** Whole runs of file writes, and a volume to start from. */
module FatRuns {
  import opened Bytes
  import opened SdCard
  import opened Options
  import opened FatGeometry
  import opened FatChain
  import opened FatDir
  import opened FatVolume
  import opened FatWriter

  ghost predicate WellFormed(g: Fat32, d: Disk) {
    exists lay :: Wf(g, d, lay)
  }

  datatype Op = Op(name: Name, data: seq<byte>)

  /** What one `write_file` call does to the disk, as `FatWriter.WriteFile` guarantees it. */
  ghost predicate Step(g: Fat32, d: Disk, d': Disk, op: Op, r: Result<()>)
    requires g.Valid(|d|)
  {
    && Safe(g, d, d', op.name)
    && (r.Ok? ==> WellFormed(g, d') && PathBytes(g, d', [op.name]) == Some(op.data))
    && (r.Err? ==> r.error in {Sd, NoSpace})
    && (r == Err(NoSpace) ==> WellFormed(g, d') && AllKept(g, d, d'))
    && (!Shrinks(g, d, op.name, |op.data|) ==> WellFormed(g, d'))
    && (HeldBy(g, d, op.name) == 0 ==> PathBytes(g, d', [op.name]) in {PathBytes(g, d, [op.name]), Some(op.data)})
    && (r != Err(Sd) && Mirrored(g, d) ==> Mirrored(g, d'))
  }

  /** One `write_file` call; while the card works it succeeds if and only if the volume has room. */
  method WriteStep(g: Fat32, card: Card, op: Op) returns (r: Result<()>)
    requires WellFormed(g, card.disk) && Storable(g, card.disk, op.name) && |op.data| < 0x1_0000_0000
    modifies card
    ensures Step(g, old(card.disk), card.disk, op, r) && card.faults == old(card.faults) + Faulted(r)
    ensures card.faults == old(card.faults) ==> (r.Ok? <==> HasRoom(g, old(card.disk), op.name, |op.data|))
  {
    hide Wf, Safe, Storable, PathBytes, AllKept, Mirrored, HasRoom, HeldBy, Writable, DirNamed;
    ghost var lay :| Wf(g, card.disk, lay);
    WfValid(g, card.disk, lay);
    StorableIsWritable(g, card.disk, lay, op.name);
    ghost var lay';
    r, lay' := WriteFile(g, card, op.name, op.data, lay);
  }

  /** The content the run leaves under `name`: the last successful write's, else what was there before. */
  function LastWritten(ops: seq<Op>, rs: seq<Result<()>>, name: Name, before: Option<seq<byte>>): Option<seq<byte>>
    requires |rs| == |ops|
  {
    if ops == [] then before
    else
      var n := |ops| - 1;
      if ops[n].name == name && rs[n].Ok? then Some(ops[n].data)
      else LastWritten(ops[..n], rs[..n], name, before)
  }

  /** The disks a run of calls goes through, none of them stopped by a card error. */
  ghost predicate WriteRun(g: Fat32, disks: seq<Disk>, ops: seq<Op>, rs: seq<Result<()>>) {
    && |disks| == |ops| + 1 && |rs| == |ops|
    && g.Valid(|disks[0]|) && WellFormed(g, disks[0])
    && (forall i :: 0 <= i < |ops| ==> g.Valid(|disks[i]|) && rs[i] != Err(Sd)
                                       && Step(g, disks[i], disks[i + 1], ops[i], rs[i]))
  }

  lemma StepRootFile(g: Fat32, d: Disk, d': Disk, op: Op, r: Result<()>, name: Name)
    requires g.Valid(|d|) && Step(g, d, d', op, r) && r != Err(Sd)
    ensures PathBytes(g, d', [name]) ==
            if name == op.name && r.Ok? then Some(op.data) else PathBytes(g, d, [name])
  {
    if name != op.name && r.Ok? {
      assert Avoids(g, d, [name], op.name);
    }
  }

  lemma StepKeeps(g: Fat32, d: Disk, d': Disk, op: Op, r: Result<()>, name: Name)
    requires g.Valid(|d|) && Step(g, d, d', op, r) && r != Err(Sd)
    ensures |d'| == |d| && g.Valid(|d'|) && WellFormed(g, d') && ReservedKept(g, d, d')
    ensures Mirrored(g, d) ==> Mirrored(g, d')
    ensures Storable(g, d, name) ==> Storable(g, d', name)
  {
    hide PathBytes, WellFormed, AllKept, Mirrored;
  }

  lemma SameReserved(g: Fat32, d: Disk)
    requires g.Valid(|d|)
    ensures ReservedKept(g, d, d)
  {
  }

  /**
   * Any run of writes, each one successful or out of space, keeps the volume well formed and its root
   * files a finite map updated by exactly the successful writes; FAT copies stay in step, and the
   * reserved bits of every entry of every copy never change.
   */
  lemma {:induction false} RunKeeps(g: Fat32, disks: seq<Disk>, ops: seq<Op>, rs: seq<Result<()>>, name: Name)
    requires WriteRun(g, disks, ops, rs)
    ensures var d, d' := disks[0], disks[|ops|];
            && g.Valid(|d|) && |d'| == |d| && WellFormed(g, d')
            && PathBytes(g, d', [name]) == LastWritten(ops, rs, name, PathBytes(g, d, [name]))
            && (Mirrored(g, d) ==> Mirrored(g, d'))
            && ReservedKept(g, d, d')
            && (Storable(g, d, name) ==> Storable(g, d', name))
  {
    hide Step, PathBytes, Storable, ReservedKept, Mirrored, WellFormed;
    if ops == [] {
      SameReserved(g, disks[0]);
    } else {
      var n := |ops| - 1;
      assert WriteRun(g, disks[..n + 1], ops[..n], rs[..n]);
      RunKeeps(g, disks[..n + 1], ops[..n], rs[..n], name);
      StepRootFile(g, disks[n], disks[n + 1], ops[n], rs[n], name);
      StepKeeps(g, disks[n], disks[n + 1], ops[n], rs[n], name);
      ReservedTrans(g, disks[0], disks[n], disks[n + 1]);
    }
  }

  /** A freshly formatted volume: an empty root directory in one cluster. */
  lemma FormattedWf(g: Fat32, d: Disk)
    requires g.Valid(|d|) && Fat(g, d)[g.rootCluster] >= END_OF_CHAIN && ZeroedCluster(g, d, g.rootCluster)
    ensures Wf(g, d, Layout(map[g.rootCluster := [g.rootCluster]], {g.rootCluster}))
  {
    var root := [g.rootCluster];
    assert IsChain(Fat(g, d), root);
    ChainViews(g, d, root);
    var lbas := Lbas(g, root);
    assert lbas == FatDir.Run(g.ClusterToLba(g.rootCluster), g.sectorsPerCluster) + Lbas(g, []);
    DirZeroed(d, lbas);
    assert forall k :: !LiveAt(DirOf(g, d, g.rootCluster), k);
  }

  /** A volume the driver's assumptions hold for: 126 clusters of eight sectors, two FATs. */
  lemma SomeGeometry() returns (g: Fat32, blocks: nat)
    ensures g.Valid(blocks)
  {
    g, blocks := Fat32(2048, 8, 32, 2, 1, 2), 4096;
    TimesIsProduct(2, 1);
    TimesIsProduct(126, 8);
  }

  /** The end mark written for a cluster to the first `n` FAT copies. */
  lemma {:induction false} MarkEnd(g: Fat32, d: Disk, c: nat, n: nat) returns (d': Disk)
    requires g.Valid(|d|) && c < g.MaxCluster() && n <= g.numFats
    ensures |d'| == |d| && SameOutsideFat(g, d, d')
    ensures forall i, x :: 0 <= i < g.numFats && 0 <= x < g.MaxCluster() ==>
              Raw(g, d', i, x) == if i < n && x == c then END_OF_CHAIN else Raw(g, d, i, x)
  {
    hide Raw;
    if n == 0 {
      d' := d;
    } else {
      var d1 := MarkEnd(g, d, c, n - 1);
      FatLbaInside(g, n - 1, c);
      ClusterInside(g, |d|, 2, 0);
      var b := g.FatLba(n - 1, c);
      d' := d1[b := Patch(d1[b], g.EntryOffset(c), Le32(END_OF_CHAIN))];
      PutEntry(g, d1, d', n - 1, c, END_OF_CHAIN);
    }
  }

  /** A blank card with the root cluster's end mark in every FAT copy. */
  lemma FormatCard(g: Fat32, blocks: nat) returns (d: Disk)
    requires g.Valid(blocks)
    ensures |d| == blocks && (forall b :: g.FirstDataSector() <= b < |d| ==> d[b] == ZERO_SECTOR)
    ensures forall i, x :: 0 <= i < g.numFats && 0 <= x < g.MaxCluster() ==>
              Raw(g, d, i, x) == if x == g.rootCluster then END_OF_CHAIN else 0
  {
    hide Raw;
    var blank: Disk := seq(blocks, _ => ZERO_SECTOR);
    forall i, x | 0 <= i < g.numFats && 0 <= x < g.MaxCluster()
      ensures Raw(g, blank, i, x) == 0
    {
      BlankEntry(g, blank, i, x);
    }
    d := MarkEnd(g, blank, g.rootCluster, g.numFats);
  }

  lemma BlankEntry(g: Fat32, d: Disk, i: nat, c: nat)
    requires g.Valid(|d|) && (forall b :: 0 <= b < |d| ==> d[b] == ZERO_SECTOR)
    requires i < g.numFats && c < g.MaxCluster()
    ensures Raw(g, d, i, c) == 0
  {
    FatLbaInside(g, i, c);
    ClusterInside(g, |d|, 2, 0);
  }

  /** Formatting is possible: any blank card the geometry fits on can be made a volume with mirrored FATs. */
  lemma FormattedExists(g: Fat32, blocks: nat) returns (d: Disk)
    requires g.Valid(blocks)
    ensures |d| == blocks && WellFormed(g, d) && Mirrored(g, d)
    ensures forall name :: PathBytes(g, d, [name]) == None
  {
    hide Raw;
    d := FormatCard(g, blocks);
    ClusterPastFat(g, g.rootCluster);
    FormattedWf(g, d);
    var lay := Layout(map[g.rootCluster := [g.rootCluster]], {g.rootCluster});
    assert Wf(g, d, lay);
    forall name
      ensures PathBytes(g, d, [name]) == None
    {
      EmptyRoot(g, d, name);
    }
  }

  lemma EmptyRoot(g: Fat32, d: Disk, name: Name)
    requires g.Valid(|d|) && Fat(g, d)[g.rootCluster] >= END_OF_CHAIN && ZeroedCluster(g, d, g.rootCluster)
    ensures PathBytes(g, d, [name]) == None
  {
    var root := [g.rootCluster];
    assert IsChain(Fat(g, d), root);
    ChainViews(g, d, root);
    var lbas := Lbas(g, root);
    assert lbas == FatDir.Run(g.ClusterToLba(g.rootCluster), g.sectorsPerCluster) + Lbas(g, []);
    DirZeroed(d, lbas);
  }

  // ---------- card failures ----------

  /** A run that goes on after card failures, as long as none of them struck a write that shrinks its file. */
  ghost predicate CrashRun(g: Fat32, disks: seq<Disk>, ops: seq<Op>, rs: seq<Result<()>>) {
    && |disks| == |ops| + 1 && |rs| == |ops|
    && g.Valid(|disks[0]|) && WellFormed(g, disks[0])
    && (forall i :: 0 <= i < |ops| ==> g.Valid(|disks[i]|) && Step(g, disks[i], disks[i + 1], ops[i], rs[i])
                                       && (rs[i] == Err(Sd) ==> !Shrinks(g, disks[i], ops[i].name, |ops[i].data|)))
  }

  /** Such a run keeps the volume well formed, and the reserved FAT bits unchanged, throughout. */
  lemma {:induction false} CrashRunKeeps(g: Fat32, disks: seq<Disk>, ops: seq<Op>, rs: seq<Result<()>>)
    requires CrashRun(g, disks, ops, rs)
    ensures var d, d' := disks[0], disks[|ops|];
            g.Valid(|d|) && |d'| == |d| && WellFormed(g, d') && ReservedKept(g, d, d')
  {
    hide Step, Shrinks, ReservedKept, WellFormed;
    if ops == [] {
      SameReserved(g, disks[0]);
    } else {
      var n := |ops| - 1;
      assert CrashRun(g, disks[..n + 1], ops[..n], rs[..n]);
      CrashRunKeeps(g, disks[..n + 1], ops[..n], rs[..n]);
      CrashStepKeeps(g, disks[n], disks[n + 1], ops[n], rs[n]);
      ReservedTrans(g, disks[0], disks[n], disks[n + 1]);
    }
  }

  lemma CrashStepKeeps(g: Fat32, d: Disk, d': Disk, op: Op, r: Result<()>)
    requires g.Valid(|d|) && Step(g, d, d', op, r) && (r == Err(Sd) ==> !Shrinks(g, d, op.name, |op.data|))
    ensures |d'| == |d| && g.Valid(|d'|) && WellFormed(g, d') && ReservedKept(g, d, d')
  {
    hide PathBytes, WellFormed, AllKept, Mirrored, Shrinks;
  }
}
