/** Reading: directory lookup and file content, by walking a chain's sectors. */
module FatReader {
  import opened Bytes
  import opened SdCard
  import opened Options
  import opened FatGeometry
  import opened FatChain
  import opened FatDir
  import opened FatVolume
  import opened FatDriver

  // ---------- walking the blocks of a chain ----------

  /** With `s` sectors of cluster `p` behind it, the walk has passed the first `j` blocks of the chain. */
  ghost predicate Cursor(g: Fat32, cs: seq<nat>, p: nat, s: nat, j: nat) {
    && InTable(g, cs) && p < |cs| && s <= g.sectorsPerCluster && j <= |Lbas(g, cs)|
    && Lbas(g, cs)[j..] == Run(g.ClusterToLba(cs[p]) + s, g.sectorsPerCluster - s) + Lbas(g, cs[p + 1..])
  }

  lemma CursorStart(g: Fat32, cs: seq<nat>)
    requires InTable(g, cs) && cs != []
    ensures Cursor(g, cs, 0, 0, 0)
  {
    assert Lbas(g, cs)[0..] == Lbas(g, cs);
  }

  lemma RunHead(xs: seq<nat>, a: nat, n: nat, rest: seq<nat>)
    requires n > 0 && xs == Run(a, n) + rest
    ensures xs[0] == a && xs[1..] == Run(a + 1, n - 1) + rest
  {
    assert Run(a, n) == [a] + Run(a + 1, n - 1);
  }

  lemma CursorHere(g: Fat32, cs: seq<nat>, p: nat, s: nat, j: nat)
    requires Cursor(g, cs, p, s, j) && s < g.sectorsPerCluster
    ensures j < |Lbas(g, cs)| && Lbas(g, cs)[j] == g.ClusterToLba(cs[p]) + s
    ensures Cursor(g, cs, p, s + 1, j + 1)
  {
    hide Times, Run, Lbas;
    var lbas := Lbas(g, cs);
    RunHead(lbas[j..], g.ClusterToLba(cs[p]) + s, g.sectorsPerCluster - s, Lbas(g, cs[p + 1..]));
    assert lbas[j + 1..] == lbas[j..][1..];
  }

  lemma CursorNext(g: Fat32, cs: seq<nat>, p: nat, j: nat)
    requires Cursor(g, cs, p, g.sectorsPerCluster, j)
    ensures p + 1 < |cs| ==> Cursor(g, cs, p + 1, 0, j)
    ensures p + 1 == |cs| ==> j == |Lbas(g, cs)|
  {
    var rest := cs[p + 1..];
    assert Lbas(g, cs)[j..] == Lbas(g, rest);
    if p + 1 < |cs| {
      assert rest[1..] == cs[p + 2..];
    }
  }

  // ---------- lookup ----------

  function SlotIn(sector: Sector, i: nat): Slot
    requires i < SLOTS_PER_SECTOR
  {
    sector[SLOT_SIZE * i..SLOT_SIZE * i + SLOT_SIZE]
  }

  predicate Matches(s: Slot, name: Name) {
    Live(s) && NameOf(s) == name
  }

  /** The first `k` slots of a directory hold no end mark and no entry called `name`. */
  ghost predicate Passed(slots: seq<Slot>, name: Name, k: nat) {
    k <= |slots| && forall i :: 0 <= i < k ==> slots[i][0] != 0 && !Matches(slots[i], name)
  }

  method FindInSector(sector: Sector, name: Name) returns (i: nat, hit: bool)
    ensures i <= SLOTS_PER_SECTOR && (hit ==> i < SLOTS_PER_SECTOR)
    ensures forall x :: 0 <= x < i ==> SlotIn(sector, x)[0] != 0 && !Matches(SlotIn(sector, x), name)
    ensures i < SLOTS_PER_SECTOR ==> if hit then Matches(SlotIn(sector, i), name) else SlotIn(sector, i)[0] == 0
  {
    i := 0;
    while i < SLOTS_PER_SECTOR
      invariant i <= SLOTS_PER_SECTOR
      invariant forall x :: 0 <= x < i ==> SlotIn(sector, x)[0] != 0 && !Matches(SlotIn(sector, x), name)
    {
      var entry := SlotIn(sector, i);
      if entry[0] == 0 {
        return i, false;
      }
      if entry[0] == FREE_MARK || entry[11] == 0x0F || entry[11] / 8 % 2 != 0 {
        i := i + 1;
        continue;
      }
      if entry[..11] == name {
        return i, true;
      }
      i := i + 1;
    }
    return i, false;
  }

  lemma DirSector(d: Disk, lbas: seq<nat>, j: nat)
    requires OnDisk(d, lbas) && j < |lbas|
    ensures forall x :: 0 <= x < SLOTS_PER_SECTOR ==> Dir(d, lbas)[SLOTS_PER_SECTOR * j + x] == SlotIn(d[lbas[j]], x)
  {
    forall x | 0 <= x < SLOTS_PER_SECTOR
      ensures Dir(d, lbas)[SLOTS_PER_SECTOR * j + x] == SlotIn(d[lbas[j]], x)
    {
      var k := SLOTS_PER_SECTOR * j + x;
      assert k / SLOTS_PER_SECTOR == j && k % SLOTS_PER_SECTOR == x;
    }
  }

  lemma PassedSector(d: Disk, lbas: seq<nat>, name: Name, j: nat, n: nat)
    requires OnDisk(d, lbas) && j < |lbas| && n <= SLOTS_PER_SECTOR
    requires Passed(Dir(d, lbas), name, SLOTS_PER_SECTOR * j)
    requires forall x :: 0 <= x < n ==> SlotIn(d[lbas[j]], x)[0] != 0 && !Matches(SlotIn(d[lbas[j]], x), name)
    ensures Passed(Dir(d, lbas), name, SLOTS_PER_SECTOR * j + n)
    ensures forall x :: 0 <= x < SLOTS_PER_SECTOR ==> Dir(d, lbas)[SLOTS_PER_SECTOR * j + x] == SlotIn(d[lbas[j]], x)
  {
    DirSector(d, lbas, j);
    forall i | SLOTS_PER_SECTOR * j <= i < SLOTS_PER_SECTOR * j + n
      ensures Dir(d, lbas)[i][0] != 0 && !Matches(Dir(d, lbas)[i], name)
    {
      assert Dir(d, lbas)[i] == SlotIn(d[lbas[j]], i - SLOTS_PER_SECTOR * j);
    }
  }

  lemma PassedNone(slots: seq<Slot>, name: Name)
    ensures Passed(slots, name, 0)
  {
  }

  lemma PassedHit(slots: seq<Slot>, name: Name, k: nat)
    requires Passed(slots, name, k) && k < |slots| && Matches(slots[k], name)
    ensures Find(slots, name) == Some(slots[k])
  {
    FindHit(slots, name, k);
  }

  lemma PassedEnd(slots: seq<Slot>, name: Name, k: nat)
    requires Passed(slots, name, k) && (k == |slots| || slots[k][0] == 0)
    ensures Find(slots, name) == None
  {
    FindMiss(slots, name);
  }

  datatype Entry = Entry(first: nat, size: nat, dir: bool)

  function EntryOf(s: Slot): Entry {
    Entry(FirstOf(s), SizeOf(s), IsDir(s))
  }

  /** Looks `name` up in the directory whose chain `cs` starts at `dir`. */
  method FindInDir(g: Fat32, card: Card, dir: nat, name: Name, ghost cs: seq<nat>) returns (r: Result<Entry>)
    requires g.Valid(|card.disk|) && IsChain(Fat(g, card.disk), cs) && cs[0] == dir
    modifies card`faults
    ensures r.Ok? ==> Find(DirOf(g, card.disk, dir), name).Some? &&
                      r.value == EntryOf(Find(DirOf(g, card.disk, dir), name).value)
    ensures r == Err(NotFound) ==> Find(DirOf(g, card.disk, dir), name) == None
    ensures r.Err? ==> r.error in {Sd, NotFound}
    ensures card.faults == old(card.faults) + Faulted(r)
  {
    hide IsChain, Lbas, Find, Fat, Times, Raw, Cursor, Passed, Content, Run, SlotAt, SlotIn, Matches, InTable,
      ChainOf, DirOf;
    ghost var d := card.disk;
    ChainStep(Fat(g, d), cs, 0);
    ChainViews(g, d, cs);
    ghost var lbas := Lbas(g, cs);
    CursorStart(g, cs);
    PassedNone(Dir(d, lbas), name);
    var cluster := dir;
    ghost var p, j := 0, 0;
    while true
      invariant card.faults == old(card.faults)
      invariant 0 <= p < |cs| && cluster == cs[p] && 2 <= cluster < g.MaxCluster() && Cursor(g, cs, p, 0, j)
      invariant Passed(Dir(d, lbas), name, SLOTS_PER_SECTOR * j)
      decreases |cs| - p
    {
      var lba := g.ClusterToLba(cluster);
      var s := 0;
      while s < g.sectorsPerCluster
        invariant card.faults == old(card.faults)
        invariant 0 <= s <= g.sectorsPerCluster && Cursor(g, cs, p, s, j)
        invariant Passed(Dir(d, lbas), name, SLOTS_PER_SECTOR * j)
      {
        CursorHere(g, cs, p, s, j);
        var sector := card.ReadBlock(lba + s);
        if sector.Err? {
          return Err(sector.error);
        }
        var i, hit := FindInSector(sector.value, name);
        PassedSector(d, lbas, name, j, i);
        if hit {
          PassedHit(Dir(d, lbas), name, SLOTS_PER_SECTOR * j + i);
          return Ok(EntryOf(SlotIn(sector.value, i)));
        }
        if i < SLOTS_PER_SECTOR {
          PassedEnd(Dir(d, lbas), name, SLOTS_PER_SECTOR * j + i);
          return Err(NotFound);
        }
        s := s + 1;
        j := j + 1;
      }
      CursorNext(g, cs, p, j);
      ChainStep(Fat(g, d), cs, p);
      var next := FatEntry(g, card, cluster);
      if next.Err? {
        return Err(next.error);
      }
      if next.value >= END_OF_CHAIN {
        PassedEnd(Dir(d, lbas), name, SLOTS_PER_SECTOR * j);
        return Err(NotFound);
      }
      cluster := next.value;
      p := p + 1;
    }
  }

  // ---------- content ----------

  /** What reading at most `limit` bytes of a chain's content delivers. */
  ghost predicate Copied(content: seq<byte>, out: seq<byte>, n: nat, before: seq<byte>) {
    && n <= |content| && n <= |out| && |out| == |before|
    && out[..n] == content[..n] && out[n..] == before[n..]
  }

  method CopySector(out: array<byte>, at: nat, sector: Sector, take: nat)
    requires take <= SECTOR_SIZE && at + take <= out.Length
    modifies out
    ensures out[..] == old(out[..at]) + sector[..take] + old(out[at + take..])
  {
    forall i | 0 <= i < take {
      out[at + i] := sector[i];
    }
  }

  lemma CopiedStep(
    d: Disk, lbas: seq<nat>, j: nat, out: seq<byte>, out': seq<byte>, before: seq<byte>, n: nat, take: nat)
    requires OnDisk(d, lbas) && j < |lbas| && take <= SECTOR_SIZE
    requires OnDisk(d, lbas[..j]) && n == SECTOR_SIZE * j
    requires Copied(Content(d, lbas), out, n, before) && n + take <= |out|
    requires out' == out[..n] + d[lbas[j]][..take] + out[n + take..]
    ensures Copied(Content(d, lbas), out', n + take, before)
  {
    ContentSnoc(d, lbas, j);
    var all, part := Content(d, lbas), Content(d, lbas[..j + 1]);
    assert all[..n + take] == part[..n + take] == all[..n] + d[lbas[j]][..take] by {
      assert part[..n] == all[..n];
    }
    assert out'[..n + take] == out[..n] + d[lbas[j]][..take];
  }

  /** `written` bytes of the chain's content, from its first `j` blocks, are in `out`. */
  ghost predicate ReadSoFar(
    d: Disk, lbas: seq<nat>, j: nat, out: seq<byte>, before: seq<byte>, written: nat, toRead: nat)
  {
    && OnDisk(d, lbas) && j <= |lbas| && toRead <= |out|
    && written == Min(SECTOR_SIZE * j, toRead)
    && Copied(Content(d, lbas), out, written, before)
  }

  lemma ReadStep(
    d: Disk, lbas: seq<nat>, j: nat, out: seq<byte>, out': seq<byte>, before: seq<byte>, n: nat, toRead: nat, take: nat)
    requires ReadSoFar(d, lbas, j, out, before, n, toRead) && n < toRead && j < |lbas|
    requires take == Min(toRead - n, SECTOR_SIZE)
    requires out' == out[..n] + d[lbas[j]][..take] + out[n + take..]
    ensures ReadSoFar(d, lbas, j + 1, out', before, n + take, toRead)
  {
    CopiedStep(d, lbas, j, out, out', before, n, take);
  }

  lemma ReadDone(
    d: Disk, lbas: seq<nat>, j: nat, out: seq<byte>, before: seq<byte>, n: nat, size: nat, bytes: seq<byte>)
    requires ReadSoFar(d, lbas, j, out, before, n, Min(size, |out|))
    requires n == Min(size, |out|) || j == |lbas|
    requires bytes == Content(d, lbas)[..Min(size, |Content(d, lbas)|)]
    ensures n == Min(|bytes|, |out|) && Copied(bytes, out, n, before)
  {
  }

  /** Copies the sectors of one cluster until it or the request is exhausted. */
  method ReadCluster(
    g: Fat32, card: Card, cluster: nat, out: array<byte>, start: nat, toRead: nat,
    ghost cs: seq<nat>, ghost p: nat, ghost j: nat, ghost before: seq<byte>)
    returns (r: Result<nat>, ghost j': nat)
    requires g.Valid(|card.disk|) && InTable(g, cs) && p < |cs| && cluster == cs[p] && 2 <= cluster
    requires Cursor(g, cs, p, 0, j)
    requires ReadSoFar(card.disk, Lbas(g, cs), j, out[..], before, start, toRead)
    modifies out, card`faults
    ensures r.Ok? ==> ReadSoFar(card.disk, Lbas(g, cs), j', out[..], before, r.value, toRead)
    ensures r.Ok? && r.value < toRead ==> Cursor(g, cs, p, g.sectorsPerCluster, j')
    ensures r.Err? ==> r.error == Sd
    ensures card.faults == old(card.faults) + Faulted(r)
  {
    hide Lbas, Fat, Times, Raw, Cursor, Content, Run, ReadSoFar, Copied;
    ghost var d, lbas := card.disk, Lbas(g, cs);
    var lba := g.ClusterToLba(cluster);
    var s := 0;
    var written: nat := start;
    j' := j;
    while s < g.sectorsPerCluster
      invariant card.faults == old(card.faults)
      invariant 0 <= s <= g.sectorsPerCluster
      invariant written < toRead ==> Cursor(g, cs, p, s, j')
      invariant ReadSoFar(d, lbas, j', out[..], before, written, toRead)
    {
      if written >= toRead {
        break;
      }
      CursorHere(g, cs, p, s, j');
      ReadRoom(d, lbas, j', out[..], before, written, toRead);
      var sector := card.ReadBlock(lba + s);
      if sector.Err? {
        return Err(sector.error), j';
      }
      var take := Min(toRead - written, SECTOR_SIZE);
      ghost var had := out[..];
      CopySector(out, written, sector.value, take);
      ReadStep(d, lbas, j', had, out[..], before, written, toRead, take);
      written := written + take;
      s := s + 1;
      j' := j' + 1;
    }
    return Ok(written), j';
  }

  lemma ReadRoom(d: Disk, lbas: seq<nat>, j: nat, out: seq<byte>, before: seq<byte>, n: nat, toRead: nat)
    requires ReadSoFar(d, lbas, j, out, before, n, toRead)
    ensures n <= toRead <= |out| && OnDisk(d, lbas)
  {
  }

  lemma ReadNothing(d: Disk, lbas: seq<nat>, out: seq<byte>, toRead: nat)
    requires OnDisk(d, lbas) && toRead <= |out|
    ensures ReadSoFar(d, lbas, 0, out, out, 0, toRead)
  {
  }

  /** Reads a file of `size` bytes from the chain `cs` starting at `first`, as far as `out` goes. */
  method ReadFrom(g: Fat32, card: Card, first: nat, size: nat, out: array<byte>, ghost cs: seq<nat>)
    returns (r: Result<nat>)
    requires g.Valid(|card.disk|)
    requires first != 0 ==> IsChain(Fat(g, card.disk), cs) && cs[0] == first
    modifies out, card`faults
    ensures r.Ok? ==> r.value == Min(|FileBytes(g, card.disk, first, size)|, out.Length)
    ensures r.Ok? ==> Copied(FileBytes(g, card.disk, first, size), out[..], r.value, old(out[..]))
    ensures r.Err? ==> r.error == Sd
    ensures card.faults == old(card.faults) + Faulted(r)
  {
    hide IsChain, Lbas, Fat, Times, Raw, Cursor, Content, Run, InTable, ChainOf, ChainBytes, ReadSoFar;
    if first == 0 {
      return Ok(0);
    }
    ghost var d, before := card.disk, out[..];
    ChainStep(Fat(g, d), cs, 0);
    ChainViews(g, d, cs);
    CursorStart(g, cs);
    ghost var lbas := Lbas(g, cs);
    var toRead := Min(size, out.Length);
    ReadNothing(d, lbas, out[..], toRead);
    var written := 0;
    var cluster := first;
    ghost var p, j := 0, 0;
    while written < toRead
      invariant card.faults == old(card.faults)
      invariant 0 <= p < |cs| && cluster == cs[p] && 2 <= cluster < g.MaxCluster()
      invariant written < toRead ==> Cursor(g, cs, p, 0, j)
      invariant ReadSoFar(d, lbas, j, out[..], before, written, toRead)
      decreases |cs| - p
    {
      var copied;
      copied, j := ReadCluster(g, card, cluster, out, written, toRead, cs, p, j, before);
      if copied.Err? {
        return Err(copied.error);
      }
      written := copied.value;
      if written >= toRead {
        break;
      }
      CursorNext(g, cs, p, j);
      ChainStep(Fat(g, d), cs, p);
      var next := FatEntry(g, card, cluster);
      if next.Err? {
        return Err(next.error);
      }
      if next.value >= END_OF_CHAIN {
        ReadDone(d, lbas, j, out[..], before, written, size, FileBytes(g, d, first, size));
        return Ok(written);
      }
      cluster := next.value;
      p := p + 1;
    }
    ReadRoom(d, lbas, j, out[..], before, written, toRead);
    ReadDone(d, lbas, j, out[..], before, written, size, FileBytes(g, d, first, size));
    return Ok(written);
  }

  /** The chain a live entry's first cluster heads, on a well-formed volume. */
  lemma EntryChain(g: Fat32, d: Disk, lay: Layout, name: Name)
    requires Wf(g, d, lay) && Find(DirOf(g, d, g.rootCluster), name).Some?
    ensures var f := FirstOf(Find(DirOf(g, d, g.rootCluster), name).value);
            f != 0 ==> f in lay.chains && IsChain(Fat(g, d), lay.chains[f]) && lay.chains[f][0] == f
  {
    var k := FindWhere(DirOf(g, d, g.rootCluster), name);
    assert EntryOk(lay, DirOf(g, d, g.rootCluster)[k]);
  }

  /**
   * Reads a root-directory entry's content by name: all of it when `out` is large enough, else its
   * first `out.Length` bytes; NotFound exactly when the root directory has no such entry.
   */
  method ReadFile(g: Fat32, card: Card, name: Name, out: array<byte>, ghost lay: Layout) returns (r: Result<nat>)
    requires Wf(g, card.disk, lay)
    modifies out, card`faults
    ensures r.Ok? ==> Find(DirOf(g, card.disk, g.rootCluster), name).Some?
    ensures r.Ok? ==> var e := Find(DirOf(g, card.disk, g.rootCluster), name).value;
                      var content := FileBytes(g, card.disk, FirstOf(e), SizeOf(e));
                      && r.value == Min(|content|, out.Length)
                      && Copied(content, out[..], r.value, old(out[..]))
    ensures r == Err(NotFound) ==> Find(DirOf(g, card.disk, g.rootCluster), name) == None
    ensures r.Err? ==> r.error in {Sd, NotFound}
    ensures card.faults == old(card.faults) + Faulted(r)
  {
    ghost var d := card.disk;
    var entry := FindInDir(g, card, g.rootCluster, name, lay.chains[g.rootCluster]);
    if entry.Err? {
      return Err(entry.error);
    }
    EntryChain(g, d, lay, name);
    var first := entry.value.first;
    r := ReadFrom(g, card, first, entry.value.size, out, if first == 0 then [] else lay.chains[first]);
  }

  /** A one-component path is a root-directory lookup. */
  lemma RootPath(g: Fat32, d: Disk, name: Name)
    requires g.Valid(|d|)
    ensures PathBytes(g, d, [name]) ==
            match Find(DirOf(g, d, g.rootCluster), name)
            case None => None
            case Some(e) => if IsDir(e) then None else Some(FileBytes(g, d, FirstOf(e), SizeOf(e)))
  {
  }

  // ---------- paths ----------

  /**
   * Walks a path component by component from the directory that starts at `start`, into each component that is
   * itself a directory, and returns the last component's entry; the empty path is the directory itself.
   */
  method ResolveFrom(g: Fat32, card: Card, start: nat, path: seq<Name>, ghost lay: Layout) returns (r: Result<Entry>)
    requires Wf(g, card.disk, lay) && start in lay.dirs
    modifies card`faults
    ensures r.Ok? ==> Resolve(g, card.disk, start, path, None) == At(r.value.first, r.value.size, r.value.dir)
    ensures r == Err(NotFound) ==> Resolve(g, card.disk, start, path, None) == Missing
    ensures r.Err? ==> r.error in {Sd, NotFound}
    ensures card.faults == old(card.faults) + Faulted(r)
  {
    hide Wf, DirOf, Find, IsChain, Fat, IsDir, FirstOf, SizeOf;
    ghost var d := card.disk;
    WfValid(g, d, lay);
    var dir, result := start, Entry(start, 0, true);
    assert path[0..] == path;
    for i := 0 to |path|
      invariant card.faults == old(card.faults) && dir in lay.dirs
      invariant Resolve(g, d, start, path, None) ==
                if i < |path| then Resolve(g, d, dir, path[i..], None) else At(result.first, result.size, result.dir)
    {
      DirChain(g, d, lay, dir);
      var entry := FindInDir(g, card, dir, path[i], lay.chains[dir]);
      if entry.Err? {
        return Err(entry.error);
      }
      assert path[i..][1..] == path[i + 1..];
      ghost var k := FindWhere(DirOf(g, d, dir), path[i]);
      NextDirOk(g, d, lay, dir, k);
      result := entry.value;
      if result.dir {
        dir := if result.first == 0 then g.rootCluster else result.first;
      }
    }
    return Ok(result);
  }

  lemma DirChain(g: Fat32, d: Disk, lay: Layout, dir: nat)
    requires Wf(g, d, lay) && dir in lay.dirs
    ensures dir in lay.chains && IsChain(Fat(g, d), lay.chains[dir]) && lay.chains[dir][0] == dir
  {
  }

  /** Where a walk from a directory ends up, on a well-formed volume. */
  lemma {:induction false} WalkEnds(g: Fat32, d: Disk, lay: Layout, dir: nat, path: seq<Name>)
    requires Wf(g, d, lay) && dir in lay.dirs
    ensures var w := Resolve(g, d, dir, path, None);
            && w != Blocked
            && (w.At? && w.first != 0 ==>
                  && w.first in lay.chains
                  && IsChain(Fat(g, d), lay.chains[w.first]) && lay.chains[w.first][0] == w.first
                  && (w.dir ==> w.first in lay.dirs))
    decreases |path|
  {
    hide DirOf, Find, FileBytes, SoleOwners, Closed, UniqueNames, IsDir, FirstOf, SizeOf, Fat, IsChain;
    if path != [] && Find(DirOf(g, d, dir), path[0]).Some? {
      var k := FindWhere(DirOf(g, d, dir), path[0]);
      assert EntryOk(lay, DirOf(g, d, dir)[k]);
      if |path| > 1 {
        NextDirOk(g, d, lay, dir, k);
        WalkEnds(g, d, lay, NextDir(g, dir, DirOf(g, d, dir)[k]), path[1..]);
      }
    }
  }

  datatype Opened = File(len: nat) | Directory(first: nat)

  /** Opens what a path names for reading: a file's first bytes, as many as fit `out`, or a directory. */
  method OpenPath(g: Fat32, card: Card, start: nat, path: seq<Name>, out: array<byte>, ghost lay: Layout)
    returns (r: Result<Opened>)
    requires Wf(g, card.disk, lay) && start in lay.dirs
    modifies out, card`faults
    ensures r.Ok? && r.value.File? ==>
              && Reading(g, card.disk, Resolve(g, card.disk, start, path, None)).Some?
              && var content := Reading(g, card.disk, Resolve(g, card.disk, start, path, None)).value;
                 r.value.len == Min(|content|, out.Length) && Copied(content, out[..], r.value.len, old(out[..]))
    ensures r.Ok? && r.value.Directory? ==>
              && var w := Resolve(g, card.disk, start, path, None);
              && w.At? && w.dir && r.value.first == (if w.first == 0 then g.rootCluster else w.first)
              && r.value.first in lay.dirs && out[..] == old(out[..])
    ensures r == Err(NotFound) ==> Resolve(g, card.disk, start, path, None) == Missing && out[..] == old(out[..])
    ensures r.Err? ==> r.error in {Sd, NotFound}
    ensures card.faults == old(card.faults) + Faulted(r)
  {
    hide Wf, DirOf, Find, IsChain, Fat, IsDir, FirstOf, SizeOf, FileBytes, Copied, Resolve;
    ghost var d := card.disk;
    WfValid(g, d, lay);
    var entry := ResolveFrom(g, card, start, path, lay);
    if entry.Err? {
      return Err(entry.error);
    }
    WalkEnds(g, d, lay, start, path);
    var first := entry.value.first;
    if entry.value.dir {
      return Ok(Directory(if first == 0 then g.rootCluster else first));
    }
    var n := ReadFrom(g, card, first, entry.value.size, out, if first == 0 then [] else lay.chains[first]);
    if n.Err? {
      return Err(n.error);
    }
    return Ok(File(n.value));
  }
}
