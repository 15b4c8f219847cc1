/** EFI_FILE_PROTOCOL handles for root-directory files: a whole-file cache written back on close. */
module FileProtocol {
  import opened Bytes
  import opened Options
  import SdCard
  import opened FatGeometry
  import opened FatDir
  import opened FatVolume
  import FatReader
  import FatWriter

  const MAX_OPEN_FILES := 4
  const MAX_FILE_BYTES := 65536
  const U64_MAX := 0xFFFF_FFFF_FFFF_FFFF

  datatype Status = Success | InvalidParameter | Unsupported | NotFound | OutOfResources | WriteProtected

  // ---------- a byte sequence with a position ----------

  /** What a client believes an open file to be. */
  datatype Cursor = Cursor(content: seq<byte>, pos: nat)

  datatype FileOp = Read(count: nat) | Write(bytes: seq<byte>) | Seek(position: u64)

  datatype Reply = Reply(status: Status, bytes: seq<byte>)

  /** `bytes` laid over `content` from `pos` on, any gap before them filled with zeros. */
  function Overlay(content: seq<byte>, pos: nat, bytes: seq<byte>): (r: seq<byte>)
    ensures |r| == if pos + |bytes| > |content| then pos + |bytes| else |content|
    ensures r[pos..pos + |bytes|] == bytes
    ensures forall i :: 0 <= i < |r| && !(pos <= i < pos + |bytes|) ==>
              r[i] == if i < |content| then content[i] else 0
  {
    (if pos <= |content| then content[..pos] else content + Zeros(pos - |content|))
    + bytes
    + (if pos + |bytes| <= |content| then content[pos + |bytes|..] else [])
  }

  /** The sequence model of each operation, on a file opened with or without write access. */
  function Apply(c: Cursor, op: FileOp, forWrite: bool): (Cursor, Reply) {
    match op
    case Read(count) =>
      var left := if c.pos < |c.content| then |c.content| - c.pos else 0;
      var n := if count < left then count else left;
      if n == 0 then (c, Reply(Success, []))
      else (c.(pos := c.pos + n), Reply(Success, c.content[c.pos..c.pos + n]))
    case Write(bytes) =>
      if !forWrite then (c, Reply(WriteProtected, []))
      else if c.pos + |bytes| > MAX_FILE_BYTES then (c, Reply(OutOfResources, []))
      else (Cursor(Overlay(c.content, c.pos, bytes), c.pos + |bytes|), Reply(Success, []))
    case Seek(position) =>
      if position == U64_MAX then (c.(pos := |c.content|), Reply(Success, []))
      else if position > MAX_FILE_BYTES then (c, Reply(InvalidParameter, []))
      else (c.(pos := position), Reply(Success, []))
  }

  /** What is written at a position is what is read back there, and everything else is as it was. */
  lemma {:induction false} WriteReadsBack(c: Cursor, p: u64, bytes: seq<byte>)
    requires p + |bytes| <= 65536
    ensures var (c1, r1) := Apply(c, Seek(p), true);
            var (c2, r2) := Apply(c1, Write(bytes), true);
            var (c3, r3) := Apply(c2, Seek(p), true);
            var (c4, r4) := Apply(c3, Read(|bytes|), true);
            && r1 == r2 == r3 == Reply(Success, []) && r4 == Reply(Success, bytes)
            && c4.pos == p + |bytes| && c4.content == Overlay(c.content, p, bytes)
  {
  }

  /** Seeking to all ones seeks to the end: what is written there is appended. */
  lemma {:induction false} AppendsAtEnd(c: Cursor, bytes: seq<byte>)
    requires |c.content| + |bytes| <= 65536
    ensures var (c1, r1) := Apply(c, Seek(0xFFFF_FFFF_FFFF_FFFF), true);
            var (c2, r2) := Apply(c1, Write(bytes), true);
            && r1 == r2 == Reply(Success, []) && c1.content == c.content && c1.pos == |c.content|
            && c2.content == c.content + bytes && c2.pos == |c2.content|
  {
    assert c.content[..|c.content|] == c.content;
  }

  /** Reading goes on where the last read stopped: two reads deliver what one of both sizes does, up to the end. */
  lemma {:induction false} ReadsInPieces(c: Cursor, m: nat, n: nat, forWrite: bool)
    ensures var (c1, r1) := Apply(c, Read(m), forWrite);
            var (c2, r2) := Apply(c1, Read(n), forWrite);
            (c2, Reply(Success, r1.bytes + r2.bytes)) == Apply(c, Read(m + n), forWrite)
            && r1.status == r2.status == Success
    ensures var (c', r) := Apply(c, Read(m), forWrite);
            && c'.content == c.content && c'.pos == c.pos + |r.bytes|
            && |r.bytes| == (if c.pos < |c.content| then Min(m, |c.content| - c.pos) else 0)
            && forall i :: 0 <= i < |r.bytes| ==> r.bytes[i] == c.content[c.pos + i]
  {
    var (c1, r1) := Apply(c, Read(m), forWrite);
    var (c2, r2) := Apply(c1, Read(n), forWrite);
    var whole := Apply(c, Read(m + n), forWrite).1.bytes;
    assert r1.bytes + r2.bytes == whole;
  }

  /** Without write access, past 64 KiB, or to a position past 64 KiB: refused, and nothing changes. */
  lemma {:induction false} Refusals(c: Cursor, bytes: seq<byte>, p: u64, forWrite: bool)
    ensures Apply(c, Write(bytes), false) == (c, Reply(WriteProtected, []))
    ensures c.pos + |bytes| > 65536 ==> Apply(c, Write(bytes), true) == (c, Reply(OutOfResources, []))
    ensures 65536 < p < 0xFFFF_FFFF_FFFF_FFFF ==> Apply(c, Seek(p), forWrite) == (c, Reply(InvalidParameter, []))
  {
  }

  // ---------- the cache slot ----------

  datatype OpenFile = OpenFile(
    inUse: bool, name: Name, data: seq<byte>, len: nat, pos: nat, dirty: bool, forWrite: bool)

  const SPACES: Name := seq(11, _ => 0x20)
  const EMPTY_FILE := OpenFile(false, SPACES, Zeros(MAX_FILE_BYTES), 0, 0, false, false)

  /** The cache never holds anything but zeros past the end of the file. */
  ghost predicate Sound(f: OpenFile) {
    && |f.data| == MAX_FILE_BYTES && f.len <= MAX_FILE_BYTES && f.pos <= MAX_FILE_BYTES
    && forall i :: f.len <= i < MAX_FILE_BYTES ==> f.data[i] == 0
  }

  function CursorOf(f: OpenFile): Cursor
    requires f.len <= |f.data|
  {
    Cursor(f.data[..f.len], f.pos)
  }

  /** What the driver does to a slot: the fixed buffer patched in place, length and position moved. */
  function Perform(f: OpenFile, op: FileOp): (OpenFile, Reply)
    requires |f.data| == MAX_FILE_BYTES && f.len <= MAX_FILE_BYTES
  {
    match op
    case Read(count) =>
      var left := if f.len >= f.pos then f.len - f.pos else 0;
      var n := if left < count then left else count;
      if n > 0 then (f.(pos := f.pos + n), Reply(Success, f.data[f.pos..f.pos + n]))
      else (f, Reply(Success, []))
    case Write(bytes) =>
      if !f.forWrite then (f, Reply(WriteProtected, []))
      else if f.pos + |bytes| > MAX_FILE_BYTES then (f, Reply(OutOfResources, []))
      else
        var end := f.pos + |bytes|;
        (f.(data := Patch(f.data, f.pos, bytes), pos := end, len := if f.len > end then f.len else end, dirty := true),
         Reply(Success, []))
    case Seek(position) =>
      if position == U64_MAX then (f.(pos := f.len), Reply(Success, []))
      else if position > MAX_FILE_BYTES then (f, Reply(InvalidParameter, []))
      else (f.(pos := position), Reply(Success, []))
  }

  ghost predicate Refines(f: OpenFile, op: FileOp)
    requires Sound(f)
  {
    var (f', r) := Perform(f, op);
    && Sound(f') && f'.name == f.name && f'.inUse == f.inUse && f'.forWrite == f.forWrite
    && (CursorOf(f'), r) == Apply(CursorOf(f), op, f.forWrite)
    && (!f'.dirty ==> f'.data == f.data && f'.len == f.len)
  }

  lemma WriteRefines(f: OpenFile, bytes: seq<byte>)
    requires Sound(f)
    ensures Refines(f, Write(bytes))
  {
    hide Overlay, Patch;
    if f.forWrite && f.pos + |bytes| <= MAX_FILE_BYTES {
      PatchIsOverlay(f, bytes);
    }
  }

  lemma ReadRefines(f: OpenFile, count: nat)
    requires Sound(f)
    ensures Refines(f, Read(count))
  {
    var n := |Perform(f, Read(count)).1.bytes|;
    if n > 0 {
      SliceOfSlice(f.data, 0, f.len, f.pos, f.pos + n);
    }
  }

  lemma SeekRefines(f: OpenFile, position: u64)
    requires Sound(f)
    ensures Refines(f, Seek(position))
  {
  }

  /** One operation on the cache is that operation on the byte sequence. */
  lemma PerformRefines(f: OpenFile, op: FileOp)
    requires Sound(f)
    ensures var (f', r) := Perform(f, op);
            && Sound(f') && f'.name == f.name && f'.inUse == f.inUse && f'.forWrite == f.forWrite
            && (CursorOf(f'), r) == Apply(CursorOf(f), op, f.forWrite)
            && (!f'.dirty ==> f'.data == f.data && f'.len == f.len)
  {
    hide Perform, Apply, Sound;
    match op
    case Write(bytes) => WriteRefines(f, bytes);
    case Read(count) => ReadRefines(f, count);
    case Seek(position) => SeekRefines(f, position);
  }

  /** Patching the zero-padded buffer is overlaying the content. */
  lemma PatchIsOverlay(f: OpenFile, bytes: seq<byte>)
    requires Sound(f) && f.pos + |bytes| <= MAX_FILE_BYTES
    ensures var end := f.pos + |bytes|;
            var len := if f.len > end then f.len else end;
            Patch(f.data, f.pos, bytes)[..len] == Overlay(f.data[..f.len], f.pos, bytes)
  {
    hide Overlay, Patch;
    var end := f.pos + |bytes|;
    var len := if f.len > end then f.len else end;
    var now, goal := Patch(f.data, f.pos, bytes), Overlay(f.data[..f.len], f.pos, bytes);
    forall i | 0 <= i < len
      ensures now[i] == goal[i]
    {
      if f.pos <= i < end {
        assert now[f.pos..end][i - f.pos] == goal[f.pos..end][i - f.pos];
      }
    }
    assert now[..len] == goal;
  }

  function PerformAll(f: OpenFile, ops: seq<FileOp>): (r: (OpenFile, seq<Reply>))
    requires |f.data| == MAX_FILE_BYTES && f.len <= MAX_FILE_BYTES
    ensures |r.0.data| == MAX_FILE_BYTES && r.0.len <= MAX_FILE_BYTES
  {
    if ops == [] then (f, [])
    else
      var n := |ops| - 1;
      var (f1, rs) := PerformAll(f, ops[..n]);
      var (f2, r) := Perform(f1, ops[n]);
      (f2, rs + [r])
  }

  function ApplyAll(c: Cursor, ops: seq<FileOp>, forWrite: bool): (Cursor, seq<Reply>) {
    if ops == [] then (c, [])
    else
      var n := |ops| - 1;
      var (c1, rs) := ApplyAll(c, ops[..n], forWrite);
      var (c2, r) := Apply(c1, ops[n], forWrite);
      (c2, rs + [r])
  }

  /** Any sequence of reads, writes and seeks answers like the byte sequence, and leaves its content. */
  lemma {:induction false} RunRefines(f: OpenFile, ops: seq<FileOp>)
    requires Sound(f)
    ensures var (f', rs) := PerformAll(f, ops);
            && Sound(f') && f'.name == f.name && f'.inUse == f.inUse && f'.forWrite == f.forWrite
            && (CursorOf(f'), rs) == ApplyAll(CursorOf(f), ops, f.forWrite)
            && (!f'.dirty ==> f'.data == f.data && f'.len == f.len)
  {
    if ops != [] {
      var n := |ops| - 1;
      RunRefines(f, ops[..n]);
      PerformRefines(PerformAll(f, ops[..n]).0, ops[n]);
    }
  }

  // ---------- the handle table ----------

  /**
   * What reading the root entry of that name delivers. The driver does not look at what kind of entry it
   * is: for a file these are its bytes, for a directory those of its clusters up to the recorded size,
   * which the FAT specification makes 0.
   */
  ghost function Shown(g: Fat32, d: SdCard.Disk, name: Name): Option<seq<byte>>
    requires g.Valid(|d|)
  {
    match Find(DirOf(g, d, g.rootCluster), name)
    case None => None
    case Some(e) => Some(FileBytes(g, d, FirstOf(e), SizeOf(e)))
  }

  /** For a name that is not a directory's that is what its path reads as. */
  lemma ShownIsPath(g: Fat32, d: SdCard.Disk, name: Name)
    requires g.Valid(|d|)
    ensures FatWriter.Storable(g, d, name) || PathBytes(g, d, [name]).Some? ==>
              Shown(g, d, name) == PathBytes(g, d, [name])
    ensures PathBytes(g, d, [name]).Some? && name[0] !in {0, FREE_MARK} ==> FatWriter.Storable(g, d, name)
  {
    FatReader.RootPath(g, d, name);
  }

  /** The slot's file on disk, when the whole of it fits the cache. */
  ghost predicate Synced(g: Fat32, d: SdCard.Disk, f: OpenFile)
    requires g.Valid(|d|) && f.len <= |f.data|
  {
    Shown(g, d, f.name) == Some(f.data[..f.len])
  }

  /** The volume has no room for the slot's content. */
  ghost predicate NoRoom(g: Fat32, d: SdCard.Disk, f: OpenFile)
    requires g.Valid(|d|)
  {
    !FatWriter.HasRoom(g, d, f.name, f.len)
  }

  /** As much of a file as the cache takes. */
  function Cut(content: seq<byte>): seq<byte> {
    content[..Min(|content|, MAX_FILE_BYTES)]
  }

  /** `bytes` are what a handle on the file caches. */
  ghost predicate CutOf(g: Fat32, d: SdCard.Disk, name: Name, bytes: seq<byte>)
    requires g.Valid(|d|)
  {
    Shown(g, d, name).Some? && bytes == Cut(Shown(g, d, name).value)
  }

  /**
   * What opening a file does when the card works: a file that exists is found and left as it is, and
   * creating one fails only on a volume with no room for it.
   */
  ghost predicate FetchedSoundly(
    g: Fat32, d: SdCard.Disk, d': SdCard.Disk, name: Name, create: bool, status: Status)
    requires g.Valid(|d|)
  {
    && (Shown(g, d, name).Some? ==> d' == d && status !in {NotFound, Unsupported})
    && (status == Unsupported ==> create && !FatWriter.HasRoom(g, d, name, 0))
  }

  lemma EmptySound()
    ensures Sound(EMPTY_FILE)
  {
  }

  /** A freshly loaded slot holds the bytes read and zeros after them. */
  lemma LoadedSound(name: Name, bytes: seq<byte>, forWrite: bool)
    requires |bytes| <= MAX_FILE_BYTES
    ensures var f := OpenFile(true, name, Patch(Zeros(MAX_FILE_BYTES), 0, bytes), |bytes|, 0, false, forWrite);
            Sound(f) && CursorOf(f) == Cursor(bytes, 0)
  {
  }

  lemma ReadIsCut(content: seq<byte>, out: seq<byte>, n: nat, before: seq<byte>)
    requires FatReader.Copied(content, out, n, before) && n == Min(|content|, |out|) && |out| == MAX_FILE_BYTES
    ensures out[..n] == Cut(content)
  {
  }

  lemma CutWhole(content: seq<byte>)
    requires |content| <= MAX_FILE_BYTES
    ensures Cut(content) == content
  {
  }

  /** The cache holds the whole file if and only if the file is no longer than the cache. */
  lemma WholeIffShort(g: Fat32, d: SdCard.Disk, f: OpenFile)
    requires g.Valid(|d|) && f.len <= |f.data| && CutOf(g, d, f.name, f.data[..f.len])
    ensures Synced(g, d, f) <==> |Shown(g, d, f.name).value| <= MAX_FILE_BYTES
  {
    var content := Shown(g, d, f.name).value;
    assert |Cut(content)| == Min(|content|, MAX_FILE_BYTES);
    if |content| <= MAX_FILE_BYTES {
      assert Cut(content) == content;
    }
  }

  class FileTable {
    const files: array<OpenFile>
    const scratch: array<byte>

    ghost predicate Valid()
      reads this, files
    {
      && files.Length == MAX_OPEN_FILES && scratch.Length == MAX_FILE_BYTES
      && forall i :: 0 <= i < files.Length ==> Sound(files[i])
    }

    constructor ()
      ensures Valid() && fresh(files) && fresh(scratch)
      ensures files.Length == 4 && forall i :: 0 <= i < files.Length ==> !files[i].inUse
    {
      files := new OpenFile[MAX_OPEN_FILES](_ => EMPTY_FILE);
      scratch := new byte[MAX_FILE_BYTES](_ => 0);
      EmptySound();
    }

    /** Which slot a handle stands for; None for a handle that is not open. */
    function Slot(handle: nat): Option<nat>
      reads this, files
    {
      if handle < files.Length && files[handle].inUse then Some(handle) else None
    }

    /** Takes the first unused slot, reset to the empty file. */
    method AllocSlot() returns (r: Option<nat>)
      requires Valid()
      modifies files
      ensures Valid()
      ensures r.Some? ==> r.value < files.Length && !old(files[r.value].inUse)
                          && (forall j :: 0 <= j < r.value ==> old(files[j].inUse))
                          && files[..] == old(files[..])[r.value := EMPTY_FILE.(inUse := true)]
      ensures r.None? ==> files[..] == old(files[..]) && forall i :: 0 <= i < files.Length ==> files[i].inUse
    {
      EmptySound();
      var i := 0;
      while i < files.Length
        invariant 0 <= i <= files.Length && files[..] == old(files[..])
        invariant forall j :: 0 <= j < i ==> files[j].inUse
      {
        if !files[i].inUse {
          files[i] := EMPTY_FILE;
          files[i] := files[i].(inUse := true);
          return Some(i);
        }
        i := i + 1;
      }
      return None;
    }

    /** Reads the file into the scratch buffer, creating it empty on request when reading it fails. */
    method FetchOrCreate(g: Fat32, card: SdCard.Card, name: Name, create: bool, ghost lay: Layout)
      returns (status: Status, len: nat, ghost lay': Layout)
      requires scratch.Length == MAX_FILE_BYTES && Wf(g, card.disk, lay) && FatWriter.Writable(g, card.disk, name)
      modifies scratch, card
      ensures FatWriter.SafeFor(g, old(card.disk), card.disk, name) && |card.disk| == |old(card.disk)|
      ensures card.disk == old(card.disk) || create
      ensures status == Success ==>
                && (card.disk == old(card.disk) || FatWriter.Severed(g, old(card.disk), name) ==>
                      Wf(g, card.disk, lay'))
                && (card.disk == old(card.disk) || FatWriter.Storable(g, card.disk, name))
                && len <= scratch.Length && CutOf(g, card.disk, name, scratch[..len])
                && (card.disk == old(card.disk) || len == 0)
      ensures status in {Success, NotFound, Unsupported}
      ensures status == NotFound ==> !create && card.disk == old(card.disk)
      ensures card.faults >= old(card.faults)
      ensures card.faults == old(card.faults) ==> FetchedSoundly(g, old(card.disk), card.disk, name, create, status)
      ensures status == Success && card.faults > old(card.faults) ==>
                create && PathBytes(g, card.disk, [name]) == Some([])
    {
      hide Wf, FatWriter.Safe, FatWriter.SafeAround, FatWriter.Storable, PathBytes, FileBytes, DirOf, Find, AllKept,
        FatReader.Copied, Mirrored, FatWriter.HasRoom, FatWriter.HeldBy, FatWriter.Writable, FatWriter.DirNamed,
        FatWriter.ClustersFor, FatWriter.Severed;
      ghost var d := card.disk;
      ghost var before := scratch[..];
      len, lay' := 0, lay;
      OpenStart(g, d, lay, name);
      var read := FatReader.ReadFile(g, card, name, scratch, lay);
      if read.Ok? {
        len := read.value;
        ReadIsCut(Shown(g, d, name).value, scratch[..], len, before);
        assert scratch[..][..len] == scratch[..len];
        return Success, len, lay';
      } else if create {
        var made;
        made, lay' := FatWriter.WriteFile(g, card, name, [], lay);
        NameIsNoMark(g, d, name);
        ShownIsPath(g, card.disk, name);
        assert scratch[..len] == [];
        return if made.Err? then Unsupported else Success, len, lay';
      }
      return NotFound, len, lay';
    }

    /**
     * Opens a root-directory file, creating it empty on request when reading it fails. A handle that
     * is handed out caches what the file holds on disk: all of it if and only if that is at most 64 KiB.
     * A directory of that name is opened like a file, as the driver does not look.
     * When the card failed and the open succeeds all the same, the file is now empty, whatever it held.
     */
    method OpenRootFile(
      g: Fat32, card: SdCard.Card, name: Name, forWrite: bool, create: bool, ghost lay: Layout)
      returns (status: Status, handle: nat, ghost lay': Layout)
      requires Valid() && Wf(g, card.disk, lay) && FatWriter.Writable(g, card.disk, name)
      requires files as object != scratch as object
      modifies files, scratch, card
      ensures Valid() && FatWriter.SafeFor(g, old(card.disk), card.disk, name) && |card.disk| == |old(card.disk)|
      ensures card.disk == old(card.disk) || create
      ensures status == Success ==>
                && (card.disk == old(card.disk) || FatWriter.Severed(g, old(card.disk), name) ==>
                      Wf(g, card.disk, lay'))
                && (card.disk == old(card.disk) || FatWriter.Storable(g, card.disk, name))
                && handle < files.Length && !old(files[handle].inUse)
                && var f := files[handle];
                && f.inUse && f.name == name && f.pos == 0 && !f.dirty && f.forWrite == forWrite
                && CutOf(g, card.disk, name, f.data[..f.len])
                && (Synced(g, card.disk, f) <==> |Shown(g, card.disk, name).value| <= MAX_FILE_BYTES)
                && (card.disk == old(card.disk) || f.len == 0)
                && (forall i :: 0 <= i < files.Length && i != handle ==> files[i] == old(files[i]))
      ensures status != Success ==> files[..] == old(files[..])
      ensures status in {Success, NotFound, Unsupported, OutOfResources}
      ensures status == NotFound ==> !create && card.disk == old(card.disk)
      ensures status == OutOfResources ==> forall i :: 0 <= i < files.Length ==> files[i].inUse
      ensures card.faults >= old(card.faults)
      ensures card.faults == old(card.faults) ==> FetchedSoundly(g, old(card.disk), card.disk, name, create, status)
      ensures status == Success && card.faults > old(card.faults) ==>
                create && PathBytes(g, card.disk, [name]) == Some([])
    {
      hide Wf, FatWriter.SafeFor, FatWriter.Storable, FatWriter.Writable, FatWriter.Severed, PathBytes, Sound,
        FatWriter.HasRoom, Synced, CutOf, Shown;
      WfValid(g, card.disk, lay);
      handle := 0;
      var len;
      status, len, lay' := FetchOrCreate(g, card, name, create, lay);
      if status != Success {
        return;
      }
      var bytes := scratch[..len];
      var slot := AllocSlot();
      if slot.None? {
        return OutOfResources, handle, lay';
      }
      handle := slot.value;
      LoadedSound(name, bytes, forWrite);
      files[handle] := OpenFile(true, name, Patch(Zeros(MAX_FILE_BYTES), 0, bytes), len, 0, false, forWrite);
      WholeIffShort(g, card.disk, files[handle]);
    }

    method ReadHandle(handle: nat, count: nat) returns (r: Reply)
      requires Valid()
      modifies files
      ensures Valid()
      ensures match old(Slot(handle))
              case None => r == Reply(InvalidParameter, []) && files[..] == old(files[..])
              case Some(i) =>
                && (files[i], r) == Perform(old(files[i]), Read(count))
                && files[..] == old(files[..])[i := files[i]]
    {
      if handle >= files.Length || !files[handle].inUse {
        return Reply(InvalidParameter, []);
      }
      var f := files[handle];
      PerformRefines(f, Read(count));
      var left := if f.len >= f.pos then f.len - f.pos else 0;
      var n := if left < count then left else count;
      var bytes: seq<byte> := [];
      if n > 0 {
        bytes := f.data[f.pos..f.pos + n];
        files[handle] := f.(pos := f.pos + n);
      }
      return Reply(Success, bytes);
    }

    method WriteHandle(handle: nat, bytes: seq<byte>) returns (r: Reply)
      requires Valid()
      modifies files
      ensures Valid()
      ensures match old(Slot(handle))
              case None => r == Reply(InvalidParameter, []) && files[..] == old(files[..])
              case Some(i) =>
                && (files[i], r) == Perform(old(files[i]), Write(bytes))
                && files[..] == old(files[..])[i := files[i]]
    {
      if handle >= files.Length || !files[handle].inUse {
        return Reply(InvalidParameter, []);
      }
      var f := files[handle];
      PerformRefines(f, Write(bytes));
      if !f.forWrite {
        return Reply(WriteProtected, []);
      }
      if f.pos + |bytes| > MAX_FILE_BYTES {
        return Reply(OutOfResources, []);
      }
      files[handle] := files[handle].(data := Patch(f.data, f.pos, bytes));
      files[handle] := files[handle].(pos := f.pos + |bytes|);
      files[handle] := files[handle].(len := if f.len > files[handle].pos then f.len else files[handle].pos);
      files[handle] := files[handle].(dirty := true);
      return Reply(Success, []);
    }

    method SetPosition(handle: nat, position: u64) returns (r: Reply)
      requires Valid()
      modifies files
      ensures Valid()
      ensures match old(Slot(handle))
              case None => r == Reply(InvalidParameter, []) && files[..] == old(files[..])
              case Some(i) =>
                && (files[i], r) == Perform(old(files[i]), Seek(position))
                && files[..] == old(files[..])[i := files[i]]
    {
      if handle >= files.Length || !files[handle].inUse {
        return Reply(InvalidParameter, []);
      }
      PerformRefines(files[handle], Seek(position));
      if position == U64_MAX {
        files[handle] := files[handle].(pos := files[handle].len);
      } else if position > MAX_FILE_BYTES {
        return Reply(InvalidParameter, []);
      } else {
        files[handle] := files[handle].(pos := position);
      }
      return Reply(Success, []);
    }

    /**
     * Writes a dirty cache back and marks it clean. A failed write is not reported: `landed` tells
     * whether the disk really holds the cached bytes afterwards.
     */
    method FlushIfDirty(g: Fat32, card: SdCard.Card, i: nat, ghost lay: Layout)
      returns (ghost landed: bool, ghost lay': Layout)
      requires Valid() && i < files.Length
      requires Wf(g, card.disk, lay) && FatWriter.Writable(g, card.disk, files[i].name)
      modifies files, card
      ensures Valid() && FatWriter.SafeFor(g, old(card.disk), card.disk, files[i].name)
      ensures |card.disk| == |old(card.disk)|
      ensures files[..] == old(files[..])[i := old(files[i]).(dirty := old(files[i].dirty && !files[i].forWrite))]
      ensures landed && FatWriter.Severed(g, old(card.disk), files[i].name) ==> Wf(g, card.disk, lay')
      ensures old(!(files[i].forWrite && files[i].dirty)) ==> landed && card.disk == old(card.disk)
      ensures landed && old(files[i].forWrite && files[i].dirty) ==>
                Synced(g, card.disk, files[i]) && FatWriter.Storable(g, card.disk, files[i].name)
      ensures card.faults >= old(card.faults)
      ensures !landed ==> card.faults > old(card.faults) || NoRoom(g, old(card.disk), files[i])
    {
      hide Wf, FatWriter.Safe, FatWriter.SafeAround, FatWriter.Storable, PathBytes, Sound, AllKept, Mirrored, Shown,
        FatWriter.HasRoom, FatWriter.HeldBy, FatWriter.Writable, FatWriter.DirNamed, FatWriter.ClustersFor,
        FatWriter.Severed;
      landed, lay' := true, lay;
      OpenStart(g, card.disk, lay, files[i].name);
      CleanSound(files[i]);
      if files[i].forWrite && files[i].dirty {
        var name := files[i].name;
        var data := files[i].data[..files[i].len];
        var e;
        e, lay' := FatWriter.WriteFile(g, card, name, data, lay);
        landed := e.Ok?;
        NameIsNoMark(g, old(card.disk), name);
        ShownIsPath(g, card.disk, name);
        files[i] := files[i].(dirty := false);
      }
    }

    /** Closes a handle, writing back first; closing reports success whether or not the write landed. */
    method CloseHandle(g: Fat32, card: SdCard.Card, handle: nat, ghost lay: Layout)
      returns (status: Status, ghost landed: bool, ghost lay': Layout)
      requires Valid() && Wf(g, card.disk, lay)
      requires Slot(handle).Some? ==> FatWriter.Writable(g, card.disk, files[handle].name)
      modifies files, card
      ensures Valid() && |card.disk| == |old(card.disk)|
      ensures old(Slot(handle)).None? ==>
                status == InvalidParameter && landed && lay' == lay
                && card.disk == old(card.disk) && files[..] == old(files[..])
      ensures old(Slot(handle)).Some? ==>
                && status == Success && !files[handle].inUse
                && FatWriter.SafeFor(g, old(card.disk), card.disk, old(files[handle].name))
                && (forall j :: 0 <= j < files.Length && j != handle ==> files[j] == old(files[j]))
                && (landed && FatWriter.Severed(g, old(card.disk), old(files[handle].name)) ==> Wf(g, card.disk, lay'))
                && (landed && old(files[handle].forWrite && files[handle].dirty) ==>
                      Synced(g, card.disk, old(files[handle]))
                      && FatWriter.Storable(g, card.disk, old(files[handle].name)))
                && (old(!(files[handle].forWrite && files[handle].dirty)) ==>
                      landed && card.disk == old(card.disk))
      ensures card.faults >= old(card.faults)
      ensures !landed ==> handle < files.Length
                          && (card.faults > old(card.faults) || NoRoom(g, old(card.disk), old(files[handle])))
    {
      hide Wf, FatWriter.SafeFor, FatWriter.Storable, FatWriter.Writable, FatWriter.Severed, Shown, Sound,
        FatWriter.HasRoom;
      landed, lay' := true, lay;
      WfValid(g, card.disk, lay);
      if handle >= files.Length || !files[handle].inUse {
        return InvalidParameter, landed, lay';
      }
      landed, lay' := FlushIfDirty(g, card, handle, lay);
      UnusedSound(files[handle]);
      files[handle] := files[handle].(inUse := false);
      return Success, landed, lay';
    }
  }

  lemma OpenStart(g: Fat32, d: SdCard.Disk, lay: Layout, name: Name)
    requires Wf(g, d, lay)
    ensures g.Valid(|d|) && FatWriter.SafeFor(g, d, d, name)
  {
    WfValid(g, d, lay);
    FatWriter.SafeForRefl(g, d, lay, name);
  }

  lemma NameIsNoMark(g: Fat32, d: SdCard.Disk, name: Name)
    requires g.Valid(|d|) && FatWriter.Writable(g, d, name)
    ensures name[0] !in {0, FREE_MARK}
  {
  }

  lemma CleanSound(f: OpenFile)
    requires Sound(f)
    ensures Sound(f.(dirty := false)) && f.len <= |f.data| == MAX_FILE_BYTES
  {
  }

  lemma UnusedSound(f: OpenFile)
    requires Sound(f)
    ensures Sound(f.(inUse := false))
  {
  }

  lemma PerformAllSnoc(f: OpenFile, ops: seq<FileOp>, i: nat)
    requires |f.data| == MAX_FILE_BYTES && f.len <= MAX_FILE_BYTES && i < |ops|
    ensures var (f1, rs) := PerformAll(f, ops[..i]);
            var (f2, r) := Perform(f1, ops[i]);
            PerformAll(f, ops[..i + 1]) == (f2, rs + [r])
  {
    assert ops[..i + 1][..i] == ops[..i];
  }

  /** Performs the operations one call at a time. */
  method RunOps(table: FileTable, handle: nat, ops: seq<FileOp>) returns (replies: seq<Reply>)
    requires table.Valid() && handle < table.files.Length && table.files[handle].inUse
    modifies table.files
    ensures table.Valid()
    ensures (table.files[handle], replies) == PerformAll(old(table.files[handle]), ops)
    ensures forall j :: 0 <= j < table.files.Length && j != handle ==> table.files[j] == old(table.files[j])
  {
    hide Perform, Sound, PerformAll;
    ghost var f := table.files[handle];
    CleanSound(f);
    replies := [];
    var i := 0;
    RunNothing(f, ops);
    while i < |ops|
      invariant 0 <= i <= |ops| && table.Valid()
      invariant (table.files[handle], replies) == PerformAll(f, ops[..i]) && table.files[handle].inUse
      invariant forall j :: 0 <= j < table.files.Length && j != handle ==> table.files[j] == old(table.files[j])
    {
      PerformAllSnoc(f, ops, i);
      PerformRefines(table.files[handle], ops[i]);
      ghost var was := table.files[..];
      var r;
      match ops[i] {
        case Read(count) => r := table.ReadHandle(handle, count);
        case Write(bytes) => r := table.WriteHandle(handle, bytes);
        case Seek(position) => r := table.SetPosition(handle, position);
      }
      assert forall j :: 0 <= j < table.files.Length && j != handle ==> table.files[..][j] == was[j];
      replies := replies + [r];
      i := i + 1;
    }
    assert ops[..i] == ops;
  }

  lemma RunNothing(f: OpenFile, ops: seq<FileOp>)
    requires |f.data| == MAX_FILE_BYTES && f.len <= MAX_FILE_BYTES
    ensures PerformAll(f, ops[..0]) == (f, [])
  {
  }

  lemma RunRefinesHere(f: OpenFile, ops: seq<FileOp>, f': OpenFile, rs: seq<Reply>)
    requires Sound(f) && (f', rs) == PerformAll(f, ops)
    ensures f'.name == f.name && f'.inUse == f.inUse && f'.forWrite == f.forWrite && |f'.data| == MAX_FILE_BYTES
    ensures f'.len <= MAX_FILE_BYTES && (CursorOf(f'), rs) == ApplyAll(CursorOf(f), ops, f.forWrite)
    ensures !f'.dirty ==> f'.data == f.data && f'.len == f.len
    ensures !f.forWrite ==> f'.data == f.data && f'.len == f.len
  {
    RunRefines(f, ops);
    if !f.forWrite {
      ReadOnlyRun(f, ops);
    }
  }

  lemma {:induction false} ReadOnlyRun(f: OpenFile, ops: seq<FileOp>)
    requires |f.data| == MAX_FILE_BYTES && f.len <= MAX_FILE_BYTES && !f.forWrite
    ensures var f' := PerformAll(f, ops).0; f'.data == f.data && f'.len == f.len && !f'.forWrite
  {
    if ops != [] {
      ReadOnlyRun(f, ops[..|ops| - 1]);
    }
  }

  /**
   * Open, use and close: the replies are those of a plain byte sequence starting from what the file
   * held, as far as the cache takes it, and, unless the silent write-back failed, opening the file again
   * starts from the sequence's final content; a file longer than the cache is only ever cut short by a
   * session that wrote. With a sound card the session starts from an empty file only where there was
   * none, and the write-back of an existing file fails only for want of room. The name may be a
   * directory's, if nothing else leads to that directory.
   */
  method Session(
    table: FileTable, g: Fat32, card: SdCard.Card, name: Name, forWrite: bool, create: bool, ops: seq<FileOp>,
    ghost lay: Layout)
    returns (outcome: Status, replies: seq<Reply>, ghost before: seq<byte>, ghost landed: bool, ghost lay': Layout)
    requires table.Valid() && Wf(g, card.disk, lay)
    requires FatWriter.Writable(g, card.disk, name) && FatWriter.Severed(g, card.disk, name)
    requires table.files as object != table.scratch as object
    modifies table.files, table.scratch, card
    ensures table.Valid() && FatWriter.SafeFor(g, old(card.disk), card.disk, name) && |card.disk| == |old(card.disk)|
    ensures outcome == Success ==> replies == ApplyAll(Cursor(before, 0), ops, forWrite).1
    ensures outcome == Success ==>
              CutOf(g, old(card.disk), name, before) || (create && before == [])
    ensures outcome == Success && landed ==>
              && Wf(g, card.disk, lay')
              && FatWriter.Writable(g, card.disk, name) && FatWriter.Severed(g, card.disk, name)
              && CutOf(g, card.disk, name, ApplyAll(Cursor(before, 0), ops, forWrite).0.content)
              && (|Shown(g, card.disk, name).value| > MAX_FILE_BYTES ==>
                    ApplyAll(Cursor(before, 0), ops, forWrite).0.content == before)
    ensures outcome == Success && card.faults == old(card.faults) ==>
              match Shown(g, old(card.disk), name)
              case Some(content) =>
                && before == Cut(content)
                && (!landed ==> !FatWriter.HasRoom(
                                   g, old(card.disk), name, |ApplyAll(Cursor(before, 0), ops, forWrite).0.content|))
              case None => create && before == []
  {
    hide Wf, FatWriter.SafeFor, FatWriter.Storable, FatWriter.Writable, FatWriter.Severed, FatWriter.DirNamed,
      PathBytes, FatWriter.HasRoom, Shown, Sound, Perform, PerformAll, ApplyAll;
    ghost var d := card.disk;
    WfValid(g, d, lay);
    replies, before, landed := [], [], false;
    var handle;
    outcome, handle, lay' := table.OpenRootFile(g, card, name, forWrite, create, lay);
    if outcome != Success {
      return;
    }
    ghost var d1 := card.disk;
    if d1 != d {
      FatWriter.StorableIsSevered(g, d1, lay', name);
    }
    ghost var f := table.files[handle];
    CleanSound(f);
    before := f.data[..f.len];
    replies := RunOps(table, handle, ops);
    ghost var f' := table.files[handle];
    RunRefinesHere(f, ops, f', replies);
    var closed;
    closed, landed, lay' := table.CloseHandle(g, card, handle, lay');
    FatWriter.SafeForTrans(g, d, d1, card.disk, name);
    if landed && f'.dirty && f'.forWrite {
      FatWriter.StorableIsSevered(g, card.disk, lay', name);
      CutWhole(f'.data[..f'.len]);
      assert Synced(g, card.disk, f');
    }
  }
}
