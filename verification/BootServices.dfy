/** The boot services that allocate memory, report the memory map and end boot time. */
module BootServices {
  import opened Bytes
  import opened Options
  import opened PageAllocator
  import opened MemoryMap

  const DESCRIPTOR_SIZE := 40

  datatype Status = Success | Unsupported | InvalidParameter | BufferTooSmall | OutOfResources | NotFound

  datatype Firmware = Firmware(firmwareEnd: nat, alloc: Allocator, fbBase: u64, fbSize: u64, exited: bool) {
    function Layout(): Layout {
      MemoryMap.Layout(firmwareEnd, alloc.mark, fbBase, fbSize)
    }
  }

  datatype Call =
    | SetFramebuffer(base: u64, size: u64)
    | AllocatePages(pages: u64)
    | AllocatePool(size: u64)
    | LoadImage(image: Option<u64>)           // the image's pages, unless the loader rejects it before allocating
    | LocateHandleBuffer(handles: byte)      // how many handles match
    | ProtocolsPerHandle(count: Option<byte>) // how many protocols the handle carries, if there is such a handle
    | GetMemoryMap(size: u64)
    | ExitBootServices(key: u64)
    | FreePages
    | FreePool

  datatype Reply = Done(status: Status) | Granted(base: nat) | MapReply(regions: seq<Descriptor>, key: nat)

  /** Whole pages for `size` bytes, at least one; the rounding wraps as 64-bit arithmetic does. */
  function PoolPages(size: u64): (pages: u64)
    ensures pages >= 1
    ensures size <= RAM_LIMIT ==> Fits(pages) && size <= pages * PAGE_SIZE
  {
    var pages := (size + PAGE_SIZE - 1) % WORD / PAGE_SIZE;
    if pages == 0 then 1 else pages
  }

  function Grant(f: Firmware, pages: u64, failure: Status): (Firmware, Reply) {
    var (alloc, base) := Allocate(f.alloc, pages);
    match base
    case Some(b) => (f.(alloc := alloc), Granted(b))
    case None => (f, Done(failure))
  }

  function Do(f: Firmware, c: Call): (Firmware, Reply) {
    match c
    case SetFramebuffer(base, size) => (f.(fbBase := base, fbSize := size), Done(Success))
    case AllocatePages(pages) => if f.exited then (f, Done(Unsupported)) else Grant(f, pages, OutOfResources)
    case AllocatePool(size) => if f.exited then (f, Done(Unsupported)) else Grant(f, PoolPages(size), OutOfResources)
    case LoadImage(image) =>
      if f.exited || image.None? then (f, Done(Unsupported)) else Grant(f, image.value, Unsupported)
    case LocateHandleBuffer(handles) =>
      if handles == 0 then (f, Done(NotFound)) else Grant(f, PoolPages(handles * 8), OutOfResources)
    case ProtocolsPerHandle(count) =>
      if count.None? then (f, Done(InvalidParameter))
      else if count.value == 0 then (f, Done(Success))
      else Grant(f, PoolPages(count.value * 8 + count.value * 16), OutOfResources)
    case GetMemoryMap(size) =>
      var regions := Map(f.Layout());
      if size / DESCRIPTOR_SIZE < |regions| then (f, Done(BufferTooSmall))
      else (f, MapReply(regions, f.alloc.generation))
    case ExitBootServices(key) =>
      if f.exited then (f, Done(Success))
      else if key != f.alloc.generation then (f, Done(InvalidParameter))
      else (f.(exited := true), Done(Success))
    case FreePages => (f, Done(Success))
    case FreePool => (f, Done(Success))
  }

  class Services {
    const firmwareEnd: nat
    var nextFreePage: nat
    var generation: nat
    var fbBase: u64
    var fbSize: u64
    var exited: bool

    ghost function State(): Firmware
      reads this
    {
      Firmware(firmwareEnd, Allocator(nextFreePage, generation), fbBase, fbSize, exited)
    }

    constructor (end: nat)
      ensures State() == Firmware(PageAlignUp(end), Allocator(PageAlignUp(end), 0), 0, 0, false)
    {
      firmwareEnd := PageAlignUp(end);
      nextFreePage := PageAlignUp(end);
      generation, fbBase, fbSize, exited := 0, 0, 0, false;
    }

    method SetFramebufferRegion(base: u64, size: u64)
      modifies this
      ensures (State(), Done(Success)) == Do(old(State()), SetFramebuffer(base, size))
    {
      fbBase, fbSize := base, size;
    }

    /** The allocator's loop as one caller on its own runs it: the first exchange succeeds. */
    method AllocateRange(count: u64) returns (r: Option<nat>)
      modifies this
      ensures (Allocator(nextFreePage, generation), r) == Allocate(old(State()).alloc, count)
      ensures State() == old(State()).(alloc := Allocator(nextFreePage, generation))
    {
      var base := nextFreePage;
      var next := NewMark(base, count);
      if next > RAM_LIMIT {
        return None;
      }
      nextFreePage := next;
      generation := generation + 1;
      return Some(base);
    }

    method AllocatePages(pages: u64) returns (status: Status, base: nat)
      modifies this
      ensures (State(), if status.Success? then Granted(base) else Done(status))
              == Do(old(State()), Call.AllocatePages(pages))
    {
      if exited {
        return Unsupported, 0;
      }
      var r := AllocateRange(pages);
      match r {
        case Some(b) => return Success, b;
        case None => return OutOfResources, 0;
      }
    }

    method AllocatePool(size: u64) returns (status: Status, base: nat)
      modifies this
      ensures (State(), if status.Success? then Granted(base) else Done(status))
              == Do(old(State()), Call.AllocatePool(size))
    {
      if exited {
        return Unsupported, 0;
      }
      var pages := (size + PAGE_SIZE - 1) % WORD / PAGE_SIZE;
      var r := AllocateRange(if pages < 1 then 1 else pages);
      match r {
        case Some(b) => return Success, b;
        case None => return OutOfResources, 0;
      }
    }

    /** `size` is the buffer's size going in and the map's coming out; `out` may be absent. */
    method GetMemoryMap(size: u64, out: array?<Descriptor>) returns (status: Status, mapSize: nat, key: nat)
      requires out != null ==> size <= out.Length * DESCRIPTOR_SIZE
      modifies if out == null then {} else {out}
      ensures unchanged(this)
      ensures mapSize == |Map(State().Layout())| * 40
      ensures status == if size < mapSize then BufferTooSmall else Success
      ensures status.BufferTooSmall? ==> Done(status) == Do(State(), Call.GetMemoryMap(size)).1
      ensures status.Success? ==> MapReply(Map(State().Layout()), key) == Do(State(), Call.GetMemoryMap(size)).1
      ensures out != null && status.BufferTooSmall? ==> out[..] == old(out[..])
      ensures out != null && status.Success? ==>
                && |Map(State().Layout())| <= out.Length
                && out[..] == Map(State().Layout()) + old(out[..])[|Map(State().Layout())|..]
    {
      hide Map;
      var layout := MemoryMap.Layout(firmwareEnd, nextFreePage, fbBase, fbSize);
      var scratch := new Descriptor[8](_ => Descriptor(0, 0, 0, 0, 0));
      var r := MemoryMap.GetMemoryMap(layout, scratch);
      var n := r.value;
      assert scratch[..n] == Map(layout);
      var capacity := size / DESCRIPTOR_SIZE;
      mapSize := n * DESCRIPTOR_SIZE;
      key := 0;
      if capacity < n {
        return BufferTooSmall, mapSize, key;
      }
      if out != null {
        for i := 0 to n
          modifies out
          invariant out[..i] == scratch[..i]
          invariant out[n..] == old(out[n..])
        {
          out[i] := scratch[i];
        }
        assert out[..] == out[..n] + out[n..];
      }
      return Success, mapSize, generation;
    }

    method LocateHandleBuffer(handles: byte) returns (status: Status, base: nat)
      modifies this
      ensures (State(), if status.Success? then Granted(base) else Done(status))
              == Do(old(State()), Call.LocateHandleBuffer(handles))
    {
      if handles == 0 {
        return NotFound, 0;
      }
      var pages := (handles * 8 + PAGE_SIZE - 1) % WORD / PAGE_SIZE;
      var r := AllocateRange(if pages < 1 then 1 else pages);
      match r {
        case Some(b) => return Success, b;
        case None => return OutOfResources, 0;
      }
    }

    method ProtocolsPerHandle(count: Option<byte>) returns (status: Status, base: nat)
      modifies this
      ensures (State(), if status.Success? && count != Some(0) then Granted(base) else Done(status))
              == Do(old(State()), Call.ProtocolsPerHandle(count))
    {
      if count.None? {
        return InvalidParameter, 0;
      }
      if count.value == 0 {
        return Success, 0;
      }
      var pages := (count.value * 8 + count.value * 16 + PAGE_SIZE - 1) % WORD / PAGE_SIZE;
      var r := AllocateRange(if pages < 1 then 1 else pages);
      match r {
        case Some(b) => return Success, b;
        case None => return OutOfResources, 0;
      }
    }

    method ExitBootServices(key: u64) returns (status: Status)
      modifies this
      ensures (State(), Done(status)) == Do(old(State()), Call.ExitBootServices(key))
    {
      if exited {
        return Success;
      }
      if key != generation {
        return InvalidParameter;
      }
      exited := true;
      return Success;
    }
  }

  // ---------- what a caller gets ----------

  /** `bytes` of the RAM from the mark on go to the caller, or there are too few left and nothing happens. */
  predicate Serves(f: Firmware, f': Firmware, r: Reply, bytes: nat, failure: Status) {
    if f.alloc.mark + bytes <= 0x3F00_0000
    then r == Granted(f.alloc.mark) && f' == f.(alloc := Allocator(f.alloc.mark + bytes, f.alloc.generation + 1))
    else r == Done(failure) && f' == f
  }

  /** Pages asked for before the exit are granted at the mark exactly when that many are left; none after it. */
  lemma {:induction false} PagesServed(f: Firmware, pages: u64)
    requires f.alloc.mark <= 0x3F00_0000 && pages <= 0x3_F000
    ensures var (f', r) := Do(f, AllocatePages(pages));
            if f.exited then r == Done(Unsupported) && f' == f else Serves(f, f', r, 4096 * pages, OutOfResources)
    ensures var (f', r) := Do(f, LoadImage(Some(pages)));
            if f.exited then r == Done(Unsupported) && f' == f else Serves(f, f', r, 4096 * pages, Unsupported)
  {
    GrantInsideIffFits(0, pages);
  }

  /** The least whole number of pages, at least one, that `size` bytes fit in, as bytes. */
  function WholePages(size: nat): nat {
    if size == 0 then 4096 else (size + 4095) / 4096 * 4096
  }

  /** A pool of any size up to RAM's takes the fewest pages it fits in, under the same conditions. */
  lemma {:induction false} PoolServed(f: Firmware, size: u64)
    requires f.alloc.mark <= 0x3F00_0000 && size <= 0x3F00_0000
    ensures var (f', r) := Do(f, AllocatePool(size));
            if f.exited then r == Done(Unsupported) && f' == f
            else Serves(f, f', r, WholePages(size), OutOfResources)
  {
  }

  /** The two ungated services take 8 bytes a handle and 24 a protocol, before the exit or after it. */
  lemma {:induction false} ListsServed(f: Firmware, n: byte)
    requires f.alloc.mark <= 0x3F00_0000
    ensures var (f', r) := Do(f, LocateHandleBuffer(n));
            if n == 0 then r == Done(NotFound) && f' == f else Serves(f, f', r, 4096, OutOfResources)
    ensures var (f', r) := Do(f, ProtocolsPerHandle(Some(n)));
            if n == 0 then r == Done(Success) && f' == f
            else Serves(f, f', r, if 24 * n as int <= 4096 then 4096 else 8192, OutOfResources)
  {
  }

  /** The current key, as a map request reports it, and no other ends boot time; ending it changes nothing else. */
  lemma {:induction false} CurrentKeyAccepted(f: Firmware, size: u64, key: u64)
    requires !f.exited
    ensures var (f', r) := Do(f, ExitBootServices(key));
            if key == f.alloc.generation then r == Done(Success) && f' == f.(exited := true)
            else r == Done(InvalidParameter) && f' == f
    ensures var (f', r) := Do(f, GetMemoryMap(size));
            f' == f && if size < 40 * |Map(f.Layout())| then r == Done(BufferTooSmall)
                       else r.MapReply? && r.regions == Map(f.Layout()) && r.key == f.alloc.generation
  {
    hide Map;
  }

  /** A framebuffer that is set is what the map reports as a device, wherever the mark has not passed it. */
  lemma {:induction false} FramebufferReported(f: Firmware, base: u64, size: u64, a: nat)
    requires var l := Do(f, SetFramebuffer(base, size)).0.Layout(); l.Sane() && l.mark <= base
    requires base <= a < base + size
    ensures var m := Map(Do(f, SetFramebuffer(base, size)).0.Layout());
            exists i :: 0 <= i < |m| && In(a, m[i]) && m[i].ty == 11
  {
    hide Map, Covers;
    var l := Do(f, SetFramebuffer(base, size)).0.Layout();
    MapCoversIff(l);
    var i := CoversOnce(Map(l), a);
    MapTypesAreRight(l, i, a);
  }

  /** How many bytes a call asks for. */
  function Asked(c: Call): nat {
    match c
    case AllocatePages(pages) => 4096 * pages
    case AllocatePool(size) => size
    case LoadImage(image) => if image.Some? then 4096 * image.value else 0
    case LocateHandleBuffer(handles) => 8 * handles as int
    case ProtocolsPerHandle(count) => if count.Some? then 24 * count.value as int else 0
    case _ => 0
  }

  /** A grant starts at the mark and moves it past what was asked for; nothing moves it back. */
  lemma {:induction false} GrantMoves(f: Firmware, c: Call)
    requires f.alloc.mark <= 0x3F00_0000 && Reasonable(c)
    ensures var (f', r) := Do(f, c);
            && f.alloc.mark <= f'.alloc.mark <= 0x3F00_0000
            && (r.Granted? ==> r.base == f.alloc.mark && r.base + Asked(c) <= f'.alloc.mark)
  {
    hide Map;
    match c
    case AllocatePages(pages) => PagesServed(f, pages);
    case AllocatePool(size) => PoolServed(f, size);
    case LoadImage(image) =>
      if image.Some? {
        PagesServed(f, image.value);
      }
    case LocateHandleBuffer(handles) => ListsServed(f, handles);
    case ProtocolsPerHandle(count) =>
      if count.Some? {
        ListsServed(f, count.value);
      }
    case _ =>
  }

  lemma {:induction false} MarkMoves(states: seq<Firmware>, calls: seq<Call>, i: nat, j: nat)
    requires Run(states, calls) && i <= j <= |calls| && states[i].alloc.mark <= 0x3F00_0000
    requires forall k :: 0 <= k < |calls| ==> Reasonable(calls[k])
    ensures states[i].alloc.mark <= states[j].alloc.mark <= 0x3F00_0000
    decreases j - i
  {
    hide Do, Reasonable;
    if i < j {
      MarkMoves(states, calls, i, j - 1);
      GrantMoves(states[j - 1], calls[j - 1]);
    }
  }

  /**
   * Over any run of requests no larger than RAM, whatever is granted, sized by what was asked for, lies between
   * the mark the run started at and the end of RAM, and no two grants overlap.
   */
  lemma {:induction false} GrantsApart(states: seq<Firmware>, calls: seq<Call>, i: nat, j: nat)
    requires Run(states, calls) && states[0].alloc.mark <= 0x3F00_0000 && i < j < |calls|
    requires forall k :: 0 <= k < |calls| ==> Reasonable(calls[k])
    requires Do(states[i], calls[i]).1.Granted? && Do(states[j], calls[j]).1.Granted?
    ensures var a, b := Do(states[i], calls[i]).1.base, Do(states[j], calls[j]).1.base;
            states[0].alloc.mark <= a && a + Asked(calls[i]) <= b && b + Asked(calls[j]) <= 0x3F00_0000
  {
    hide Do, Reasonable, Asked;
    MarkMoves(states, calls, 0, i);
    MarkMoves(states, calls, 0, j);
    GrantMoves(states[i], calls[i]);
    MarkMoves(states, calls, i + 1, j);
    GrantMoves(states[j], calls[j]);
  }

  // ---------- runs ----------

  ghost predicate Run(states: seq<Firmware>, calls: seq<Call>) {
    && |states| == |calls| + 1
    && forall i :: 0 <= i < |calls| ==> states[i + 1] == Do(states[i], calls[i]).0
  }

  lemma CallKeepsOrder(f: Firmware, c: Call)
    ensures var f' := Do(f, c).0;
            && f'.firmwareEnd == f.firmwareEnd
            && (f.exited ==> f'.exited)
            && f.alloc.generation <= f'.alloc.generation
            && (f.alloc.generation == f'.alloc.generation ==> f'.alloc == f.alloc)
            && (!c.SetFramebuffer? ==> f'.fbBase == f.fbBase && f'.fbSize == f.fbSize)
  {
  }

  lemma {:induction false} RunKeepsOrder(states: seq<Firmware>, calls: seq<Call>, i: nat, j: nat)
    requires Run(states, calls) && i <= j <= |calls|
    ensures states[i].firmwareEnd == states[j].firmwareEnd
    ensures states[i].exited ==> states[j].exited
    ensures states[i].alloc.generation <= states[j].alloc.generation
    ensures states[i].alloc.generation == states[j].alloc.generation ==> states[i].alloc == states[j].alloc
    decreases j - i
  {
    hide Do;
    if i < j {
      RunKeepsOrder(states, calls, i, j - 1);
      CallKeepsOrder(states[j - 1], calls[j - 1]);
    }
  }

  lemma {:induction false} FramebufferStays(states: seq<Firmware>, calls: seq<Call>, i: nat, j: nat)
    requires Run(states, calls) && i <= j <= |calls|
    requires forall k :: i <= k < j ==> !calls[k].SetFramebuffer?
    ensures states[i].fbBase == states[j].fbBase && states[i].fbSize == states[j].fbSize
    decreases j - i
  {
    hide Do;
    if i < j {
      FramebufferStays(states, calls, i, j - 1);
      CallKeepsOrder(states[j - 1], calls[j - 1]);
    }
  }

  /**
   * The handshake. In any run, if boot time ends at step `j` with the key that GetMemoryMap gave at step
   * `i`, and the framebuffer was not moved in between, the machine is handed over with exactly the map
   * given at step `i`.
   */
  lemma KeyHandshake(states: seq<Firmware>, calls: seq<Call>, i: nat, j: nat)
    requires Run(states, calls) && i < j < |calls|
    requires calls[i].GetMemoryMap? && Do(states[i], calls[i]).1.MapReply?
    requires !states[j].exited && calls[j].ExitBootServices? && Do(states[j], calls[j]).1 == Done(Success)
    requires calls[j].key == Do(states[i], calls[i]).1.key
    requires forall k :: i <= k < j ==> !calls[k].SetFramebuffer?
    ensures states[j + 1].exited
    ensures Map(states[j + 1].Layout()) == Do(states[i], calls[i]).1.regions
  {
    hide Map;
    RunKeepsOrder(states, calls, i, j);
    FramebufferStays(states, calls, i, j);
  }

  /**
   * With boot time over and the mark at `mark`, the call still asks the allocator for memory that is there:
   * a handle lookup with a match and a page free, or a protocol list with entries and the pages for its
   * pointers and GUIDs free.
   */
  predicate Asks(mark: nat, c: Call) {
    match c
    case LocateHandleBuffer(handles) => handles > 0 && mark + PAGE_SIZE <= RAM_LIMIT
    case ProtocolsPerHandle(count) =>
      && count.Some? && count.value > 0
      && mark + (if count.value * 24 <= PAGE_SIZE then PAGE_SIZE else 2 * PAGE_SIZE) <= RAM_LIMIT
    case _ => false
  }

  /** After exit a call moves the allocator exactly when it asks for memory that is there. */
  lemma ExitedCall(f: Firmware, c: Call)
    requires f.exited && f.alloc.mark <= RAM_LIMIT
    ensures Do(f, c).0.exited && Do(f, c).0.alloc.mark <= RAM_LIMIT
    ensures Do(f, c).0.alloc == f.alloc <==> !Asks(f.alloc.mark, c)
  {
  }

  /**
   * Once boot time has ended a run leaves the allocator where it was if and only if no call in it is one of
   * the two ungated services asking for memory that was there at the exit. The gated services never move it.
   */
  lemma {:induction false} AfterExit(states: seq<Firmware>, calls: seq<Call>)
    requires Run(states, calls) && states[0].exited && states[0].alloc.mark <= RAM_LIMIT
    ensures states[|calls|].exited && states[|calls|].alloc.mark <= RAM_LIMIT
    ensures states[|calls|].alloc == states[0].alloc <==>
            forall i :: 0 <= i < |calls| ==> !Asks(states[0].alloc.mark, calls[i])
    decreases |calls|
  {
    hide Do, Asks;
    if calls != [] {
      var n := |calls| - 1;
      assert Run(states[..n + 1], calls[..n]);
      AfterExit(states[..n + 1], calls[..n]);
      RunKeepsOrder(states, calls, 0, n);
      RunKeepsOrder(states, calls, n, n + 1);
      ExitedCall(states[n], calls[n]);
      assert forall i :: 0 <= i < n ==> calls[i] == calls[..n][i];
    }
  }

  /** Such a call can be granted memory: LocateHandleBuffer after the handover moves the mark. */
  lemma UngatedCallMovesMark(f: Firmware)
    requires f.exited && f.alloc.mark + PAGE_SIZE <= RAM_LIMIT
    ensures Do(f, LocateHandleBuffer(1)) ==
            (f.(alloc := Allocator(f.alloc.mark + PAGE_SIZE, f.alloc.generation + 1)), Granted(f.alloc.mark))
  {
  }

  // ---------- what the key promises ----------

  /** The map determines the mark. */
  lemma MapDeterminesMark(l1: Layout, l2: Layout)
    requires l1.Sane() && l2.Sane() && l2 == l1.(mark := l2.mark) && l1.mark < l2.mark
    ensures Map(l1) != Map(l2)
  {
    hide NonEmpty, Layout.FbEnd;
    var data := Region(l2.firmwareEnd, l2.mark, BOOT_SERVICES_DATA);
    NonEmptyKeeps(Candidates(l2), 2);
    var i :| 0 <= i < |Regions(l2)| && Regions(l2)[i] == data;
    if Map(l1) == Map(l2) {
      assert Describe(Regions(l1)[i]) == Map(l1)[i] == Map(l2)[i] == Describe(data);
      NonEmptyMembers(Candidates(l1), Regions(l1)[i]);
      assert false;
    }
  }

  lemma {:induction false} NonEmptyKeeps(cs: seq<Region>, i: nat)
    requires i < |cs| && cs[i].start < cs[i].end
    ensures cs[i] in NonEmpty(cs)
  {
    if i < |cs| - 1 {
      NonEmptyKeeps(cs[..|cs| - 1], i);
    }
  }

  /**
   * A granted request always changes the key; it changes the map if and only if it asked for any pages.
   * So a grant can make the key stale while the map stands, never the other way round.
   */
  lemma KeyAndMapAfterGrant(f: Firmware, count: u64)
    requires f.Layout().Sane() && !f.exited && Fits(count)
    requires Do(f, AllocatePages(count)).1.Granted?
    ensures var f' := Do(f, AllocatePages(count)).0;
            && f'.Layout().Sane() && f'.alloc.generation != f.alloc.generation
            && (Map(f'.Layout()) == Map(f.Layout()) <==> count == 0)
  {
    hide Map;
    GrantInsideIffFits(f.alloc.mark, count);
    NewMarkAligned(f.alloc.mark, count);
    if count > 0 {
      MapDeterminesMark(f.Layout(), Do(f, AllocatePages(count)).0.Layout());
    }
  }

  /** A granted pool is inside the memory taken for it if and only if it is no larger than RAM. */
  lemma PoolGrantCovers(f: Firmware, size: u64)
    requires f.alloc.mark <= RAM_LIMIT && Do(f, AllocatePool(size)).1.Granted?
    ensures var f' := Do(f, AllocatePool(size)).0;
            f.alloc.mark + size <= f'.alloc.mark <==> size <= RAM_LIMIT
  {
    if size <= RAM_LIMIT {
      GrantInsideIffFits(f.alloc.mark, PoolPages(size));
    }
  }

  /** A larger pool can be granted: the rounding to pages wraps, and 2^64 - 1 bytes get a single page. */
  lemma OversizedPoolGranted(f: Firmware)
    requires !f.exited && f.alloc.mark + PAGE_SIZE <= RAM_LIMIT
    ensures Do(f, AllocatePool(0xFFFF_FFFF_FFFF_FFFF)) ==
            (f.(alloc := Allocator(f.alloc.mark + PAGE_SIZE, f.alloc.generation + 1)), Granted(f.alloc.mark))
  {
  }

  /** The request asks for no more than RAM holds. */
  predicate Reasonable(c: Call) {
    match c
    case AllocatePages(pages) => Fits(pages)
    case AllocatePool(size) => size <= RAM_LIMIT
    case LoadImage(image) => image.Some? ==> Fits(image.value)
    case SetFramebuffer(base, size) => base % PAGE_SIZE == 0 && base + size <= RAM_LIMIT
    case _ => true
  }

  lemma CallKeepsSane(f: Firmware, c: Call)
    requires f.Layout().Sane() && Reasonable(c)
    ensures Do(f, c).0.Layout().Sane()
  {
    hide Map;
    var pages := match c
      case AllocatePages(pages) => pages
      case AllocatePool(size) => PoolPages(size)
      case LoadImage(image) => if image.Some? then image.value else 0
      case LocateHandleBuffer(handles) => PoolPages(handles * 8)
      case ProtocolsPerHandle(count) => if count.Some? then PoolPages(count.value * 8 + count.value * 16) else 0
      case _ => 0;
    hide PoolPages;
    if NewMark(f.alloc.mark, pages) <= RAM_LIMIT {
      GrantInsideIffFits(f.alloc.mark, pages);
      NewMarkAligned(f.alloc.mark, pages);
    }
  }

  /**
   * In every run of reasonable requests from boot, the memory map at any point covers [0, 0x8000_0000) --
   * 0x8_0000 pages in all -- if and only if the allocator has not yet passed the framebuffer.
   */
  lemma {:induction false} RunMapCovers(states: seq<Firmware>, calls: seq<Call>)
    requires Run(states, calls) && states[0].Layout().Sane()
    requires forall i :: 0 <= i < |calls| ==> Reasonable(calls[i])
    ensures var f := states[|calls|];
            && f.Layout().Sane()
            && (Covers(Map(f.Layout())) <==> f.alloc.mark <= f.fbBase)
            && (TotalPages(Map(f.Layout())) == 0x8_0000 <==> f.alloc.mark <= f.fbBase)
    decreases |calls|
  {
    hide Do, Map, Covers, TotalPages;
    if calls != [] {
      var n := |calls| - 1;
      assert Run(states[..n + 1], calls[..n]);
      RunMapCovers(states[..n + 1], calls[..n]);
      CallKeepsSane(states[n], calls[n]);
    }
    MapCoversIff(states[|calls|].Layout());
  }
}
