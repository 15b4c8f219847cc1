/** The EFI memory map, built from the allocator's mark and the framebuffer region. */
module MemoryMap {
  import opened Bytes
  import opened Options
  import opened PageAllocator

  const FIRMWARE_START := 0x8_0000
  const LOCAL_BASE := 0x4000_0000
  const LOCAL_END := 0x8000_0000

  const BOOT_SERVICES_CODE := 3
  const BOOT_SERVICES_DATA := 4
  const CONVENTIONAL_MEMORY := 7
  const MEMORY_MAPPED_IO := 11

  datatype Region = Region(start: nat, end: nat, ty: nat)

  datatype Descriptor = Descriptor(ty: nat, physicalStart: nat, virtualStart: nat, numberOfPages: nat, attribute: nat)

  /** Where the firmware image ends (page-aligned), where the mark is, and the framebuffer. */
  datatype Layout = Layout(firmwareEnd: nat, mark: nat, fbBase: u64, fbSize: u64) {
    /** The framebuffer's page-aligned end, in 64-bit machine arithmetic. */
    function FbEnd(): nat {
      (fbBase + fbSize + PAGE_SIZE - 1) % WORD / PAGE_SIZE * PAGE_SIZE
    }

    /** The mark is between the firmware and the RAM limit and the framebuffer is page-aligned inside RAM. */
    predicate Sane() {
      && FIRMWARE_START <= firmwareEnd <= mark <= RAM_LIMIT
      && firmwareEnd % PAGE_SIZE == 0 && mark % PAGE_SIZE == 0
      && fbBase % PAGE_SIZE == 0 && fbBase + fbSize <= RAM_LIMIT
    }
  }

  /** The regions the map is built from, in order, empty or not. */
  function Candidates(l: Layout): seq<Region> {
    [ Region(0, FIRMWARE_START, CONVENTIONAL_MEMORY),
      Region(FIRMWARE_START, l.firmwareEnd, BOOT_SERVICES_CODE),
      Region(l.firmwareEnd, l.mark, BOOT_SERVICES_DATA),
      Region(l.mark, l.fbBase, CONVENTIONAL_MEMORY),
      Region(l.fbBase, l.FbEnd(), MEMORY_MAPPED_IO),
      Region(l.FbEnd(), RAM_LIMIT, CONVENTIONAL_MEMORY),
      Region(RAM_LIMIT, LOCAL_BASE, MEMORY_MAPPED_IO),
      Region(LOCAL_BASE, LOCAL_END, MEMORY_MAPPED_IO) ]
  }

  function NonEmpty(cs: seq<Region>): (rs: seq<Region>)
    ensures |rs| <= |cs|
  {
    if cs == [] then []
    else
      var last := cs[|cs| - 1];
      NonEmpty(cs[..|cs| - 1]) + if last.start < last.end then [last] else []
  }

  lemma {:induction false} NonEmptyMembers(cs: seq<Region>, r: Region)
    requires r in NonEmpty(cs)
    ensures r in cs && r.start < r.end
  {
    if cs != [] && r in NonEmpty(cs[..|cs| - 1]) {
      NonEmptyMembers(cs[..|cs| - 1], r);
    }
  }

  lemma NonEmptyPush(cs: seq<Region>, r: Region)
    ensures NonEmpty(cs + [r]) == if r.start < r.end then NonEmpty(cs) + [r] else NonEmpty(cs)
  {
    assert (cs + [r])[..|cs|] == cs;
  }

  lemma NonEmptyNil()
    ensures NonEmpty([]) == []
  {
  }

  function Regions(l: Layout): seq<Region> {
    NonEmpty(Candidates(l))
  }

  function Describe(r: Region): Descriptor {
    Descriptor(r.ty, r.start, r.start, if r.start <= r.end then (r.end - r.start) / PAGE_SIZE else 0, 0)
  }

  /** The map a caller is given. */
  function Map(l: Layout): (m: seq<Descriptor>)
    ensures |m| == |Regions(l)| <= 8
  {
    var rs := Regions(l);
    seq(|rs|, i requires 0 <= i < |rs| => Describe(rs[i]))
  }

  // ---------- the method ----------

  method Push(regions: array<Region>, n: nat, start: nat, end: nat, ty: nat, ghost cs: seq<Region>) returns (n': nat)
    requires n <= |cs| < regions.Length && regions[..n] == NonEmpty(cs)
    modifies regions
    ensures n' <= |cs| + 1 && regions[..n'] == NonEmpty(cs + [Region(start, end, ty)])
  {
    n' := n;
    NonEmptyPush(cs, Region(start, end, ty));
    hide NonEmpty;
    if end > start {
      regions[n] := Region(start, end, ty);
      n' := n + 1;
      assert regions[..n'] == regions[..n] + [regions[n]];
    }
  }

  /** Fills `out` with the whole map, or leaves it alone when the map does not fit. */
  method GetMemoryMap(l: Layout, out: array<Descriptor>) returns (r: Option<nat>)
    modifies out
    ensures r.None? <==> out.Length < |Map(l)|
    ensures r.None? ==> out[..] == old(out[..])
    ensures r.Some? ==> r.value == |Map(l)| && out[..] == Map(l) + old(out[..])[r.value..]
  {
    hide NonEmpty, Layout.FbEnd;
    var fbEnd := l.FbEnd();
    NonEmptyNil();
    var regions := new Region[8](_ => Region(0, 0, 0));
    ghost var cs := Candidates(l);
    var n: nat := 0;
    n := Push(regions, n, 0, FIRMWARE_START, CONVENTIONAL_MEMORY, []);
    assert cs[..1] == [] + [Region(0, FIRMWARE_START, CONVENTIONAL_MEMORY)];
    n := Push(regions, n, FIRMWARE_START, l.firmwareEnd, BOOT_SERVICES_CODE, cs[..1]);
    assert cs[..2] == cs[..1] + [cs[1]];
    n := Push(regions, n, l.firmwareEnd, l.mark, BOOT_SERVICES_DATA, cs[..2]);
    assert cs[..3] == cs[..2] + [cs[2]];
    n := Push(regions, n, l.mark, l.fbBase, CONVENTIONAL_MEMORY, cs[..3]);
    assert cs[..4] == cs[..3] + [cs[3]];
    n := Push(regions, n, l.fbBase, fbEnd, MEMORY_MAPPED_IO, cs[..4]);
    assert cs[..5] == cs[..4] + [cs[4]];
    n := Push(regions, n, fbEnd, RAM_LIMIT, CONVENTIONAL_MEMORY, cs[..5]);
    assert cs[..6] == cs[..5] + [cs[5]];
    n := Push(regions, n, RAM_LIMIT, LOCAL_BASE, MEMORY_MAPPED_IO, cs[..6]);
    assert cs[..7] == cs[..6] + [cs[6]];
    n := Push(regions, n, LOCAL_BASE, LOCAL_END, MEMORY_MAPPED_IO, cs[..7]);
    assert cs == cs[..7] + [cs[7]];
    r := WriteOut(l, regions, n, out);
  }

  method WriteOut(l: Layout, regions: array<Region>, n: nat, out: array<Descriptor>) returns (r: Option<nat>)
    requires n <= regions.Length && regions[..n] == Regions(l)
    modifies out
    ensures r.None? <==> out.Length < |Map(l)|
    ensures r.None? ==> out[..] == old(out[..])
    ensures r.Some? ==> r.value == |Map(l)| && out[..] == Map(l) + old(out[..])[r.value..]
  {
    hide Regions, NonEmpty, Candidates;
    if out.Length < n {
      return None;
    }
    ghost var rs := Regions(l);
    ghost var was := out[..];
    for i := 0 to n
      invariant forall k :: 0 <= k < i ==> out[k] == Map(l)[k]
      invariant forall k :: i <= k < out.Length ==> out[k] == was[k]
    {
      var region := regions[i];
      assert region == rs[i];
      out[i] := Describe(region);
    }
    assert out[..] == Map(l) + was[n..];
    return Some(n);
  }

  // ---------- tiling ----------

  /** `rs` covers [lo, hi) from left to right with non-empty regions, leaving no gap and no overlap. */
  predicate Tiles(rs: seq<Region>, lo: nat, hi: nat) {
    if rs == [] then lo == hi
    else
      var last := rs[|rs| - 1];
      last.end == hi && last.start < hi && Tiles(rs[..|rs| - 1], lo, last.start)
  }

  /** The same, empty regions allowed. */
  predicate Contiguous(rs: seq<Region>, lo: nat, hi: nat) {
    if rs == [] then lo == hi
    else
      var last := rs[|rs| - 1];
      last.end == hi && last.start <= hi && Contiguous(rs[..|rs| - 1], lo, last.start)
  }

  function Length(r: Region): nat {
    if r.start < r.end then r.end - r.start else 0
  }

  function TotalLength(rs: seq<Region>): nat {
    if rs == [] then 0 else TotalLength(rs[..|rs| - 1]) + Length(rs[|rs| - 1])
  }

  function TotalPages(m: seq<Descriptor>): nat {
    if m == [] then 0 else TotalPages(m[..|m| - 1]) + m[|m| - 1].numberOfPages
  }

  lemma {:induction false} DroppingEmptiesTiles(cs: seq<Region>, lo: nat, hi: nat)
    requires Contiguous(cs, lo, hi)
    ensures Tiles(NonEmpty(cs), lo, hi)
  {
    hide NonEmpty;
    NonEmptyNil();
    if cs != [] {
      var last := cs[|cs| - 1];
      DroppingEmptiesTiles(cs[..|cs| - 1], lo, last.start);
      var rs := NonEmpty(cs[..|cs| - 1]);
      assert cs == cs[..|cs| - 1] + [last];
      NonEmptyPush(cs[..|cs| - 1], last);
      assert (rs + [last])[..|rs|] == rs;
    }
  }

  lemma {:induction false} DroppingEmptiesKeepsLength(cs: seq<Region>)
    ensures TotalLength(NonEmpty(cs)) == TotalLength(cs)
  {
    hide NonEmpty;
    NonEmptyNil();
    if cs != [] {
      var last := cs[|cs| - 1];
      DroppingEmptiesKeepsLength(cs[..|cs| - 1]);
      var rs := NonEmpty(cs[..|cs| - 1]);
      assert cs == cs[..|cs| - 1] + [last];
      NonEmptyPush(cs[..|cs| - 1], last);
      assert (rs + [last])[..|rs|] == rs;
    }
  }

  lemma {:induction false} TilesLength(rs: seq<Region>, lo: nat, hi: nat)
    requires Tiles(rs, lo, hi)
    ensures lo <= hi && TotalLength(rs) == hi - lo
  {
    if rs != [] {
      TilesLength(rs[..|rs| - 1], lo, rs[|rs| - 1].start);
    }
  }

  lemma {:induction false} TilesBelow(rs: seq<Region>, lo: nat, hi: nat)
    requires Tiles(rs, lo, hi)
    ensures lo <= hi && forall j :: 0 <= j < |rs| ==> rs[j].end <= hi
  {
    if rs != [] {
      var n := |rs| - 1;
      TilesBelow(rs[..n], lo, rs[n].start);
      assert forall j :: 0 <= j < n ==> rs[j] == rs[..n][j];
    }
  }

  lemma FbEndInside(l: Layout)
    requires l.Sane()
    ensures l.fbBase <= l.FbEnd() <= RAM_LIMIT && l.FbEnd() % PAGE_SIZE == 0
  {
  }

  lemma CandidatesContiguous(l: Layout)
    requires l.Sane() && l.mark <= l.fbBase
    ensures Contiguous(Candidates(l), 0, LOCAL_END)
  {
    FbEndInside(l);
    hide Layout.FbEnd;
    var cs := Candidates(l);
    assert Contiguous(cs[..0], 0, 0);
    assert cs[..1][..0] == cs[..0] && Contiguous(cs[..1], 0, FIRMWARE_START);
    assert cs[..2][..1] == cs[..1] && Contiguous(cs[..2], 0, l.firmwareEnd);
    assert cs[..3][..2] == cs[..2] && Contiguous(cs[..3], 0, l.mark);
    assert cs[..4][..3] == cs[..3] && Contiguous(cs[..4], 0, l.fbBase);
    assert cs[..5][..4] == cs[..4] && Contiguous(cs[..5], 0, l.FbEnd());
    assert cs[..6][..5] == cs[..5] && Contiguous(cs[..6], 0, RAM_LIMIT);
    assert cs[..7][..6] == cs[..6] && Contiguous(cs[..7], 0, LOCAL_BASE);
  }

  lemma CandidatesLength(l: Layout)
    requires l.Sane()
    ensures TotalLength(Candidates(l)) == LOCAL_END + if l.mark <= l.fbBase then 0 else l.mark - l.fbBase
  {
    FbEndInside(l);
    hide Layout.FbEnd;
    var cs := Candidates(l);
    assert TotalLength(cs[..0]) == 0;
    assert cs[..1][..0] == cs[..0] && TotalLength(cs[..1]) == FIRMWARE_START;
    assert cs[..2][..1] == cs[..1] && TotalLength(cs[..2]) == l.firmwareEnd;
    assert cs[..3][..2] == cs[..2] && TotalLength(cs[..3]) == l.mark;
    assert cs[..4][..3] == cs[..3] && TotalLength(cs[..4]) == if l.mark <= l.fbBase then l.fbBase else l.mark;
    assert cs[..5][..4] == cs[..4];
    assert cs[..6][..5] == cs[..5];
    assert cs[..7][..6] == cs[..6];
    assert TotalLength(cs[..6]) == TotalLength(cs[..4]) + RAM_LIMIT - l.fbBase;
  }

  /**
   * The map tiles [0, 0x8000_0000) -- sorted, gap-free, no overlap -- if and only if the mark has not
   * passed the framebuffer; otherwise it counts the part of the framebuffer's RAM below the mark twice.
   */
  lemma MapTilesIffMarkBelowFramebuffer(l: Layout)
    requires l.Sane()
    ensures Tiles(Regions(l), 0, LOCAL_END) <==> l.mark <= l.fbBase
    ensures TotalPages(Map(l)) == 0x8_0000 + if l.mark <= l.fbBase then 0 else (l.mark - l.fbBase) / PAGE_SIZE
  {
    hide Candidates, Tiles, TotalPages;
    CandidatesLength(l);
    DroppingEmptiesKeepsLength(Candidates(l));
    if l.mark <= l.fbBase {
      CandidatesContiguous(l);
      DroppingEmptiesTiles(Candidates(l), 0, LOCAL_END);
    } else if Tiles(Regions(l), 0, LOCAL_END) {
      TilesLength(Regions(l), 0, LOCAL_END);
      assert false;
    }
    RegionsAligned(l);
    var rs, m := Regions(l), Map(l);
    PagesOfLength(rs, m);
  }

  lemma RegionsAligned(l: Layout)
    requires l.Sane()
    ensures forall r :: r in Regions(l) ==> r.start < r.end && r.start % PAGE_SIZE == 0 && r.end % PAGE_SIZE == 0
  {
    hide Layout.FbEnd, NonEmpty;
    FbEndInside(l);
    forall r | r in Regions(l)
      ensures r.start < r.end && r.start % PAGE_SIZE == 0 && r.end % PAGE_SIZE == 0
    {
      NonEmptyMembers(Candidates(l), r);
    }
  }

  lemma {:induction false} PagesOfLength(rs: seq<Region>, m: seq<Descriptor>)
    requires forall r :: r in rs ==> r.start < r.end && r.start % PAGE_SIZE == 0 && r.end % PAGE_SIZE == 0
    requires |m| == |rs| && forall i :: 0 <= i < |rs| ==> rs[i].start < rs[i].end && m[i] == Describe(rs[i])
    ensures TotalPages(m) * PAGE_SIZE == TotalLength(rs)
  {
    if rs != [] {
      var n := |rs| - 1;
      PagesOfLength(rs[..n], m[..n]);
      assert rs[n] in rs;
      assert m[n] == Describe(rs[n]);
    }
  }

  // ---------- the descriptors handed out ----------

  /** The descriptors, none of them empty, follow one another without gap or overlap from 0 to 0x8000_0000. */
  ghost predicate Covers(m: seq<Descriptor>) {
    && m != [] && m[0].physicalStart == 0
    && (forall i :: 0 <= i < |m| ==>
          m[i].numberOfPages >= 1 && m[i].virtualStart == m[i].physicalStart && m[i].attribute == 0)
    && (forall i :: 0 <= i < |m| - 1 ==> m[i].physicalStart + 4096 * m[i].numberOfPages == m[i + 1].physicalStart)
    && m[|m| - 1].physicalStart + 4096 * m[|m| - 1].numberOfPages == 0x8000_0000
  }

  /** The address lies in what the descriptor describes. */
  predicate In(a: nat, r: Descriptor) {
    r.physicalStart <= a < r.physicalStart + 4096 * r.numberOfPages
  }

  lemma {:induction false} TilesFollow(rs: seq<Region>, lo: nat, hi: nat)
    requires Tiles(rs, lo, hi)
    ensures rs == [] <==> lo == hi
    ensures rs != [] ==> rs[0].start == lo && rs[|rs| - 1].end == hi
    ensures forall i :: 0 <= i < |rs| - 1 ==> rs[i].end == rs[i + 1].start
  {
    if rs != [] {
      var n := |rs| - 1;
      TilesFollow(rs[..n], lo, rs[n].start);
      TilesBelow(rs[..n], lo, rs[n].start);
      assert forall i :: 0 <= i < n ==> rs[..n][i] == rs[i];
    }
  }

  lemma {:induction false} CoversUpTo(m: seq<Descriptor>, n: nat)
    requires Covers(m) && 1 <= n <= |m|
    ensures 4096 * TotalPages(m[..n]) == m[n - 1].physicalStart + 4096 * m[n - 1].numberOfPages
  {
    assert m[..n][..n - 1] == m[..n - 1];
    if n > 1 {
      CoversUpTo(m, n - 1);
      assert m[n - 2].physicalStart + 4096 * m[n - 2].numberOfPages == m[n - 1].physicalStart;
    } else {
      assert m[..1][..0] == [];
    }
  }

  lemma {:induction false} CoversTotal(m: seq<Descriptor>)
    requires Covers(m)
    ensures TotalPages(m) == 0x8_0000
  {
    CoversUpTo(m, |m|);
    assert m[..|m|] == m;
  }

  lemma {:induction false} CoversRegions(l: Layout)
    requires l.Sane() && Tiles(Regions(l), 0, LOCAL_END)
    ensures Covers(Map(l))
  {
    hide Regions, Tiles;
    RegionsAligned(l);
    TilesFollow(Regions(l), 0, LOCAL_END);
    var rs, m := Regions(l), Map(l);
    forall i | 0 <= i < |m|
      ensures m[i].physicalStart == rs[i].start == m[i].virtualStart && m[i].attribute == 0
      ensures m[i].numberOfPages >= 1 && rs[i].start + 4096 * m[i].numberOfPages == rs[i].end
    {
      assert rs[i] in rs;
    }
  }

  /**
   * The map a caller is given covers [0, 0x8000_0000) -- sorted, gap-free, no overlap -- if and only if the
   * mark has not passed the framebuffer; otherwise it counts the framebuffer's RAM below the mark twice.
   */
  lemma {:induction false} MapCoversIff(l: Layout)
    requires l.Sane()
    ensures Covers(Map(l)) <==> l.mark <= l.fbBase
    ensures TotalPages(Map(l)) == 0x8_0000 + if l.mark <= l.fbBase then 0 else (l.mark - l.fbBase) / 4096
  {
    hide Map, Tiles, Regions, TotalPages, Covers;
    MapTilesIffMarkBelowFramebuffer(l);
    if Covers(Map(l)) {
      CoversTotal(Map(l));
      if l.fbBase < l.mark {
        MarkPastByPages(l);
      }
    }
    if l.mark <= l.fbBase {
      CoversRegions(l);
    }
  }

  lemma MarkPastByPages(l: Layout)
    requires l.Sane() && l.fbBase < l.mark
    ensures (l.mark - l.fbBase) / 4096 >= 1
  {
  }

  /** The memory type of address `a`: free, firmware, allocated, or a device. */
  function TypeAt(l: Layout, a: nat): nat {
    if a < 0x8_0000 then 7
    else if a < l.firmwareEnd then 3
    else if a < l.mark then 4
    else if a < l.fbBase then 7
    else if a < (l.fbBase + l.fbSize + 4095) / 4096 * 4096 then 11
    else if a < 0x3F00_0000 then 7
    else 11
  }

  lemma FbEndIs(l: Layout)
    requires l.Sane()
    ensures l.FbEnd() == (l.fbBase + l.fbSize + 4095) / 4096 * 4096
  {
  }

  lemma {:induction false} RegionType(l: Layout, r: Region, a: nat)
    requires l.Sane() && l.mark <= l.fbBase && r in Regions(l) && r.start <= a < r.end
    ensures r.ty == TypeAt(l, a)
  {
    hide NonEmpty, Layout.FbEnd;
    FbEndInside(l);
    FbEndIs(l);
    NonEmptyMembers(Candidates(l), r);
  }

  /** A descriptor of the map says truly of every address in it whether it is free, firmware, allocated or a device. */
  lemma {:induction false} MapTypesAreRight(l: Layout, i: nat, a: nat)
    requires l.Sane() && l.mark <= l.fbBase && i < |Map(l)| && In(a, Map(l)[i])
    ensures Map(l)[i].ty == TypeAt(l, a)
  {
    hide Regions, TypeAt;
    RegionsAligned(l);
    var r := Regions(l)[i];
    assert r in Regions(l);
    RegionType(l, r, a);
  }

  lemma {:induction false} StartsBefore(m: seq<Descriptor>, i: nat, j: nat)
    requires Covers(m) && i < j < |m|
    ensures m[i].physicalStart + 4096 * m[i].numberOfPages <= m[j].physicalStart
    decreases j - i
  {
    if i + 1 < j {
      StartsBefore(m, i + 1, j);
    }
  }

  lemma {:induction false} CoveredBelow(m: seq<Descriptor>, n: nat, a: nat) returns (i: nat)
    requires Covers(m) && 1 <= n <= |m| && a < m[n - 1].physicalStart + 4096 * m[n - 1].numberOfPages
    ensures i < n && In(a, m[i])
  {
    if m[n - 1].physicalStart <= a {
      i := n - 1;
    } else {
      assert n > 1;
      i := CoveredBelow(m, n - 1, a);
    }
  }

  /** Every address of the range lies in exactly one descriptor. */
  lemma {:induction false} CoversOnce(m: seq<Descriptor>, a: nat) returns (i: nat)
    requires Covers(m) && a < 0x8000_0000
    ensures i < |m| && forall j :: 0 <= j < |m| ==> (In(a, m[j]) <==> j == i)
  {
    i := CoveredBelow(m, |m|, a);
    forall j | 0 <= j < |m| && j != i
      ensures !In(a, m[j])
    {
      if i < j {
        StartsBefore(m, i, j);
      } else {
        StartsBefore(m, j, i);
      }
    }
  }
}
