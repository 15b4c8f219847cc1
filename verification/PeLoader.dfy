/** Loading a PE32+ image: headers, sections, and relocation to the address the allocator gave. */
module PeLoader {
  import opened Bytes
  import opened Options
  import opened PeRelocations
  import BootServices
  import PageAllocator

  const MACHINE_ARM64 := 0xAA64
  const PE32_PLUS_MAGIC := 0x020B
  const DATA_DIR_BASE_RELOCATION := 5
  const RAM_LIMIT := PageAllocator.RAM_LIMIT

  datatype Result<+T> = Ok(value: T) | Err(error: PeError) {
    predicate IsFailure() {
      Err?
    }

    function PropagateFailure<U>(): Result<U>
      requires Err?
    {
      Err(error)
    }

    function Extract(): T
      requires Ok?
    {
      value
    }
  }

  datatype Header = Header(sectionsOff: nat, sections: u16, entryPoint: u32, preferredBase: u64,
                           sizeOfImage: u32, relocRva: u32, relocSize: u32)

  datatype Section = Section(virtualAddress: u32, source: u32, length: u32)

  datatype LoadedPe = LoadedPe(imageBase: nat, imageSize: nat, entryPoint: nat)

  function Ru16(d: seq<byte>, off: nat): Result<u16> {
    if off + 2 <= |d| then Ok(U16At(d, off)) else Err(Truncated)
  }

  function Ru32(d: seq<byte>, off: nat): Result<u32> {
    if off + 4 <= |d| then Ok(U32At(d, off)) else Err(Truncated)
  }

  function Ru64(d: seq<byte>, off: nat): Result<u64> {
    if off + 8 <= |d| then Ok(U64At(d, off)) else Err(Truncated)
  }

  function RelocDirectory(d: seq<byte>, opt: nat, count: u32): Result<(u32, u32)> {
    if count > DATA_DIR_BASE_RELOCATION then
      var rva :- Ru32(d, opt + 112 + DATA_DIR_BASE_RELOCATION * 8);
      var size :- Ru32(d, opt + 112 + DATA_DIR_BASE_RELOCATION * 8 + 4);
      Ok((rva, size))
    else Ok((0, 0))
  }

  function ParseHeader(d: seq<byte>): Result<Header> {
    if |d| < 0x40 || d[0..2] != [0x4D, 0x5A] then Err(NotDos)
    else
      var pe :- Ru32(d, 0x3C);
      if pe + 4 > |d| || d[pe..pe + 4] != [0x50, 0x45, 0, 0] then Err(NotPe)
      else
        var machine :- Ru16(d, pe + 4);
        if machine != MACHINE_ARM64 then Err(WrongMachine)
        else
          var sections :- Ru16(d, pe + 6);
          var optSize :- Ru16(d, pe + 20);
          var opt := pe + 24;
          var magic :- Ru16(d, opt);
          if magic != PE32_PLUS_MAGIC then Err(NotPe32Plus)
          else
            var entry :- Ru32(d, opt + 16);
            var base :- Ru64(d, opt + 24);
            var size :- Ru32(d, opt + 56);
            var count :- Ru32(d, opt + 108);
            var reloc :- RelocDirectory(d, opt, count);
            Ok(Header(opt + optSize, sections, entry, base, size, reloc.0, reloc.1))
  }

  /**
   * A file is taken for an AArch64 PE32+ image exactly when it carries the three signatures and the
   * machine, and is long enough for the optional header and, if it has one, the relocation directory's entry.
   */
  lemma HeaderAcceptedIff(d: seq<byte>)
    ensures ParseHeader(d).Ok? <==>
            && 0x40 <= |d| && d[0] == 0x4D && d[1] == 0x5A
            && var pe := U32At(d, 0x3C);
            && pe + 136 <= |d| && d[pe..pe + 4] == [0x50, 0x45, 0, 0]
            && U16At(d, pe + 4) == 0xAA64 && U16At(d, pe + 24) == 0x020B
            && (U32At(d, pe + 132) > 5 ==> pe + 184 <= |d|)
  {
    hide U16At, U32At, U64At;
  }

  /**
   * Where each field is in the file, from the offset `pe` that the DOS header gives: the section table behind
   * the optional header, the entry point, the preferred base, the image's size, and the sixth data directory.
   */
  lemma HeaderFields(d: seq<byte>)
    requires ParseHeader(d).Ok?
    ensures var h, pe := ParseHeader(d).value, U32At(d, 0x3C);
            && pe + 136 <= |d|
            && h.sections == U16At(d, pe + 6) && h.sectionsOff == pe + 24 + U16At(d, pe + 20)
            && h.entryPoint == U32At(d, pe + 40) && h.preferredBase == U64At(d, pe + 48)
            && h.sizeOfImage == U32At(d, pe + 80)
            && if U32At(d, pe + 132) > 5
               then pe + 184 <= |d| && h.relocRva == U32At(d, pe + 176) && h.relocSize == U32At(d, pe + 180)
               else h.relocRva == 0 && h.relocSize == 0
  {
    hide U16At, U32At, U64At;
  }

  function Pages(h: Header): nat {
    (h.sizeOfImage + 0xFFF) / 0x1000
  }

  function ImageSize(h: Header): (n: nat)
    ensures n % 0x1000 == 0 && h.sizeOfImage <= n < h.sizeOfImage + 0x1000
  {
    Pages(h) * 0x1000
  }

  function ReadSection(d: seq<byte>, s: nat): Result<Section> {
    var virtualSize :- Ru32(d, s + 8);
    var virtualAddress :- Ru32(d, s + 12);
    var rawSize :- Ru32(d, s + 16);
    var pointer :- Ru32(d, s + 20);
    var length := if rawSize < virtualSize then rawSize else virtualSize;
    if pointer + length > |d| then Err(Truncated) else Ok(Section(virtualAddress, pointer, length))
  }

  /** Sections `i` on, copied over `img`. */
  function CopySections(d: seq<byte>, off: nat, img: seq<byte>, i: nat, n: nat): Outcome
    requires i <= n
    decreases n - i
  {
    if i == n then Done(img)
    else
      match ReadSection(d, off + i * 40)
      case Err(e) => Failed(img, e)
      case Ok(s) =>
        if s.virtualAddress + s.length > |img| then Stray
        else
          CopySections(d, off, Patch(img, s.virtualAddress, d[s.source..s.source + s.length]), i + 1, n)
  }

  /** The image before relocation: zeros with the sections over them. */
  function Unrelocated(d: seq<byte>, h: Header): Outcome {
    CopySections(d, h.sectionsOff, Zeros(ImageSize(h)), 0, h.sections)
  }

  function Relocate(img: seq<byte>, h: Header, delta: u64): Outcome {
    if delta != 0 && h.relocSize > 0 then WalkBlocks(img, h.relocRva, h.relocRva + h.relocSize, delta) else Done(img)
  }

  function Delta(h: Header, base: u64): u64 {
    (base - h.preferredBase) % WORD
  }

  /** The image as it would be loaded at `base`. */
  function LoadedAt(d: seq<byte>, h: Header, base: u64): Outcome {
    match Unrelocated(d, h)
    case Done(img) => Relocate(img, h, Delta(h, base))
    case o => o
  }

  // ---------- what the sections leave in the image ----------

  predicate Covers(d: seq<byte>, off: nat, i: nat, x: nat) {
    && ReadSection(d, off + i * 40).Ok?
    && var s := ReadSection(d, off + i * 40).value;
       s.virtualAddress <= x < s.virtualAddress + s.length
  }

  function SectionByte(d: seq<byte>, off: nat, i: nat, x: nat): byte
    requires Covers(d, off, i, x)
  {
    var s := ReadSection(d, off + i * 40).value;
    d[s.source + (x - s.virtualAddress)]
  }

  /**
   * Byte `x` of the copied image is the byte of the last section that covers it, at its offset in that
   * section; bytes no section covers keep what was there.
   */
  lemma {:induction false} CopiedByte(d: seq<byte>, off: nat, img: seq<byte>, i: nat, n: nat, x: nat)
    requires i <= n && CopySections(d, off, img, i, n).Done? && x < |img|
    ensures |CopySections(d, off, img, i, n).image| == |img|
    ensures forall k :: i <= k < n && Covers(d, off, k, x) && (forall j :: k < j < n ==> !Covers(d, off, j, x)) ==>
              CopySections(d, off, img, i, n).image[x] == SectionByte(d, off, k, x)
    ensures (forall k :: i <= k < n ==> !Covers(d, off, k, x)) ==> CopySections(d, off, img, i, n).image[x] == img[x]
    decreases n - i
  {
    hide ReadSection;
    if i < n {
      var s := ReadSection(d, off + i * 40).value;
      ReadSectionInside(d, off + i * 40);
      var next := Patch(img, s.virtualAddress, d[s.source..s.source + s.length]);
      CopiedByte(d, off, next, i + 1, n, x);
      if Covers(d, off, i, x) {
        PatchByte(img, s.virtualAddress, d[s.source..s.source + s.length], x);
        assert next[x] == SectionByte(d, off, i, x);
      }
    }
  }

  /** Where section `k`'s 40-byte header is. */
  function SectionHeader(h: Header, k: nat): nat {
    h.sectionsOff + 40 * k
  }

  /**
   * The section whose header is at `o` reaches image byte `at`: it starts at the virtual address at `o + 12`, and is
   * as long as the smaller of its sizes in memory, at `o + 8`, and in the file, at `o + 16`.
   */
  predicate Reaches(d: seq<byte>, o: nat, at: nat) {
    o + 24 <= |d| && U32At(d, o + 12) <= at && at - U32At(d, o + 12) < Min(U32At(d, o + 8), U32At(d, o + 16))
  }

  /** `b` is the byte the section has for `at`, in its data from the file offset at `o + 20` on. */
  predicate ReachedByte(d: seq<byte>, o: nat, at: nat, b: byte) {
    Reaches(d, o, at) && var p := U32At(d, o + 20) + (at - U32At(d, o + 12)); p < |d| && b == d[p]
  }

  lemma CoversIffReaches(d: seq<byte>, h: Header, k: nat, at: nat)
    requires ReadSection(d, h.sectionsOff + k * 40).Ok?
    ensures Covers(d, h.sectionsOff, k, at) <==> Reaches(d, SectionHeader(h, k), at)
    ensures Covers(d, h.sectionsOff, k, at) ==>
              ReachedByte(d, SectionHeader(h, k), at, SectionByte(d, h.sectionsOff, k, at))
  {
    hide U32At;
  }

  lemma {:induction false} SectionsRead(d: seq<byte>, off: nat, img: seq<byte>, i: nat, n: nat, k: nat)
    requires i <= k < n && CopySections(d, off, img, i, n).Done?
    ensures ReadSection(d, off + k * 40).Ok?
    decreases n - i
  {
    hide ReadSection;
    if i < k {
      var s := ReadSection(d, off + i * 40).value;
      ReadSectionInside(d, off + i * 40);
      SectionsRead(d, off, Patch(img, s.virtualAddress, d[s.source..s.source + s.length]), i + 1, n, k);
    }
  }

  lemma {:induction false} CopiedSize(d: seq<byte>, off: nat, img: seq<byte>, i: nat, n: nat)
    requires i <= n && CopySections(d, off, img, i, n).Done?
    ensures |CopySections(d, off, img, i, n).image| == |img|
    decreases n - i
  {
    hide ReadSection;
    if i < n {
      var s := ReadSection(d, off + i * 40).value;
      ReadSectionInside(d, off + i * 40);
      CopiedSize(d, off, Patch(img, s.virtualAddress, d[s.source..s.source + s.length]), i + 1, n);
    }
  }

  /** Section `k`'s header and data lie in the file, and the section in an image of `size` bytes. */
  predicate Fits(d: seq<byte>, h: Header, k: nat, size: nat) {
    var o := SectionHeader(h, k);
    && o + 24 <= |d|
    && var n := Min(U32At(d, o + 8), U32At(d, o + 16));
       U32At(d, o + 20) + n <= |d| && U32At(d, o + 12) + n <= size
  }

  lemma ReadableIffFits(d: seq<byte>, h: Header, k: nat, size: nat)
    ensures Fits(d, h, k, size) <==>
            && ReadSection(d, h.sectionsOff + k * 40).Ok?
            && var s := ReadSection(d, h.sectionsOff + k * 40).value; s.virtualAddress + s.length <= size
  {
    hide U32At;
  }

  lemma {:induction false} CopiedIffFits(d: seq<byte>, h: Header, img: seq<byte>, i: nat)
    requires i <= h.sections
    ensures CopySections(d, h.sectionsOff, img, i, h.sections).Done? <==>
            forall k :: i <= k < h.sections ==> Fits(d, h, k, |img|)
    decreases h.sections - i
  {
    hide ReadSection, Fits;
    if i < h.sections {
      ReadableIffFits(d, h, i, |img|);
      if Fits(d, h, i, |img|) {
        var s := ReadSection(d, h.sectionsOff + i * 40).value;
        ReadSectionInside(d, h.sectionsOff + i * 40);
        CopiedIffFits(d, h, Patch(img, s.virtualAddress, d[s.source..s.source + s.length]), i + 1);
      }
    }
  }

  /** The sections are all copied exactly when they all lie in the file and in the image. */
  lemma UnrelocatedIffFits(d: seq<byte>, h: Header)
    ensures Unrelocated(d, h).Done? <==> forall k :: 0 <= k < h.sections ==> Fits(d, h, k, ImageSize(h))
  {
    hide CopySections, Fits;
    CopiedIffFits(d, h, Zeros(ImageSize(h)), 0);
  }

  /**
   * The image before relocation, in the file's own words: where a section reaches and no later one does, the byte
   * that far into the section's data; zero where no section reaches.
   */
  lemma {:induction false} UnrelocatedByte(d: seq<byte>, h: Header, at: nat)
    requires Unrelocated(d, h).Done? && at < ImageSize(h)
    ensures |Unrelocated(d, h).image| == ImageSize(h)
    ensures forall k :: 0 <= k < h.sections && Reaches(d, SectionHeader(h, k), at)
                        && (forall j :: k < j < h.sections ==> !Reaches(d, SectionHeader(h, j), at)) ==>
              ReachedByte(d, SectionHeader(h, k), at, Unrelocated(d, h).image[at])
    ensures (forall k :: 0 <= k < h.sections ==> !Reaches(d, SectionHeader(h, k), at)) ==>
              Unrelocated(d, h).image[at] == 0
  {
    hide ReadSection, Covers, SectionByte, Reaches, ReachedByte, U32At, CopySections, SectionHeader;
    var off, n := h.sectionsOff, h.sections;
    CopiedSize(d, off, Zeros(ImageSize(h)), 0, n);
    CopiedByte(d, off, Zeros(ImageSize(h)), 0, n, at);
    forall k | 0 <= k < n
      ensures Covers(d, off, k, at) <==> Reaches(d, SectionHeader(h, k), at)
    {
      SectionsRead(d, off, Zeros(ImageSize(h)), 0, n, k);
      CoversIffReaches(d, h, k, at);
    }
    forall k | 0 <= k < n && Reaches(d, SectionHeader(h, k), at)
               && (forall j :: k < j < n ==> !Reaches(d, SectionHeader(h, j), at))
      ensures ReachedByte(d, SectionHeader(h, k), at, Unrelocated(d, h).image[at])
    {
      SectionsRead(d, off, Zeros(ImageSize(h)), 0, n, k);
      CoversIffReaches(d, h, k, at);
    }
  }

  lemma ReadSectionInside(d: seq<byte>, s: nat)
    requires ReadSection(d, s).Ok?
    ensures var sec := ReadSection(d, s).value; sec.source + sec.length <= |d|
  {
  }

  lemma PatchByte(img: seq<byte>, at: nat, piece: seq<byte>, x: nat)
    requires at + |piece| <= |img| && at <= x < at + |piece|
    ensures Patch(img, at, piece)[x] == piece[x - at]
  {
    assert Patch(img, at, piece)[at..at + |piece|][x - at] == piece[x - at];
  }

  // ---------- position independence ----------

  /** The relocation directory lies in the image below `hi`, and its targets in the image, off it, and apart. */
  predicate SoundRelocations(img: seq<byte>, h: Header, hi: nat) {
    && hi <= |img|
    && var dir := ParseBlocks(img, h.relocRva, h.relocRva + h.relocSize, hi);
       dir.Directory? && Inside(dir.targets, |img|) && Misses(dir.targets, h.relocRva, hi) && AllApart(dir.targets)
  }

  function Directory(img: seq<byte>, h: Header, hi: nat): PeRelocations.Directory
    requires hi <= |img|
  {
    ParseBlocks(img, h.relocRva, h.relocRva + h.relocSize, hi)
  }

  lemma RelocateIsAddAll(img: seq<byte>, h: Header, hi: nat, delta: u64)
    requires SoundRelocations(img, h, hi) && Directory(img, h, hi).error.None?
    ensures Relocate(img, h, delta) == Done(AddAll(img, Directory(img, h, hi).targets, delta))
  {
    hide AddAll, AllApart;
    var dir := Directory(img, h, hi);
    if h.relocSize == 0 {
      AddAllNil(img, delta);
    } else if delta == 0 {
      AddAllZero(img, dir.targets);
    } else {
      WalkIsList(img, h.relocRva, h.relocRva + h.relocSize, delta, h.relocRva, hi);
    }
  }

  lemma DeltasAdd(h: Header, a: u64, b: u64)
    ensures (Delta(h, a) + (b - a) % WORD) % WORD == Delta(h, b)
  {
  }

  /**
   * Position independence: an image loaded at `a` and then relocated by `b - a` is the image loaded at
   * `b`, byte for byte.
   */
  lemma RebaseIsReload(d: seq<byte>, h: Header, hi: nat, a: u64, b: u64)
    requires Unrelocated(d, h).Done? && SoundRelocations(Unrelocated(d, h).image, h, hi)
    requires Directory(Unrelocated(d, h).image, h, hi).error.None?
    ensures LoadedAt(d, h, a).Done? && LoadedAt(d, h, b).Done?
    ensures Relocate(LoadedAt(d, h, a).image, h, (b - a) % WORD) == LoadedAt(d, h, b)
  {
    hide AddAll, Unrelocated, Relocate, ParseBlocks, Inside, Misses, AllApart, Agree, Delta;
    DeltasAdd(h, a, b);
    var img := Unrelocated(d, h).image;
    var ts := Directory(img, h, hi).targets;
    RelocateIsAddAll(img, h, hi, Delta(h, a));
    RelocateIsAddAll(img, h, hi, Delta(h, b));
    var atA := AddAll(img, ts, Delta(h, a));
    AddAllAgrees(img, ts, Delta(h, a), h.relocRva, hi);
    ParseBlocksAgree(img, atA, h.relocRva, hi, h.relocRva, h.relocRva + h.relocSize);
    RelocateIsAddAll(atA, h, hi, (b - a) % WORD);
    AddAllTwice(img, ts, Delta(h, a), (b - a) % WORD);
  }

  /**
   * What a loaded image holds: at each target the word the sections put there with the load offset
   * added (once per listing), and everywhere off the targets the section bytes and zeros untouched.
   */
  lemma LoadedContents(d: seq<byte>, h: Header, hi: nat, base: u64)
    requires Unrelocated(d, h).Done? && SoundRelocations(Unrelocated(d, h).image, h, hi)
    requires Directory(Unrelocated(d, h).image, h, hi).error.None?
    ensures LoadedAt(d, h, base).Done?
    ensures var img, out := Unrelocated(d, h).image, LoadedAt(d, h, base).image;
            var ts := Directory(img, h, hi).targets;
            && |out| == |img|
            && Inside(ts, |img|)
            && (forall t :: t in ts ==> U64At(out, t) == (U64At(img, t) + Count(ts, t) * Delta(h, base)) % WORD)
            && (forall x :: 0 <= x < |img| && (forall t :: t in ts ==> !(t <= x < t + 8)) ==> out[x] == img[x])
  {
    hide AddAll, Unrelocated, Relocate, ParseBlocks, U64At, Count;
    var img := Unrelocated(d, h).image;
    var ts := Directory(img, h, hi).targets;
    RelocateIsAddAll(img, h, hi, Delta(h, base));
    var out := AddAll(img, ts, Delta(h, base));
    forall t | t in ts
      ensures t + 8 <= |img| && U64At(out, t) == (U64At(img, t) + Count(ts, t) * Delta(h, base)) % WORD
    {
      AddAllWord(img, ts, Delta(h, base), t);
    }
    forall x | 0 <= x < |img| && (forall t :: t in ts ==> !(t <= x < t + 8))
      ensures out[x] == img[x]
    {
      AddAllOutside(img, ts, Delta(h, base), x);
    }
  }

  /**
   * The relocated image in the directory's own words: each 64-bit word the blocks list has the difference between
   * the load address and the preferred base added once for each listing, and every other byte is the sections'.
   */
  lemma {:induction false} RelocatedWords(
    d: seq<byte>, h: Header, hi: nat, blocks: seq<(nat, nat)>, base: u64)
    requires Unrelocated(d, h).Done?
    requires IsDirectory(Unrelocated(d, h).image, h.relocRva, h.relocRva + h.relocSize, hi, blocks)
    requires SoundListing(Unrelocated(d, h).image, h.relocRva, hi, blocks)
    ensures LoadedAt(d, h, base).Done?
    ensures var img, out := Unrelocated(d, h).image, LoadedAt(d, h, base).image;
            && |out| == |img|
            && (forall t: nat :: Listed(img, blocks, t) > 0 ==>
                  && t + 8 <= |img|
                  && U64At(out, t) ==
                     (U64At(img, t) + Listed(img, blocks, t) * ((base - h.preferredBase) % 0x1_0000_0000_0000_0000))
                     % 0x1_0000_0000_0000_0000)
            && (forall x :: 0 <= x < |img| && (forall t: nat :: Listed(img, blocks, t) > 0 ==> !(t <= x < t + 8)) ==>
                  out[x] == img[x])
  {
    hide Unrelocated, Relocate, LoadedAt, ParseBlocks, U64At, Count, Listed, IsDirectory;
    var img, end := Unrelocated(d, h).image, h.relocRva + h.relocSize;
    ListingIsSound(img, h.relocRva, end, hi, blocks);
    DirectoryFits(img, h.relocRva, end, hi, blocks);
    LoadedContents(d, h, hi, base);
    var out, ts := LoadedAt(d, h, base).image, Directory(img, h, hi).targets;
    forall t: nat | Listed(img, blocks, t) > 0
      ensures t + 8 <= |img|
      ensures U64At(out, t) == (U64At(img, t) + Listed(img, blocks, t) * ((base - h.preferredBase) % WORD)) % WORD
    {
      DirectoryLists(img, h.relocRva, end, hi, blocks, t);
      assert t in ts;
    }
  }

  // ---------- the loader ----------

  /** RAM with the image at `base` replaced. */
  function WithImage(ram: seq<byte>, base: nat, img: seq<byte>): seq<byte>
    requires base + |img| <= |ram|
  {
    ram[..base] + img + ram[base + |img|..]
  }

  /** `ram` is `was` with the image `img` at `base`. */
  predicate Holds(ram: seq<byte>, was: seq<byte>, base: nat, img: seq<byte>) {
    base + |img| <= |was| && ram == WithImage(was, base, img)
  }

  /** Reads `n` bytes of the image. */
  method Peek(ram: array<byte>, addr: nat, n: nat, ghost was: seq<byte>, ghost base: nat, ghost img: seq<byte>)
    returns (s: seq<byte>)
    requires Holds(ram[..], was, base, img) && base <= addr && addr - base + n <= |img|
    ensures s == img[addr - base..addr - base + n]
  {
    s := ram[addr..addr + n];
  }

  /** Copies `src` into the image. */
  method Poke(ram: array<byte>, addr: nat, src: seq<byte>, ghost was: seq<byte>, ghost base: nat, ghost img: seq<byte>)
    requires Holds(ram[..], was, base, img) && base <= addr && addr - base + |src| <= |img|
    modifies ram
    ensures Holds(ram[..], was, base, Patch(img, addr - base, src))
  {
    ghost var before := ram[..];
    for i := 0 to |src|
      invariant forall k :: 0 <= k < ram.Length ==> ram[k] == if addr <= k < addr + i then src[k - addr] else before[k]
    {
      ram[addr + i] := src[i];
    }
    ghost var after := WithImage(was, base, Patch(img, addr - base, src));
    forall k | 0 <= k < ram.Length
      ensures ram[k] == after[k]
    {
      if addr <= k < addr + |src| {
        PatchByte(img, addr - base, src, k - base);
      }
    }
    assert ram[..] == after;
  }

  method ApplyRelocations(ram: array<byte>, base: nat, dirRva: u32, dirSize: u32, delta: u64,
                          ghost was: seq<byte>, ghost img: seq<byte>)
    returns (error: Option<PeError>)
    requires Holds(ram[..], was, base, img)
    requires !WalkBlocks(img, dirRva, dirRva + dirSize, delta).Stray?
    modifies ram
    ensures var o := WalkBlocks(img, dirRva, dirRva + dirSize, delta);
            && |o.image| == |img| && Holds(ram[..], was, base, o.image)
            && error == if o.Failed? then Some(o.error) else None
  {
    hide Holds, WithImage, WalkEntries, U32;
    var blockAddr := base + dirRva;
    var dirEnd := blockAddr + dirSize;
    ghost var goal := WalkBlocks(img, dirRva, dirRva + dirSize, delta);
    ghost var cur := img;
    while blockAddr < dirEnd
      invariant base <= blockAddr
      invariant |cur| == |img| && Holds(ram[..], was, base, cur)
      invariant WalkBlocks(cur, blockAddr - base, dirEnd - base, delta) == goal
    {
      var pageBytes := Peek(ram, blockAddr, 4, was, base, cur);
      var sizeBytes := Peek(ram, blockAddr + 4, 4, was, base, cur);
      var pageRva, blockSize := U32(pageBytes), U32(sizeBytes);
      if blockSize < 8 {
        return None;
      }
      error, cur := ApplyBlock(ram, base, blockAddr, pageRva, (blockSize - 8) / 2, delta, was, cur);
      if error.Some? {
        return error;
      }
      blockAddr := blockAddr + blockSize;
    }
    return None;
  }

  method ApplyOne(ram: array<byte>, base: nat, pageRva: u32, entry: u16, delta: u64,
                  ghost was: seq<byte>, ghost img: seq<byte>)
    returns (error: Option<PeError>, ghost next: seq<byte>)
    requires Holds(ram[..], was, base, img)
    requires !ApplyEntry(img, pageRva, entry, delta).Stray?
    modifies ram
    ensures var o := ApplyEntry(img, pageRva, entry, delta);
            && next == o.image && |next| == |img| && Holds(ram[..], was, base, next)
            && error == if o.Failed? then Some(o.error) else None
  {
    hide Holds, WithImage, U64;
    var kind, offset := entry / 0x1000, entry % 0x1000;
    if kind == REL_BASED_ABSOLUTE {
      return None, img;
    } else if kind != REL_BASED_DIR64 {
      return Some(UnsupportedRelocation(kind)), img;
    }
    var target := base + pageRva + offset;
    var value := Peek(ram, target, 8, was, base, img);
    Poke(ram, target, Le64((U64(value) + delta) % WORD), was, base, img);
    return None, AddAt(img, target - base, delta);
  }

  method ApplyBlock(ram: array<byte>, base: nat, blockAddr: nat, pageRva: u32, count: nat, delta: u64,
                    ghost was: seq<byte>, ghost img: seq<byte>)
    returns (error: Option<PeError>, ghost next: seq<byte>)
    requires Holds(ram[..], was, base, img) && base <= blockAddr
    requires !WalkEntries(img, blockAddr - base, pageRva, 0, count, delta).Stray?
    modifies ram
    ensures var o := WalkEntries(img, blockAddr - base, pageRva, 0, count, delta);
            && next == o.image && |next| == |img| && Holds(ram[..], was, base, next)
            && error == if o.Failed? then Some(o.error) else None
  {
    hide Holds, WithImage, U16, ApplyEntry;
    ghost var goal := WalkEntries(img, blockAddr - base, pageRva, 0, count, delta);
    next := img;
    for i := 0 to count
      invariant |next| == |img| && Holds(ram[..], was, base, next)
      invariant WalkEntries(next, blockAddr - base, pageRva, i, count, delta) == goal
    {
      var entryBytes := Peek(ram, blockAddr + 8 + i * 2, 2, was, base, next);
      var entry := U16(entryBytes);
      error, next := ApplyOne(ram, base, pageRva, entry, delta, was, next);
      if error.Some? {
        return error, next;
      }
    }
    return None, next;
  }

  /** The section loop. */
  method CopyAll(d: seq<byte>, h: Header, ram: array<byte>, base: nat, ghost was: seq<byte>)
    returns (error: Option<PeError>, ghost img: seq<byte>)
    requires Holds(ram[..], was, base, Zeros(ImageSize(h)))
    requires !Unrelocated(d, h).Stray?
    modifies ram
    ensures var o := Unrelocated(d, h);
            && img == o.image && |img| == ImageSize(h) && Holds(ram[..], was, base, img)
            && error == if o.Failed? then Some(o.error) else None
  {
    hide Holds, WithImage, ReadSection, Patch;
    ghost var goal := Unrelocated(d, h);
    img := Zeros(ImageSize(h));
    for i := 0 to h.sections
      invariant |img| == ImageSize(h) && Holds(ram[..], was, base, img)
      invariant CopySections(d, h.sectionsOff, img, i, h.sections) == goal
    {
      var r := ReadSection(d, h.sectionsOff + i * 40);
      if r.Err? {
        return Some(r.error), img;
      }
      var s := r.value;
      ReadSectionInside(d, h.sectionsOff + i * 40);
      var src := d[s.source..s.source + s.length];
      Poke(ram, base + s.virtualAddress, src, was, base, img);
      img := Patch(img, s.virtualAddress, src);
    }
    return None, img;
  }

  lemma GrantHoldsImage(mark: nat, generation: nat, h: Header)
    requires mark <= RAM_LIMIT
    ensures Pages(h) < WORD
    ensures var r := PageAllocator.Allocate(PageAllocator.Allocator(mark, generation), Pages(h)).1;
            r.Some? ==> r.value == mark && r.value + ImageSize(h) <= RAM_LIMIT
    ensures var (alloc, r) := PageAllocator.Allocate(PageAllocator.Allocator(mark, generation), Pages(h));
            r.Some? ==> alloc.mark == mark + ImageSize(h)
  {
  }

  lemma OwnImage(ram: seq<byte>, base: nat, n: nat)
    requires base + n <= |ram|
    ensures Holds(ram, ram, base, ram[base..base + n])
  {
  }

  /**
   * Loads the image where the allocator puts it. On success RAM there is exactly the image loaded at that
   * address; on any failure and in any case the rest of RAM is untouched.
   */
  method Load(d: seq<byte>, ram: array<byte>, services: BootServices.Services) returns (r: Result<LoadedPe>)
    requires ram.Length == RAM_LIMIT && services.nextFreePage <= RAM_LIMIT
    requires ParseHeader(d).Ok? ==>
               !LoadedAt(d, ParseHeader(d).value, services.nextFreePage).Stray?
    modifies ram, services
    ensures ParseHeader(d).Err? ==>
              r == Err(ParseHeader(d).error) && ram[..] == old(ram[..]) && services.State() == old(services.State())
    ensures ParseHeader(d).Ok? ==>
              && var h := ParseHeader(d).value;
              && var (alloc, at) := PageAllocator.Allocate(old(services.State()).alloc, Pages(h));
              && services.State() == old(services.State()).(alloc := alloc)
              && match at
                 case None => r == Err(AllocationFailed) && ram[..] == old(ram[..])
                 case Some(base) =>
                   var o := LoadedAt(d, h, base);
                   && !o.Stray? && |o.image| == ImageSize(h) && Holds(ram[..], old(ram[..]), base, o.image)
                   && r == if o.Failed? then Err(o.error) else Ok(LoadedPe(base, ImageSize(h), base + h.entryPoint))
    ensures r.Ok? ==>
              && r.value.imageBase == old(services.nextFreePage)
              && services.nextFreePage == r.value.imageBase + r.value.imageSize <= RAM_LIMIT
  {
    hide Holds, WithImage, WalkBlocks, Unrelocated, ParseHeader, PageAllocator.NewMark;
    var parsed := ParseHeader(d);
    if parsed.Err? {
      return Err(parsed.error);
    }
    var h := parsed.value;
    GrantHoldsImage(services.nextFreePage, services.generation, h);
    var at := services.AllocateRange(Pages(h));
    if at.None? {
      return Err(AllocationFailed);
    }
    var base := at.value;
    ghost var was := ram[..];
    OwnImage(was, base, ImageSize(h));
    Poke(ram, base, Zeros(ImageSize(h)), was, base, was[base..base + ImageSize(h)]);
    assert Patch(was[base..base + ImageSize(h)], 0, Zeros(ImageSize(h))) == Zeros(ImageSize(h));
    var error, img := CopyAll(d, h, ram, base, was);
    if error.Some? {
      return Err(error.value);
    }
    var delta := (base - h.preferredBase) % WORD;
    if delta != 0 && h.relocSize > 0 {
      error := ApplyRelocations(ram, base, h.relocRva, h.relocSize, delta, was, img);
      if error.Some? {
        return Err(error.value);
      }
    }
    return Ok(LoadedPe(base, Pages(h) * 0x1000, base + h.entryPoint));
  }
}
