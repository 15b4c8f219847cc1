/** Base relocations: walking the directory out of the loaded image and patching the image as it goes. */
module PeRelocations {
  import opened Bytes
  import opened Options

  const WORD := 0x1_0000_0000_0000_0000
  const REL_BASED_ABSOLUTE := 0
  const REL_BASED_DIR64 := 10

  datatype PeError =
    | Truncated | NotDos | NotPe | WrongMachine | NotPe32Plus | AllocationFailed
    | UnsupportedRelocation(kind: nat)

  /** How a pass over the image ends; `Stray` is an access outside the image, which the loader does not check for. */
  datatype Outcome = Stray | Done(image: seq<byte>) | Failed(image: seq<byte>, error: PeError)

  // ---------- the walk, re-reading the directory from the image it is patching ----------

  function U64At(img: seq<byte>, t: nat): u64
    requires t + 8 <= |img|
  {
    U64(img[t..t + 8])
  }

  function U32At(img: seq<byte>, t: nat): u32
    requires t + 4 <= |img|
  {
    U32(img[t..t + 4])
  }

  function U16At(img: seq<byte>, t: nat): u16
    requires t + 2 <= |img|
  {
    U16(img[t..t + 2])
  }

  /** `delta` added to the 64-bit word at `t`. */
  function AddAt(img: seq<byte>, t: nat, delta: u64): (r: seq<byte>)
    requires t + 8 <= |img|
    ensures |r| == |img|
  {
    Patch(img, t, Le64((U64At(img, t) + delta) % WORD))
  }

  function ApplyEntry(img: seq<byte>, pageRva: u32, entry: u16, delta: u64): Outcome {
    var target := pageRva + entry % 0x1000;
    if entry / 0x1000 == REL_BASED_ABSOLUTE then Done(img)
    else if entry / 0x1000 != REL_BASED_DIR64 then Failed(img, UnsupportedRelocation(entry / 0x1000))
    else if target + 8 > |img| then Stray
    else Done(AddAt(img, target, delta))
  }

  function WalkEntries(img: seq<byte>, block: nat, pageRva: u32, i: nat, count: nat, delta: u64): Outcome
    requires i <= count
    decreases count - i
  {
    if i == count then Done(img)
    else if block + 10 + 2 * i > |img| then Stray
    else
      match ApplyEntry(img, pageRva, U16At(img, block + 8 + 2 * i), delta)
      case Done(next) => WalkEntries(next, block, pageRva, i + 1, count, delta)
      case o => o
  }

  function WalkBlocks(img: seq<byte>, block: nat, end: nat, delta: u64): Outcome
    decreases end - block
  {
    if block >= end then Done(img)
    else if block + 8 > |img| then Stray
    else
      var size := U32At(img, block + 4);
      if size < 8 then Done(img)
      else
        match WalkEntries(img, block, U32At(img, block), 0, (size - 8) / 2, delta)
        case Done(next) => WalkBlocks(next, block + size, end, delta)
        case o => o
  }

  // ---------- the directory as a list of targets ----------

  /** The targets up to the first unsupported entry, if there is one; `Astray` if the directory leaves its bounds. */
  datatype Directory = Astray | Directory(targets: seq<nat>, error: Option<PeError>)

  function Before(targets: seq<nat>, d: Directory): Directory {
    match d
    case Astray => Astray
    case Directory(ts, error) => Directory(targets + ts, error)
  }

  function ParseEntries(img: seq<byte>, block: nat, pageRva: u32, i: nat, count: nat, hi: nat): Directory
    requires i <= count && hi <= |img|
    decreases count - i
  {
    if i == count then Directory([], None)
    else if block + 10 + 2 * i > hi then Astray
    else
      var entry := U16At(img, block + 8 + 2 * i);
      if entry / 0x1000 == REL_BASED_ABSOLUTE then ParseEntries(img, block, pageRva, i + 1, count, hi)
      else if entry / 0x1000 != REL_BASED_DIR64 then Directory([], Some(UnsupportedRelocation(entry / 0x1000)))
      else Before([pageRva + entry % 0x1000], ParseEntries(img, block, pageRva, i + 1, count, hi))
  }

  /** The directory at [block, end), all of whose blocks must lie below `hi`. */
  function ParseBlocks(img: seq<byte>, block: nat, end: nat, hi: nat): Directory
    requires hi <= |img|
    decreases end - block
  {
    if block >= end then Directory([], None)
    else if block + 8 > hi then Astray
    else
      var size := U32At(img, block + 4);
      if size < 8 then Directory([], None)
      else
        var d := ParseEntries(img, block, U32At(img, block), 0, (size - 8) / 2, hi);
        if d.Directory? && d.error.None? then Before(d.targets, ParseBlocks(img, block + size, end, hi)) else d
  }

  predicate Inside(targets: seq<nat>, n: nat) {
    forall t :: t in targets ==> t + 8 <= n
  }

  /** No target touches the bytes [lo, hi). */
  predicate Misses(targets: seq<nat>, lo: nat, hi: nat) {
    forall t :: t in targets ==> t + 8 <= lo || hi <= t
  }

  predicate Apart(t: nat, u: nat) {
    t == u || t + 8 <= u || u + 8 <= t
  }

  /** Any two targets are the same word or disjoint. */
  predicate AllApart(targets: seq<nat>) {
    forall t, u :: t in targets && u in targets ==> Apart(t, u)
  }

  /** `delta` added at each target, in order. */
  function AddAll(img: seq<byte>, targets: seq<nat>, delta: u64): (r: seq<byte>)
    requires Inside(targets, |img|)
    ensures |r| == |img|
  {
    if targets == [] then img
    else
      var n := |targets| - 1;
      assert targets[n] in targets && forall x :: x in targets[..n] ==> x in targets;
      AddAt(AddAll(img, targets[..n], delta), targets[n], delta)
  }

  // ---------- one word at a time ----------

  lemma SameAt(a: seq<byte>, b: seq<byte>, t: nat, n: nat)
    requires |a| == |b| && t + n <= |a|
    requires forall i :: t <= i < t + n ==> a[i] == b[i]
    ensures a[t..t + n] == b[t..t + n]
  {
  }

  lemma AddAtOutside(img: seq<byte>, t: nat, delta: u64, i: nat)
    requires t + 8 <= |img| && i < |img| && !(t <= i < t + 8)
    ensures AddAt(img, t, delta)[i] == img[i]
  {
  }

  lemma AddAtWord(img: seq<byte>, t: nat, delta: u64)
    requires t + 8 <= |img|
    ensures U64At(AddAt(img, t, delta), t) == (U64At(img, t) + delta) % WORD
  {
    Le64RoundTrip((U64At(img, t) + delta) % WORD);
  }

  lemma U64RoundTrip(s: seq<byte>)
    requires |s| == 8
    ensures Le64(U64(s)) == s
  {
    var lo, hi := U32(s[..4]), U32(s[4..]);
    U32RoundTrip(s[..4]);
    U32RoundTrip(s[4..]);
    assert U64(s) % 0x1_0000_0000 == lo && U64(s) / 0x1_0000_0000 == hi;
    assert Le64(U64(s)) == Le32(lo) + Le32(hi) == s[..4] + s[4..] == s;
  }

  /** Images that agree outside a word and hold the same number in it are the same. */
  lemma SameWord(a: seq<byte>, b: seq<byte>, t: nat)
    requires |a| == |b| && t + 8 <= |a| && U64At(a, t) == U64At(b, t)
    requires forall i :: 0 <= i < |a| && !(t <= i < t + 8) ==> a[i] == b[i]
    ensures a == b
  {
    U64RoundTrip(a[t..t + 8]);
    U64RoundTrip(b[t..t + 8]);
    forall i | 0 <= i < |a|
      ensures a[i] == b[i]
    {
      if t <= i < t + 8 {
        assert a[i] == a[t..t + 8][i - t] == b[t..t + 8][i - t] == b[i];
      }
    }
  }

  lemma AddZero(img: seq<byte>, t: nat)
    requires t + 8 <= |img|
    ensures AddAt(img, t, 0) == img
  {
    hide AddAt;
    AddAtWord(img, t, 0);
    forall i | 0 <= i < |img| && !(t <= i < t + 8)
      ensures AddAt(img, t, 0)[i] == img[i]
    {
      AddAtOutside(img, t, 0, i);
    }
    SameWord(AddAt(img, t, 0), img, t);
  }

  lemma ModAdds(v: nat, d: nat, e: nat)
    ensures ((v + d) % WORD + e) % WORD == (v + (d + e) % WORD) % WORD
  {
    ModAdd(v + d, e);
    ModAdd(d + e, v);
  }

  lemma AddTwice(img: seq<byte>, t: nat, d: u64, e: u64)
    requires t + 8 <= |img|
    ensures AddAt(AddAt(img, t, d), t, e) == AddAt(img, t, (d + e) % WORD)
  {
    hide AddAt, U64At;
    var a, b := AddAt(AddAt(img, t, d), t, e), AddAt(img, t, (d + e) % WORD);
    AddAtWord(img, t, d);
    AddAtWord(AddAt(img, t, d), t, e);
    AddAtWord(img, t, (d + e) % WORD);
    ModAdds(U64At(img, t), d, e);
    forall i | 0 <= i < |img| && !(t <= i < t + 8)
      ensures a[i] == b[i]
    {
      AddAtOutside(img, t, d, i);
      AddAtOutside(AddAt(img, t, d), t, e, i);
      AddAtOutside(img, t, (d + e) % WORD, i);
    }
    SameWord(a, b, t);
  }

  /** Adding at one word leaves a word apart from it alone. */
  lemma AddApart(img: seq<byte>, t: nat, d: u64, u: nat)
    requires t + 8 <= |img| && u + 8 <= |img| && t != u && Apart(t, u)
    ensures U64At(AddAt(img, t, d), u) == U64At(img, u)
  {
    hide AddAt;
    forall i | u <= i < u + 8
      ensures AddAt(img, t, d)[i] == img[i]
    {
      AddAtOutside(img, t, d, i);
    }
    SameAt(AddAt(img, t, d), img, u, 8);
  }

  lemma AddsCommute(img: seq<byte>, t: nat, d: u64, u: nat, e: u64)
    requires t + 8 <= |img| && u + 8 <= |img| && Apart(t, u)
    ensures AddAt(AddAt(img, t, d), u, e) == AddAt(AddAt(img, u, e), t, d)
  {
    hide AddAt, U64At;
    if t == u {
      AddTwice(img, t, d, e);
      AddTwice(img, t, e, d);
    } else {
      var a, b := AddAt(AddAt(img, t, d), u, e), AddAt(AddAt(img, u, e), t, d);
      AddApart(img, t, d, u);
      AddApart(img, u, e, t);
      AddAtWord(AddAt(img, t, d), u, e);
      AddAtWord(img, u, e);
      AddApart(AddAt(img, u, e), t, d, u);
      forall i | 0 <= i < |img| && !(u <= i < u + 8)
        ensures a[i] == b[i]
      {
        CommuteElsewhere(img, t, d, u, e, i);
      }
      SameWord(a, b, u);
    }
  }

  lemma CommuteElsewhere(img: seq<byte>, t: nat, d: u64, u: nat, e: u64, i: nat)
    requires t + 8 <= |img| && u + 8 <= |img| && t != u && Apart(t, u) && i < |img| && !(u <= i < u + 8)
    ensures AddAt(AddAt(img, t, d), u, e)[i] == AddAt(AddAt(img, u, e), t, d)[i]
  {
    hide AddAt, U64At;
    AddAtOutside(AddAt(img, t, d), u, e, i);
    if t <= i < t + 8 {
      var a, b := AddAt(img, t, d), AddAt(AddAt(img, u, e), t, d);
      AddAtWord(img, t, d);
      AddApart(img, u, e, t);
      AddAtWord(AddAt(img, u, e), t, d);
      U64AtBytes(a, b, t, i);
    } else {
      AddAtOutside(img, t, d, i);
      AddAtOutside(img, u, e, i);
      AddAtOutside(AddAt(img, u, e), t, d, i);
    }
  }

  lemma U64AtBytes(a: seq<byte>, b: seq<byte>, t: nat, i: nat)
    requires t + 8 <= |a| == |b| && U64At(a, t) == U64At(b, t) && t <= i < t + 8
    ensures a[i] == b[i]
  {
    U64RoundTrip(a[t..t + 8]);
    U64RoundTrip(b[t..t + 8]);
    assert a[i] == a[t..t + 8][i - t] == b[t..t + 8][i - t] == b[i];
  }

  // ---------- all words ----------

  lemma {:induction false} AddAllOutside(img: seq<byte>, targets: seq<nat>, delta: u64, i: nat)
    requires Inside(targets, |img|) && i < |img|
    requires forall t :: t in targets ==> !(t <= i < t + 8)
    ensures AddAll(img, targets, delta)[i] == img[i]
  {
    hide AddAt;
    if targets != [] {
      var n := |targets| - 1;
      assert targets[n] in targets && forall x :: x in targets[..n] ==> x in targets;
      AddAllOutside(img, targets[..n], delta, i);
      AddAtOutside(AddAll(img, targets[..n], delta), targets[n], delta, i);
    }
  }

  function Count(targets: seq<nat>, t: nat): nat {
    if targets == [] then 0
    else Count(targets[..|targets| - 1], t) + if targets[|targets| - 1] == t then 1 else 0
  }

  lemma AddModWord(v: nat, k: nat, d: nat)
    ensures ((v + k * d) % WORD + d) % WORD == (v + (k + 1) * d) % WORD
  {
    assert (k + 1) * d == k * d + d;
    ModAdd(v + k * d, d);
  }

  lemma ModAdd(x: nat, d: nat)
    ensures (x % WORD + d) % WORD == (x + d) % WORD
  {
  }

  /**
   * What relocation does to the image: the word at `t` has `delta` added once for each time `t` is
   * listed, modulo 2^64 (and a byte in no target is unchanged, by `AddAllOutside`).
   */
  lemma {:induction false} AddAllWord(img: seq<byte>, targets: seq<nat>, delta: u64, t: nat)
    requires Inside(targets, |img|) && t + 8 <= |img| && forall u :: u in targets ==> Apart(t, u)
    ensures U64At(AddAll(img, targets, delta), t) == (U64At(img, t) + Count(targets, t) * delta) % WORD
  {
    hide AddAt, U64At;
    if targets != [] {
      var n := |targets| - 1;
      var u := targets[n];
      assert u in targets && forall x :: x in targets[..n] ==> x in targets;
      AddAllWord(img, targets[..n], delta, t);
      var mid := AddAll(img, targets[..n], delta);
      if u == t {
        AddAtWord(mid, t, delta);
        AddModWord(U64At(img, t), Count(targets[..n], t), delta);
      } else {
        AddApart(mid, u, delta, t);
      }
    }
  }

  lemma {:induction false} AddAllZero(img: seq<byte>, targets: seq<nat>)
    requires Inside(targets, |img|)
    ensures AddAll(img, targets, 0) == img
  {
    hide AddAt;
    if targets != [] {
      var n := |targets| - 1;
      assert targets[n] in targets && forall x :: x in targets[..n] ==> x in targets;
      AddAllZero(img, targets[..n]);
      AddZero(img, targets[n]);
    }
  }

  /** One more addition commutes with the whole list. */
  lemma {:induction false} AddPastAll(img: seq<byte>, targets: seq<nat>, d: u64, t: nat, e: u64)
    requires Inside(targets, |img|) && t + 8 <= |img| && forall u :: u in targets ==> Apart(t, u)
    ensures AddAll(AddAt(img, t, e), targets, d) == AddAt(AddAll(img, targets, d), t, e)
  {
    hide AddAt;
    if targets != [] {
      var n := |targets| - 1;
      assert targets[n] in targets && forall x :: x in targets[..n] ==> x in targets;
      AddPastAll(img, targets[..n], d, t, e);
      AddsCommute(AddAll(img, targets[..n], d), t, e, targets[n], d);
    }
  }

  /** Relocating by `d` and then by `e` is relocating once by their sum. */
  lemma {:induction false} AddAllTwice(img: seq<byte>, targets: seq<nat>, d: u64, e: u64)
    requires Inside(targets, |img|) && AllApart(targets)
    ensures AddAll(AddAll(img, targets, d), targets, e) == AddAll(img, targets, (d + e) % WORD)
  {
    hide AddAt, Apart;
    if targets != [] {
      var n := |targets| - 1;
      var ts, t := targets[..n], targets[n];
      assert t in targets;
      assert forall u :: u in ts ==> u in targets;
      var first := AddAll(img, ts, d);
      calc {
        AddAll(AddAll(img, targets, d), targets, e);
        AddAt(AddAll(AddAt(first, t, d), ts, e), t, e);
        { AddPastAll(first, ts, e, t, d); }
        AddAt(AddAt(AddAll(first, ts, e), t, d), t, e);
        { AddTwice(AddAll(first, ts, e), t, d, e); }
        AddAt(AddAll(first, ts, e), t, (d + e) % WORD);
        { AddAllTwice(img, ts, d, e); }
        AddAt(AddAll(img, ts, (d + e) % WORD), t, (d + e) % WORD);
      }
    }
  }

  lemma {:induction false} AddAllConcat(img: seq<byte>, a: seq<nat>, b: seq<nat>, delta: u64)
    requires Inside(a, |img|) && Inside(b, |img|)
    ensures Inside(a + b, |img|)
    ensures AddAll(img, a + b, delta) == AddAll(AddAll(img, a, delta), b, delta)
  {
    hide AddAt;
    if b == [] {
      assert a + b == a;
    } else {
      var n := |b| - 1;
      assert b[n] in b && forall t :: t in b[..n] ==> t in b;
      AddAllConcat(img, a, b[..n], delta);
      assert (a + b)[..|a| + n] == a + b[..n];
    }
  }

  // ---------- the walk is the list ----------

  predicate Agree(a: seq<byte>, b: seq<byte>, lo: nat, hi: nat) {
    |a| == |b| && hi <= |a| && forall i :: lo <= i < hi ==> a[i] == b[i]
  }

  lemma {:induction false} ParseEntriesAgree(a: seq<byte>, b: seq<byte>, lo: nat, hi: nat,
                                             block: nat, pageRva: u32, i: nat, count: nat)
    requires Agree(a, b, lo, hi) && lo <= block && i <= count
    ensures ParseEntries(a, block, pageRva, i, count, hi) == ParseEntries(b, block, pageRva, i, count, hi)
    decreases count - i
  {
    hide U16;
    if i < count && block + 10 + 2 * i <= hi {
      SameAt(a, b, block + 8 + 2 * i, 2);
      ParseEntriesAgree(a, b, lo, hi, block, pageRva, i + 1, count);
    }
  }

  lemma {:induction false} ParseBlocksAgree(a: seq<byte>, b: seq<byte>, lo: nat, hi: nat, block: nat, end: nat)
    requires Agree(a, b, lo, hi) && lo <= block
    ensures ParseBlocks(a, block, end, hi) == ParseBlocks(b, block, end, hi)
    decreases end - block
  {
    hide U32, ParseEntries;
    if block < end && block + 8 <= hi {
      SameAt(a, b, block, 4);
      SameAt(a, b, block + 4, 4);
      var size := U32At(a, block + 4);
      if size >= 8 {
        ParseEntriesAgree(a, b, lo, hi, block, U32At(a, block), 0, (size - 8) / 2);
        ParseBlocksAgree(a, b, lo, hi, block + size, end);
      }
    }
  }

  lemma AddAllAgrees(img: seq<byte>, targets: seq<nat>, delta: u64, lo: nat, hi: nat)
    requires Inside(targets, |img|) && Misses(targets, lo, hi) && hi <= |img|
    ensures Agree(img, AddAll(img, targets, delta), lo, hi)
  {
    forall i | lo <= i < hi
      ensures AddAll(img, targets, delta)[i] == img[i]
    {
      AddAllOutside(img, targets, delta, i);
    }
  }

  /** The outcome of relocating by a parsed directory. */
  function Relocated(img: seq<byte>, d: Directory, delta: u64): Outcome
    requires d.Directory? && Inside(d.targets, |img|)
  {
    var next := AddAll(img, d.targets, delta);
    match d.error
    case None => Done(next)
    case Some(e) => Failed(next, e)
  }

  lemma {:induction false} EntriesWalkIsList(img: seq<byte>, block: nat, pageRva: u32, i: nat, count: nat, delta: u64,
                                             lo: nat, hi: nat)
    requires lo <= block && hi <= |img| && i <= count
    requires ParseEntries(img, block, pageRva, i, count, hi).Directory?
    requires var ts := ParseEntries(img, block, pageRva, i, count, hi).targets;
             Inside(ts, |img|) && Misses(ts, lo, hi)
    ensures WalkEntries(img, block, pageRva, i, count, delta)
            == Relocated(img, ParseEntries(img, block, pageRva, i, count, hi), delta)
    decreases count - i
  {
    hide AddAt, U16At;
    if i < count {
      var entry := U16At(img, block + 8 + 2 * i);
      if entry / 0x1000 == REL_BASED_ABSOLUTE {
        EntriesWalkIsList(img, block, pageRva, i + 1, count, delta, lo, hi);
      } else if entry / 0x1000 == REL_BASED_DIR64 {
        var target := pageRva + entry % 0x1000;
        var rest := ParseEntries(img, block, pageRva, i + 1, count, hi);
        assert ParseEntries(img, block, pageRva, i, count, hi).targets == [target] + rest.targets;
        assert target in [target] + rest.targets;
        assert forall t :: t in rest.targets ==> t in [target] + rest.targets;
        var next := AddAt(img, target, delta);
        assert [target][..0] == [];
        assert AddAll(img, [target], delta) == next;
        AddAllAgrees(img, [target], delta, lo, hi);
        ParseEntriesAgree(img, next, lo, hi, block, pageRva, i + 1, count);
        EntriesWalkIsList(next, block, pageRva, i + 1, count, delta, lo, hi);
        AddAllConcat(img, [target], rest.targets, delta);
      }
    }
  }

  /**
   * Although the walk re-reads the directory from the image it is patching, as long as no target touches
   * the directory it does exactly what the directory said at the start: `delta` added at each target,
   * stopping at the first unsupported entry.
   */
  lemma {:induction false} WalkIsList(img: seq<byte>, block: nat, end: nat, delta: u64, lo: nat, hi: nat)
    requires lo <= block && hi <= |img|
    requires ParseBlocks(img, block, end, hi).Directory?
    requires var ts := ParseBlocks(img, block, end, hi).targets;
             Inside(ts, |img|) && Misses(ts, lo, hi)
    ensures WalkBlocks(img, block, end, delta) == Relocated(img, ParseBlocks(img, block, end, hi), delta)
    decreases end - block
  {
    hide AddAt, AddAll, U32At, ParseEntries, WalkEntries;
    if block >= end || U32At(img, block + 4) < 8 {
      AddAllNil(img, delta);
    } else {
      var size := U32At(img, block + 4);
      var d := ParseEntries(img, block, U32At(img, block), 0, (size - 8) / 2, hi);
      var rest := ParseBlocks(img, block + size, end, hi);
      if d.error.None? {
        assert forall t :: t in d.targets ==> t in d.targets + rest.targets;
        assert forall t :: t in rest.targets ==> t in d.targets + rest.targets;
      }
      EntriesWalkIsList(img, block, U32At(img, block), 0, (size - 8) / 2, delta, lo, hi);
      if d.error.None? {
        var next := AddAll(img, d.targets, delta);
        AddAllAgrees(img, d.targets, delta, lo, hi);
        ParseBlocksAgree(img, next, lo, hi, block + size, end);
        WalkIsList(next, block + size, end, delta, lo, hi);
        AddAllConcat(img, d.targets, rest.targets, delta);
      }
    }
  }

  lemma AddAllNil(img: seq<byte>, delta: u64)
    ensures AddAll(img, [], delta) == img
  {
  }

  // ---------- the directory's format ----------

  /** The kind of entry `k` of the block at `b`, in the entry's top four bits, and the target it names. */
  function Kind(img: seq<byte>, b: nat, k: nat): nat
    requires b + 10 + 2 * k <= |img|
  {
    U16At(img, b + 8 + 2 * k) / 0x1000
  }

  function Target(img: seq<byte>, b: nat, k: nat): nat
    requires b + 10 + 2 * k <= |img|
  {
    U32At(img, b) as int + U16At(img, b + 8 + 2 * k) as int % 0x1000
  }

  /** The block at `b` lies below `hi` with its two header words and `n` entries, padding or 64-bit ones. */
  predicate IsBlock(img: seq<byte>, b: nat, n: nat, hi: nat) {
    && b + 8 + 2 * n <= hi <= |img|
    && 8 + 2 * n <= U32At(img, b + 4) <= 9 + 2 * n
    && forall k :: 0 <= k < n ==> Kind(img, b, k) == 0 || Kind(img, b, k) == 10
  }

  /** The directory [start, end) is these blocks one after the other, up to its end or one shorter than its header. */
  predicate IsDirectory(img: seq<byte>, start: nat, end: nat, hi: nat, blocks: seq<(nat, nat)>)
    decreases |blocks|
  {
    && hi <= |img|
    && if blocks == [] then start >= end || (start + 8 <= hi && U32At(img, start + 4) < 8)
       else
         && start < end && blocks[0].0 == start && IsBlock(img, start, blocks[0].1, hi)
         && IsDirectory(img, start + U32At(img, start + 4), end, hi, blocks[1..])
  }

  /** How many of the entries `i` to `n` of the block at `b` list the 64-bit word at `t`. */
  function ListedFrom(img: seq<byte>, b: nat, i: nat, n: nat, t: nat): nat
    requires i <= n && b + 8 + 2 * n <= |img|
    decreases n - i
  {
    if i == n then 0
    else (if Kind(img, b, i) == 10 && Target(img, b, i) == t then 1 else 0) + ListedFrom(img, b, i + 1, n, t)
  }

  /** How often the blocks list the word at `t`. */
  function Listed(img: seq<byte>, blocks: seq<(nat, nat)>, t: nat): nat {
    if blocks == [] || blocks[0].0 + 8 + 2 * blocks[0].1 > |img| then 0
    else ListedFrom(img, blocks[0].0, 0, blocks[0].1, t) + Listed(img, blocks[1..], t)
  }

  lemma {:induction false} CountConcat(a: seq<nat>, b: seq<nat>, t: nat)
    ensures Count(a + b, t) == Count(a, t) + Count(b, t)
  {
    if b == [] {
      assert a + b == a;
    } else {
      var n := |b| - 1;
      assert (a + b)[..|a| + n] == a + b[..n];
      CountConcat(a, b[..n], t);
    }
  }

  lemma {:induction false} CountIn(ts: seq<nat>, t: nat)
    ensures t in ts <==> Count(ts, t) > 0
  {
    if ts != [] {
      CountIn(ts[..|ts| - 1], t);
    }
  }

  lemma {:induction false} EntriesListed(img: seq<byte>, b: nat, i: nat, n: nat, hi: nat, t: nat)
    requires i <= n && IsBlock(img, b, n, hi)
    ensures var d := ParseEntries(img, b, U32At(img, b), i, n, hi);
            d.Directory? && d.error.None? && Count(d.targets, t) == ListedFrom(img, b, i, n, t)
    decreases n - i
  {
    hide U16At, U32At;
    if i < n {
      EntriesListed(img, b, i + 1, n, hi, t);
      assert Kind(img, b, i) == 0 || Kind(img, b, i) == 10;
      if Kind(img, b, i) == 10 {
        var rest := ParseEntries(img, b, U32At(img, b), i + 1, n, hi).targets;
        CountConcat([Target(img, b, i)], rest, t);
        assert [Target(img, b, i)][..0] == [];
      }
    }
  }

  lemma DirectoryFits(img: seq<byte>, start: nat, end: nat, hi: nat, blocks: seq<(nat, nat)>)
    requires IsDirectory(img, start, end, hi, blocks)
    ensures hi <= |img|
  {
  }

  /** A directory in this format is read as listing each word just as often as its entries do. */
  lemma {:induction false} DirectoryLists(
    img: seq<byte>, start: nat, end: nat, hi: nat, blocks: seq<(nat, nat)>, t: nat)
    requires IsDirectory(img, start, end, hi, blocks)
    ensures var d := ParseBlocks(img, start, end, hi);
            d.Directory? && d.error.None? && Count(d.targets, t) == Listed(img, blocks, t)
    decreases |blocks|
  {
    hide U32At, ParseEntries, ListedFrom;
    if blocks != [] {
      var n, size := blocks[0].1, U32At(img, start + 4);
      assert (size - 8) / 2 == n;
      EntriesListed(img, start, 0, n, hi, t);
      DirectoryLists(img, start + size, end, hi, blocks[1..], t);
      var d := ParseEntries(img, start, U32At(img, start), 0, n, hi);
      CountConcat(d.targets, ParseBlocks(img, start + size, end, hi).targets, t);
    }
  }

  /** From `start` the blocks lead on to a further one at `b`. */
  predicate LeadTo(img: seq<byte>, start: nat, end: nat, hi: nat, blocks: seq<(nat, nat)>, b: nat)
    decreases |blocks|
  {
    && start < end && hi <= |img|
    && if blocks == [] then b == start
       else
         && blocks[0].0 == start && IsBlock(img, start, blocks[0].1, hi)
         && LeadTo(img, start + U32At(img, start + 4), end, hi, blocks[1..], b)
  }

  /** The block at `b` has `n` entries, of which the first that is neither padding nor a 64-bit one is entry `k`. */
  predicate Unsupported(img: seq<byte>, b: nat, n: nat, k: nat, hi: nat) {
    && k < n && b + 8 + 2 * n <= hi <= |img| && 8 + 2 * n <= U32At(img, b + 4) <= 9 + 2 * n
    && Kind(img, b, k) != 0 && Kind(img, b, k) != 10
    && forall j :: 0 <= j < k ==> Kind(img, b, j) == 0 || Kind(img, b, j) == 10
  }

  lemma {:induction false} EntriesRefused(img: seq<byte>, b: nat, i: nat, n: nat, k: nat, hi: nat)
    requires i <= k && Unsupported(img, b, n, k, hi)
    ensures var d := ParseEntries(img, b, U32At(img, b), i, n, hi);
            d.Directory? && d.error == Some(UnsupportedRelocation(Kind(img, b, k)))
    decreases k - i
  {
    hide U16At, U32At;
    if i < k {
      assert Kind(img, b, i) == 0 || Kind(img, b, i) == 10;
      EntriesRefused(img, b, i + 1, n, k, hi);
    } else {
      assert U16At(img, b + 8 + 2 * i) / 0x1000 == Kind(img, b, k);
    }
  }

  /** An entry of any other kind is refused, by that kind, wherever in the directory it comes first. */
  lemma {:induction false} UnsupportedRefused(
    img: seq<byte>, start: nat, end: nat, hi: nat, blocks: seq<(nat, nat)>, b: nat, n: nat, k: nat)
    requires LeadTo(img, start, end, hi, blocks, b) && Unsupported(img, b, n, k, hi)
    ensures var d := ParseBlocks(img, start, end, hi);
            d.Directory? && d.error == Some(UnsupportedRelocation(Kind(img, b, k)))
    decreases |blocks|
  {
    hide U32At, ParseEntries, Kind;
    var size := U32At(img, start + 4);
    if blocks == [] {
      EntriesRefused(img, b, 0, n, k, hi);
      assert (size - 8) / 2 == n;
    } else {
      EntriesListed(img, start, 0, blocks[0].1, hi, 0);
      assert (size - 8) / 2 == blocks[0].1;
      UnsupportedRefused(img, start + size, end, hi, blocks[1..], b, n, k);
    }
  }

  /** What such a directory lists lies in the image, off the directory, and any two words of it are equal or apart. */
  ghost predicate SoundListing(img: seq<byte>, start: nat, hi: nat, blocks: seq<(nat, nat)>) {
    forall t: nat, u: nat :: Listed(img, blocks, t) > 0 && Listed(img, blocks, u) > 0 ==>
      t + 8 <= |img| && (t + 8 <= start || hi <= t) && (t == u || t + 8 <= u || u + 8 <= t)
  }

  lemma {:induction false} ListingIsSound(img: seq<byte>, start: nat, end: nat, hi: nat, blocks: seq<(nat, nat)>)
    requires IsDirectory(img, start, end, hi, blocks) && SoundListing(img, start, hi, blocks)
    ensures var d := ParseBlocks(img, start, end, hi);
            && d.Directory? && d.error.None?
            && Inside(d.targets, |img|) && Misses(d.targets, start, hi) && AllApart(d.targets)
            && (forall t :: t in d.targets <==> 0 <= t && Listed(img, blocks, t) > 0)
  {
    hide ParseBlocks, IsDirectory, Listed, Count;
    DirectoryFits(img, start, end, hi, blocks);
    DirectoryLists(img, start, end, hi, blocks, 0);
    var ts := ParseBlocks(img, start, end, hi).targets;
    forall t: nat
      ensures t in ts <==> Listed(img, blocks, t) > 0
    {
      DirectoryLists(img, start, end, hi, blocks, t);
      CountIn(ts, t);
    }
  }
}
