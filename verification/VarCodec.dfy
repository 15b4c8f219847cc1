/** The binary image of the variable store that FERRO.VAR holds. */
module VarCodec {
  import opened Bytes
  import opened Options
  import opened VarStore

  const MAGIC: seq<byte> := [0x46, 0x56, 0x52, 0x31] // "FVR1"

  // ---------- the image ----------

  function Units(name: seq<u16>): (b: seq<byte>)
    ensures |b| == 2 * |name|
  {
    if name == [] then [] else Le16(name[0]) + Units(name[1..])
  }

  function GuidBytes(g: Guid): (b: seq<byte>)
    ensures |b| == 16
  {
    Le32(g.data1) + Le16(g.data2) + Le16(g.data3) + g.data4
  }

  predicate Encodable(v: Variable) {
    |v.name| <= MAX_NAME_UNITS && |v.data| <= MAX_DATA_LEN
  }

  /** One variable's record. */
  function Record(v: Variable): (b: seq<byte>)
    requires Encodable(v)
    ensures |b| == 2 + |v.name| * 2 + 16 + 4 + 4 + |v.data|
  {
    Le16(|v.name|) + Units(v.name) + GuidBytes(v.guid) + Le32(v.attributes) + Le32(|v.data|) + v.data
  }

  ghost predicate AllEncodable(vars: seq<Variable>) {
    forall i :: 0 <= i < |vars| && vars[i].inUse ==> Encodable(vars[i])
  }

  /** The records of the live slots from `i` on. */
  ghost function Records(vars: seq<Variable>, i: nat): seq<byte>
    requires i <= |vars| && AllEncodable(vars)
    decreases |vars| - i
  {
    if i == |vars| then []
    else (if vars[i].inUse then Record(vars[i]) else []) + Records(vars, i + 1)
  }

  function LiveCount(vars: seq<Variable>, i: nat): (n: nat)
    requires i <= |vars|
    ensures n <= |vars| - i
    decreases |vars| - i
  {
    if i == |vars| then 0 else (if vars[i].inUse then 1 else 0) + LiveCount(vars, i + 1)
  }

  ghost function Image(vars: seq<Variable>): seq<byte>
    requires AllEncodable(vars) && |vars| <= MAX_VARIABLES
  {
    MAGIC + Le32(LiveCount(vars, 0)) + Records(vars, 0)
  }

  // ---------- serialize ----------

  /** `piece` copied over the bytes of `buf` from `at` on. */
  method PutBytes(buf: array<byte>, at: nat, piece: seq<byte>)
    requires at + |piece| <= buf.Length
    modifies buf
    ensures buf[..] == old(buf[..at]) + piece + old(buf[at + |piece|..])
  {
    forall i | 0 <= i < |piece| {
      buf[at + i] := piece[i];
    }
  }

  /** `now` is `was` with `done` written from `at` on. */
  ghost predicate Wrote(was: seq<byte>, now: seq<byte>, at: nat, done: seq<byte>) {
    at + |done| <= |was| && now == was[..at] + done + was[at + |done|..]
  }

  lemma WroteMore(was: seq<byte>, b: seq<byte>, b': seq<byte>, at: nat, done: seq<byte>, piece: seq<byte>)
    requires Wrote(was, b, at, done) && at + |done| + |piece| <= |was|
    requires b' == b[..at + |done|] + piece + b[at + |done| + |piece|..]
    ensures Wrote(was, b', at, done + piece)
  {
    var p := at + |done|;
    assert b[..p] == was[..at] + done;
    assert b[p + |piece|..] == was[p + |piece|..];
  }

  lemma {:induction false} UnitsSnoc(name: seq<u16>, i: nat)
    requires i < |name|
    ensures Units(name[..i + 1]) == Units(name[..i]) + Le16(name[i])
  {
    if i > 0 {
      assert name[..i + 1][1..] == name[1..][..i] && name[..i][1..] == name[1..][..i - 1];
      UnitsSnoc(name[1..], i - 1);
    }
  }

  /** Writes the next field and moves past it. */
  method Append(
    buf: array<byte>, pos: nat, piece: seq<byte>, ghost was: seq<byte>, ghost at: nat, ghost done: seq<byte>)
    returns (next: nat)
    requires Wrote(was, buf[..], at, done) && buf.Length == |was|
    requires pos == at + |done| && pos + |piece| <= buf.Length
    modifies buf
    ensures Wrote(was, buf[..], at, done + piece) && next == pos + |piece|
  {
    ghost var b := buf[..];
    PutBytes(buf, pos, piece);
    WroteMore(was, b, buf[..], at, done, piece);
    next := pos + |piece|;
  }

  /** Writes one variable's record field by field. */
  method WriteRecord(buf: array<byte>, start: nat, v: Variable) returns (pos: nat)
    requires Encodable(v) && start + |Record(v)| <= buf.Length
    modifies buf
    ensures pos == start + |Record(v)| && Wrote(old(buf[..]), buf[..], start, Record(v))
  {
    hide Units, GuidBytes, Wrote, Le16, Le32;
    ghost var was := buf[..];
    WroteNothing(was, start);
    ghost var done := [] + Le16(|v.name|);
    pos := Append(buf, start, Le16(|v.name|), was, start, []);
    UnitsNone(v.name);
    var i := 0;
    while i < |v.name|
      invariant 0 <= i <= |v.name| && done == Le16(|v.name|) + Units(v.name[..i])
      invariant pos == start + |done| == start + 2 + 2 * i
      invariant Wrote(was, buf[..], start, done)
    {
      UnitsSnoc(v.name, i);
      pos := Append(buf, pos, Le16(v.name[i]), was, start, done);
      done := done + Le16(v.name[i]);
      i := i + 1;
    }
    assert v.name[..i] == v.name;
    pos := WriteTail(buf, pos, v, was, start, done);
  }

  /** The fields after the name. */
  method WriteTail(
    buf: array<byte>, pos0: nat, v: Variable, ghost was: seq<byte>, ghost start: nat, ghost head: seq<byte>)
    returns (pos: nat)
    requires Encodable(v) && Wrote(was, buf[..], start, head) && buf.Length == |was| && pos0 == start + |head|
    requires head == Le16(|v.name|) + Units(v.name) && start + |Record(v)| <= buf.Length
    modifies buf
    ensures pos == start + |Record(v)| && Wrote(was, buf[..], start, Record(v))
  {
    hide Units, GuidBytes, Wrote, Le16, Le32;
    ghost var done := head;
    pos := Append(buf, pos0, GuidBytes(v.guid), was, start, done);
    done := done + GuidBytes(v.guid);
    pos := Append(buf, pos, Le32(v.attributes), was, start, done);
    done := done + Le32(v.attributes);
    pos := Append(buf, pos, Le32(|v.data|), was, start, done);
    done := done + Le32(|v.data|);
    pos := Append(buf, pos, v.data, was, start, done);
  }

  lemma WroteNothing(was: seq<byte>, at: nat)
    requires at <= |was|
    ensures Wrote(was, was, at, [])
  {
  }

  lemma UnitsNone(name: seq<u16>)
    ensures Units(name[..0]) == []
  {
  }

  lemma SoundEncodable(vars: seq<Variable>)
    requires Sound(vars)
    ensures AllEncodable(vars) && |vars| == MAX_VARIABLES
  {
  }

  lemma WroteAppend(was: seq<byte>, b: seq<byte>, b': seq<byte>, at: nat, done: seq<byte>, piece: seq<byte>)
    requires Wrote(was, b, at, done) && at + |done| + |piece| <= |was| && Wrote(b, b', at + |done|, piece)
    ensures Wrote(was, b', at, done + piece)
  {
    WroteMore(was, b, b', at, done, piece);
  }

  /** How far the packing loop has come. */
  ghost predicate Packed(
    slots: seq<Variable>, i: nat, was: seq<byte>, b: seq<byte>, done: seq<byte>, pos: nat, count: nat)
  {
    && AllEncodable(slots) && i <= |slots| && |b| == |was|
    && pos == 8 + |done| && done + Records(slots, i) == Records(slots, 0)
    && Wrote(was, b, 8, done)
    && count + LiveCount(slots, i) == LiveCount(slots, 0)
  }

  lemma PackedStart(slots: seq<Variable>, was: seq<byte>)
    requires AllEncodable(slots) && |was| >= 8
    ensures Packed(slots, 0, was, was, [], 8, 0)
  {
    assert [] + Records(slots, 0) == Records(slots, 0);
  }

  lemma PackedSkip(slots: seq<Variable>, i: nat, was: seq<byte>, b: seq<byte>, done: seq<byte>, pos: nat, count: nat)
    requires Packed(slots, i, was, b, done, pos, count) && i < |slots| && !slots[i].inUse
    ensures Packed(slots, i + 1, was, b, done, pos, count)
  {
    assert Records(slots, i) == [] + Records(slots, i + 1) == Records(slots, i + 1);
  }

  lemma PackedNext(
    slots: seq<Variable>, i: nat, was: seq<byte>, b: seq<byte>, b': seq<byte>, done: seq<byte>, pos: nat, count: nat)
    requires Packed(slots, i, was, b, done, pos, count) && i < |slots| && slots[i].inUse
    requires pos + |Record(slots[i])| <= |b| && Wrote(b, b', pos, Record(slots[i]))
    ensures var r := Record(slots[i]); Packed(slots, i + 1, was, b', done + r, pos + |r|, count + 1)
  {
    hide Record, Wrote;
    var r := Record(slots[i]);
    WroteAppend(was, b, b', 8, done, r);
    assert Records(slots, i) == r + Records(slots, i + 1);
    assert done + (r + Records(slots, i + 1)) == (done + r) + Records(slots, i + 1);
  }

  lemma PackedRoom(slots: seq<Variable>, i: nat, was: seq<byte>, b: seq<byte>, done: seq<byte>, pos: nat, count: nat)
    requires Packed(slots, i, was, b, done, pos, count) && |slots| == MAX_VARIABLES
    ensures pos <= |b|
    ensures i < |slots| && slots[i].inUse ==>
              Encodable(slots[i]) && (pos + |Record(slots[i])| > |b| ==> |Image(slots)| > |b|)
  {
    if i < |slots| && slots[i].inUse {
      assert Records(slots, i) == Record(slots[i]) + Records(slots, i + 1);
    }
  }

  /** Packs the live variables; None exactly when their image does not fit the buffer. */
  method Serialize(store: Store, buf: array<byte>) returns (r: Option<nat>)
    requires store.Valid()
    modifies buf
    ensures store.Valid() && store.vars[..] == old(store.vars[..])
    ensures AllEncodable(store.vars[..]) && |store.vars[..]| <= MAX_VARIABLES
    ensures r.Some? <==> |Image(store.vars[..])| <= buf.Length
    ensures r.Some? ==> r.value == |Image(store.vars[..])| && buf[..r.value] == Image(store.vars[..])
  {
    hide Record, Sound, Wrote, Unique, Packed, Records, LiveCount, Image;
    ghost var slots := store.vars[..];
    SoundEncodable(slots);
    if buf.Length < 8 {
      ImageSize(slots);
      return None;
    }
    PutBytes(buf, 0, MAGIC);
    ghost var was := buf[..];
    assert was[..4] == MAGIC;
    var pos: nat, count: nat, i := 8, 0, 0;
    ghost var done: seq<byte> := [];
    PackedStart(slots, was);
    while i < store.vars.Length
      invariant 0 <= i <= store.vars.Length && store.vars[..] == slots
      invariant Packed(slots, i, was, buf[..], done, pos, count)
    {
      var v := store.vars[i];
      assert v == slots[i];
      PackedRoom(slots, i, was, buf[..], done, pos, count);
      if v.inUse {
        var len := 2 + |v.name| * 2 + 16 + 4 + 4 + |v.data|;
        if pos + len > buf.Length {
          return None;
        }
        ghost var b := buf[..];
        var next := WriteRecord(buf, pos, v);
        PackedNext(slots, i, was, b, buf[..], done, pos, count);
        done := done + Record(v);
        pos := next;
        count := count + 1;
      } else {
        PackedSkip(slots, i, was, buf[..], done, pos, count);
      }
      i := i + 1;
    }
    ghost var b := buf[..];
    PackedAll(slots, was, b, done, pos, count);
    PutBytes(buf, 4, Le32(count));
    ImageParts(was, b, buf[..], done, slots);
    return Some(pos);
  }

  lemma ImageSize(slots: seq<Variable>)
    requires AllEncodable(slots) && |slots| <= MAX_VARIABLES
    ensures |Image(slots)| >= 8
  {
  }

  lemma PackedAll(slots: seq<Variable>, was: seq<byte>, b: seq<byte>, done: seq<byte>, pos: nat, count: nat)
    requires Packed(slots, |slots|, was, b, done, pos, count)
    ensures done == Records(slots, 0) && count == LiveCount(slots, 0) <= |slots|
    ensures Wrote(was, b, 8, done) && pos == 8 + |done|
  {
    assert done + Records(slots, |slots|) == done;
  }

  lemma ImageParts(was: seq<byte>, b: seq<byte>, b': seq<byte>, done: seq<byte>, slots: seq<Variable>)
    requires AllEncodable(slots) && |slots| <= MAX_VARIABLES && |was| >= 8 && was[..4] == MAGIC
    requires Wrote(was, b, 8, done) && done == Records(slots, 0)
    requires b' == b[..4] + Le32(LiveCount(slots, 0)) + b[8..]
    ensures 8 + |done| == |Image(slots)| <= |b'| && b'[..8 + |done|] == Image(slots)
  {
    assert b[..4] == was[..4] && b[8..8 + |done|] == done;
    assert b'[..8 + |done|] == MAGIC + Le32(LiveCount(slots, 0)) + done;
  }

  // ---------- deserialize ----------

  datatype Parsed = Stop | Item(key: Key, value: Value, next: nat)

  function UnitsAt(b: seq<byte>): (name: seq<u16>)
    requires |b| % 2 == 0
    ensures |name| == |b| / 2
  {
    if b == [] then [] else [U16(b[..2])] + UnitsAt(b[2..])
  }

  function GuidAt(b: seq<byte>): Guid
    requires |b| == 16
  {
    GuidFields(U32(b[..4]), U16(b[4..6]), U16(b[6..8]), b[8..])
  }

  /** The record at `pos`, or Stop where the loader gives up: cut short, or beyond the store's limits. */
  function ParseRecord(buf: seq<byte>, pos: nat): (r: Parsed)
    ensures r.Item? ==> pos < r.next <= |buf| && |r.key.name| <= MAX_NAME_UNITS && |r.value.data| <= MAX_DATA_LEN
  {
    if pos + 2 > |buf| then Stop
    else
      var nameLen := U16(buf[pos..pos + 2]);
      var p := pos + 2;
      if nameLen > MAX_NAME_UNITS || p + nameLen * 2 > |buf| then Stop
      else
        var q := p + nameLen * 2;
        if q + 24 > |buf| then Stop
        else
          var dataLen := U32(buf[q + 20..q + 24]);
          if dataLen > MAX_DATA_LEN || q + 24 + dataLen > |buf| then Stop
          else
            Item(
              Key(UnitsAt(buf[p..q]), GuidAt(buf[q..q + 16])),
              Value(U32(buf[q + 16..q + 20]), buf[q + 24..q + 24 + dataLen]),
              q + 24 + dataLen)
  }

  /** The name as `set` reads it back: a stored NUL unit would cut it short. */
  function AsSetReads(k: Key): Key {
    k.(name := k.name[..FirstNul(k.name)])
  }

  /** The store and the number of variables loaded after up to `count` records from `pos` on. */
  function LoadRecords(buf: seq<byte>, pos: nat, count: nat, vars: seq<Variable>): (seq<Variable>, nat)
    decreases count
  {
    if count == 0 then (vars, 0)
    else
      var p := ParseRecord(buf, pos);
      if p.Stop? then (vars, 0)
      else
        var (vars1, r) := SetSlots(vars, AsSetReads(p.key), p.value);
        var (vars2, n) := LoadRecords(buf, p.next, count - 1, vars1);
        (vars2, n + if r.Ok? then 1 else 0)
  }

  predicate OurData(buf: seq<byte>) {
    |buf| >= 8 && buf[..4] == MAGIC
  }

  /** The effect of loading a whole image into a store. */
  function Load(buf: seq<byte>, vars: seq<Variable>): (seq<Variable>, Option<nat>) {
    if !OurData(buf) then (vars, None)
    else
      var (vars', n) := LoadRecords(buf, 8, U32(buf[4..8]), vars);
      (vars', Some(n))
  }

  /** The zero-filled, NUL-terminated buffer a loaded name is handed to `set` in. */
  function WithNul(name: seq<u16>): (nt: seq<u16>)
    requires |name| <= MAX_NAME_UNITS
    ensures |nt| == MAX_NAME_UNITS + 1 && nt[..|name|] == name
    ensures forall i :: |name| <= i < |nt| ==> nt[i] == 0
  {
    name + seq(MAX_NAME_UNITS + 1 - |name|, _ => 0)
  }

  lemma ParsedName(k: Key)
    requires |k.name| <= MAX_NAME_UNITS
    ensures var nt := WithNul(k.name);
            Readable(nt) && NameAt(nt) == Some(AsSetReads(k).name) && GoodName(AsSetReads(k).name)
  {
    var nt := WithNul(k.name);
    var n := FirstNul(k.name);
    assert nt[n] == 0 && forall j :: 0 <= j < n ==> nt[j] == k.name[j];
    assert FirstNul(nt) == n;
    assert nt[..n] == k.name[..n];
  }

  /**
   * Merges an image into the live store, whatever the bytes: it never reads out of bounds, keeps the
   * store sound, and refuses exactly the buffers that do not start with our mark.
   */
  method Deserialize(store: Store, buf: seq<byte>) returns (r: Option<nat>)
    requires store.Valid()
    modifies store.vars
    ensures store.Valid() && (store.vars[..], r) == Load(buf, old(store.vars[..]))
  {
    hide SetSlots, Sound, NameAt, FirstNul, SetMap, View, ParseRecord;
    if |buf| < 8 || buf[..4] != MAGIC {
      return None;
    }
    var count := U32(buf[4..8]);
    var pos, loaded, i := 8, 0, 0;
    ghost var (goal, total) := LoadRecords(buf, 8, count, store.vars[..]);
    while i < count
      invariant 0 <= i <= count && 0 <= loaded && 0 <= pos && store.Valid()
      invariant var (vars, n) := LoadRecords(buf, pos, count - i, store.vars[..]);
                vars == goal && loaded + n == total
    {
      var p := NextRecord(buf, pos);
      if p.Stop? {
        break;
      }
      ParsedName(p.key);
      var nameNt := WithNul(p.key.name);
      var e := store.Set(nameNt, p.key.guid, p.value.attributes, p.value.data);
      if e.Ok? {
        loaded := loaded + 1;
      }
      pos := p.next;
      i := i + 1;
    }
    return Some(loaded);
  }

  method ReadUnits(buf: seq<byte>, start: nat, count: nat) returns (name: seq<u16>, pos: nat)
    requires start + count * 2 <= |buf|
    ensures pos == start + count * 2 && name == UnitsAt(buf[start..pos])
  {
    name, pos := [], start;
    var i := 0;
    while i < count
      invariant 0 <= i <= count && pos == start + 2 * i && name == UnitsAt(buf[start..pos])
    {
      UnitsAtSnoc(buf[start..pos + 2]);
      assert buf[start..pos + 2][..2 * i] == buf[start..pos] && buf[start..pos + 2][2 * i..] == buf[pos..pos + 2];
      name := name + [U16(buf[pos..pos + 2])];
      pos := pos + 2;
      i := i + 1;
    }
  }

  /** One round of the load loop's parsing, field by field and each length checked before its use. */
  method NextRecord(buf: seq<byte>, start: nat) returns (r: Parsed)
    ensures r == ParseRecord(buf, start)
  {
    hide UnitsAt, U16, U32, GuidAt;
    var pos := start;
    if pos + 2 > |buf| {
      return Stop;
    }
    var nameLen := U16(buf[pos..pos + 2]);
    pos := pos + 2;
    if nameLen > MAX_NAME_UNITS || pos + nameLen * 2 > |buf| {
      return Stop;
    }
    var name;
    name, pos := ReadUnits(buf, pos, nameLen);
    if pos + 16 + 4 + 4 > |buf| {
      return Stop;
    }
    var guid := GuidAt(buf[pos..pos + 16]);
    pos := pos + 16;
    var attributes := U32(buf[pos..pos + 4]);
    pos := pos + 4;
    var dataLen := U32(buf[pos..pos + 4]);
    pos := pos + 4;
    if dataLen > MAX_DATA_LEN || pos + dataLen > |buf| {
      return Stop;
    }
    return Item(Key(name, guid), Value(attributes, buf[pos..pos + dataLen]), pos + dataLen);
  }

  lemma {:induction false} UnitsAtSnoc(b: seq<byte>)
    requires |b| >= 2 && |b| % 2 == 0
    ensures var n := |b| - 2; UnitsAt(b) == UnitsAt(b[..n]) + [U16(b[n..])]
  {
    var n := |b| - 2;
    if n > 0 {
      UnitsAtSnoc(b[2..]);
      assert b[..n][2..] == b[2..][..n - 2] && b[2..][n - 2..] == b[n..] && b[..n][..2] == b[..2];
    }
  }

  // ---------- the round trip ----------

  lemma {:induction false} UnitsRoundTrip(name: seq<u16>)
    ensures UnitsAt(Units(name)) == name
  {
    if name != [] {
      Le16RoundTrip(name[0]);
      var b := Units(name);
      assert b[..2] == Le16(name[0]) && b[2..] == Units(name[1..]);
      UnitsRoundTrip(name[1..]);
    }
  }

  lemma GuidRoundTrip(g: Guid)
    ensures GuidAt(GuidBytes(g)) == g
  {
    var b := GuidBytes(g);
    assert b[..4] == Le32(g.data1) && b[4..6] == Le16(g.data2) && b[6..8] == Le16(g.data3) && b[8..] == g.data4;
    Le32RoundTrip(g.data1);
    Le16RoundTrip(g.data2);
    Le16RoundTrip(g.data3);
  }

  /** Parsing where a record was written gives the variable back and moves just past it. */
  lemma RecordRoundTrip(buf: seq<byte>, pos: nat, v: Variable)
    requires Encodable(v) && pos + |Record(v)| <= |buf| && buf[pos..pos + |Record(v)|] == Record(v)
    ensures ParseRecord(buf, pos) == Item(KeyOf(v), ValueOf(v), pos + |Record(v)|)
  {
    hide Units, GuidBytes, UnitsAt, GuidAt, Le16, Le32, U16, U32;
    var r := Record(v);
    var n := 2 * |v.name|;
    RecordFields(v);
    forall i, j | 0 <= i <= j <= |r|
      ensures buf[pos + i..pos + j] == r[i..j]
    {
      SliceOfSlice(buf, pos, pos + |r|, i, j);
    }
    assert buf[pos + 0..pos + 2] == r[0..2];
    assert buf[pos + 2..pos + (2 + n)] == r[2..2 + n];
    assert buf[pos + (2 + n)..pos + (18 + n)] == r[2 + n..18 + n];
    assert buf[pos + (18 + n)..pos + (22 + n)] == r[18 + n..22 + n];
    assert buf[pos + (22 + n)..pos + (26 + n)] == r[22 + n..26 + n];
    assert buf[pos + (26 + n)..pos + |r|] == r[26 + n..|r|];
  }

  lemma RecordFields(v: Variable)
    requires Encodable(v)
    ensures var r, n := Record(v), 2 * |v.name|;
            && U16(r[0..2]) == |v.name|
            && UnitsAt(r[2..2 + n]) == v.name
            && GuidAt(r[2 + n..18 + n]) == v.guid
            && U32(r[18 + n..22 + n]) == v.attributes
            && U32(r[22 + n..26 + n]) == |v.data|
            && r[26 + n..|r|] == v.data
  {
    hide Units, GuidBytes, UnitsAt, GuidAt, Le16, Le32, U16, U32;
    var r, n := Record(v), 2 * |v.name|;
    assert r[0..2] == Le16(|v.name|);
    assert r[2..2 + n] == Units(v.name);
    assert r[2 + n..18 + n] == GuidBytes(v.guid);
    assert r[18 + n..22 + n] == Le32(v.attributes);
    assert r[22 + n..26 + n] == Le32(|v.data|);
    assert r[26 + n..|r|] == v.data;
    Le16RoundTrip(|v.name|);
    UnitsRoundTrip(v.name);
    GuidRoundTrip(v.guid);
    Le32RoundTrip(v.attributes);
    Le32RoundTrip(|v.data|);
  }

  /** The pairs of the live slots from `i` on. */
  ghost function MapFrom(vars: seq<Variable>, i: nat): map<Key, Value>
    requires i <= |vars|
    decreases |vars| - i
  {
    if i == |vars| then map[]
    else if vars[i].inUse then map[KeyOf(vars[i]) := ValueOf(vars[i])] + MapFrom(vars, i + 1)
    else MapFrom(vars, i + 1)
  }

  lemma {:induction false} MapFromHas(vars: seq<Variable>, i: nat, k: Key)
    requires Unique(vars) && i <= |vars|
    ensures k in MapFrom(vars, i) <==> exists j :: i <= j < |vars| && vars[j].inUse && KeyOf(vars[j]) == k
    ensures forall j :: i <= j < |vars| && vars[j].inUse && KeyOf(vars[j]) == k ==>
              MapFrom(vars, i)[k] == ValueOf(vars[j])
    decreases |vars| - i
  {
    if i < |vars| {
      MapFromHas(vars, i + 1, k);
    }
  }

  lemma MapFromIsView(vars: seq<Variable>)
    requires Unique(vars)
    ensures MapFrom(vars, 0) == View(vars)
  {
    var m := MapFrom(vars, 0);
    forall i | 0 <= i < |vars| && vars[i].inUse
      ensures KeyOf(vars[i]) in m && m[KeyOf(vars[i])] == ValueOf(vars[i])
    {
      MapFromHas(vars, 0, KeyOf(vars[i]));
    }
    forall k | k in m
      ensures exists i :: 0 <= i < |vars| && vars[i].inUse && KeyOf(vars[i]) == k
    {
      MapFromHas(vars, 0, k);
    }
    ViewIs(vars, m);
  }

  lemma {:induction false} LiveCountIsSize(vars: seq<Variable>, i: nat)
    requires Unique(vars) && i <= |vars|
    ensures LiveCount(vars, i) == |MapFrom(vars, i)|
    decreases |vars| - i
  {
    if i < |vars| {
      LiveCountIsSize(vars, i + 1);
      if vars[i].inUse {
        var k := KeyOf(vars[i]);
        MapFromHas(vars, i + 1, k);
        assert MapFrom(vars, i).Keys == MapFrom(vars, i + 1).Keys + {k};
      }
    }
  }

  lemma RoomFor(m: map<Key, Value>, more: map<Key, Value>, k: Key)
    requires k in more && |m.Keys + more.Keys| <= MAX_VARIABLES
    ensures k in m || |m| < MAX_VARIABLES
  {
    if k !in m {
      var all, rest := m.Keys + more.Keys, more.Keys - m.Keys;
      assert all == m.Keys + rest && k in rest;
      assert |all| == |m.Keys| + |rest|;
    }
  }

  /** Setting one saved variable: it succeeds, and binds exactly that pair. */
  lemma SetSaved(vars: seq<Variable>, more: map<Key, Value>, v: Variable)
    requires Sound(vars) && GoodName(v.name) && 1 <= |v.data| <= MAX_DATA_LEN
    requires KeyOf(v) in more && |View(vars).Keys + more.Keys| <= MAX_VARIABLES
    ensures AsSetReads(KeyOf(v)) == KeyOf(v)
    ensures var (vars1, r) := SetSlots(vars, KeyOf(v), ValueOf(v));
            r.Ok? && Sound(vars1) && View(vars1) == View(vars)[KeyOf(v) := ValueOf(v)]
  {
    RoomFor(View(vars), more, KeyOf(v));
    SetRefines(vars, KeyOf(v), ValueOf(v));
    assert forall i :: 0 <= i < |v.name| ==> v.name[i] in v.name;
    assert FirstNul(v.name) == |v.name|;
  }

  ghost function KeyBound(vars: seq<Variable>, slots: seq<Variable>, i: nat): set<Key>
    requires i <= |slots|
  {
    View(vars).Keys + MapFrom(slots, i).Keys
  }

  lemma {:induction false} LoadFrom(buf: seq<byte>, pos: nat, slots: seq<Variable>, i: nat, vars: seq<Variable>)
    requires Sound(slots) && Sound(vars) && AllEncodable(slots) && i <= |slots|
    requires pos <= |buf| && buf[pos..] == Records(slots, i)
    requires |KeyBound(vars, slots, i)| <= MAX_VARIABLES
    ensures var (vars', n) := LoadRecords(buf, pos, LiveCount(slots, i), vars);
            n == LiveCount(slots, i) && Sound(vars') && View(vars') == View(vars) + MapFrom(slots, i)
    decreases |slots| - i
  {
    hide Sound, View, SetSlots, ParseRecord, Record, AsSetReads, LoadRecords, KeyBound;
    if i == |slots| {
      LoadNone(buf, pos, vars);
    } else if !slots[i].inUse {
      SkipSlot(vars, slots, i);
      LoadFrom(buf, pos, slots, i + 1, vars);
    } else {
      var v := slots[i];
      var r := Record(v);
      SoundSlot(slots, i);
      RecordAhead(buf, pos, r, Records(slots, i + 1));
      RecordRoundTrip(buf, pos, v);
      LoadSlot(vars, slots, i);
      var vars1 := SetSlots(vars, KeyOf(v), ValueOf(v)).0;
      LoadFrom(buf, pos + |r|, slots, i + 1, vars1);
      LoadOne(buf, pos, LiveCount(slots, i), vars, KeyOf(v), ValueOf(v), pos + |r|);
      MergeStep(View(vars), KeyOf(v), ValueOf(v), MapFrom(slots, i + 1));
    }
  }

  lemma LoadNone(buf: seq<byte>, pos: nat, vars: seq<Variable>)
    ensures LoadRecords(buf, pos, 0, vars) == (vars, 0)
  {
  }

  lemma LoadOne(buf: seq<byte>, pos: nat, count: nat, vars: seq<Variable>, k: Key, v: Value, next: nat)
    requires count > 0 && ParseRecord(buf, pos) == Item(k, v, next) && AsSetReads(k) == k
    requires SetSlots(vars, k, v).1.Ok?
    ensures var (vars', n) := LoadRecords(buf, next, count - 1, SetSlots(vars, k, v).0);
            LoadRecords(buf, pos, count, vars) == (vars', n + 1)
  {
  }

  lemma SkipSlot(vars: seq<Variable>, slots: seq<Variable>, i: nat)
    requires i < |slots| && !slots[i].inUse
    ensures KeyBound(vars, slots, i + 1) == KeyBound(vars, slots, i)
  {
  }

  /** Setting the variable of slot `i` succeeds and uses up its share of the bound on keys. */
  lemma LoadSlot(vars: seq<Variable>, slots: seq<Variable>, i: nat)
    requires Sound(vars) && Sound(slots) && i < |slots| && slots[i].inUse
    requires |KeyBound(vars, slots, i)| <= MAX_VARIABLES
    ensures var v := slots[i];
            var (vars1, r) := SetSlots(vars, KeyOf(v), ValueOf(v));
            && AsSetReads(KeyOf(v)) == KeyOf(v) && r.Ok? && Sound(vars1)
            && View(vars1) == View(vars)[KeyOf(v) := ValueOf(v)]
            && KeyBound(vars1, slots, i + 1) == KeyBound(vars, slots, i)
  {
    hide SetSlots, Unique, View, AsSetReads;
    SetSaved(vars, MapFrom(slots, i), slots[i]);
  }

  lemma SoundSlot(slots: seq<Variable>, i: nat)
    requires Sound(slots) && i < |slots| && slots[i].inUse
    ensures GoodName(slots[i].name) && 1 <= |slots[i].data| <= MAX_DATA_LEN && Unique(slots)
  {
  }

  lemma RecordAhead(buf: seq<byte>, pos: nat, r: seq<byte>, rest: seq<byte>)
    requires pos <= |buf| && buf[pos..] == r + rest
    ensures pos + |r| <= |buf| && buf[pos..pos + |r|] == r && buf[pos + |r|..] == rest
  {
    assert buf[pos..pos + |r|] == buf[pos..][..|r|];
    assert buf[pos + |r|..] == buf[pos..][|r|..];
  }

  lemma MergeStep(m: map<Key, Value>, k: Key, v: Value, more: map<Key, Value>)
    ensures m[k := v] + more == m + (map[k := v] + more)
  {
  }

  /**
   * Loading a store's image into a live store overrides the live variables with the saved ones and
   * counts them all, whenever the two together fit.
   */
  lemma LoadOfImage(saved: seq<Variable>, live: seq<Variable>)
    requires Sound(saved) && Sound(live) && AllEncodable(saved) && |saved| <= MAX_VARIABLES
    requires |View(live).Keys + View(saved).Keys| <= MAX_VARIABLES
    ensures var (vars', r) := Load(Image(saved), live);
            r == Some(|View(saved)|) && Sound(vars') && View(vars') == View(live) + View(saved)
  {
    var buf := Image(saved);
    MapFromIsView(saved);
    LiveCountIsSize(saved, 0);
    ImageFields(saved);
    LoadFrom(buf, 8, saved, 0, live);
  }

  lemma ImageFields(slots: seq<Variable>)
    requires AllEncodable(slots) && |slots| <= MAX_VARIABLES
    ensures var buf := Image(slots);
            OurData(buf) && U32(buf[4..8]) == LiveCount(slots, 0) && buf[8..] == Records(slots, 0)
  {
    var buf := Image(slots);
    assert buf[4..8] == Le32(LiveCount(slots, 0));
    Le32RoundTrip(LiveCount(slots, 0));
  }

  // ---------- the image's format ----------

  function Word16(b: seq<byte>, p: nat): nat
    requires p + 2 <= |b|
  {
    b[p] as int + 0x100 * b[p + 1] as int
  }

  function Word32(b: seq<byte>, p: nat): nat
    requires p + 4 <= |b|
  {
    b[p] as int + 0x100 * b[p + 1] as int + 0x1_0000 * b[p + 2] as int + 0x100_0000 * b[p + 3] as int
  }

  /** At `p` there are the name's length and units. */
  ghost predicate NameThere(b: seq<byte>, p: nat, name: seq<u16>) {
    && p + 2 + 2 * |name| <= |b| && Word16(b, p) == |name|
    && forall j :: 0 <= j < |name| ==> Word16(b, p + 2 + 2 * j) == name[j]
  }

  ghost predicate GuidThere(b: seq<byte>, p: nat, g: Guid) {
    && p + 16 <= |b|
    && Word32(b, p) == g.data1 && Word16(b, p + 4) == g.data2 && Word16(b, p + 6) == g.data3
    && b[p + 8..p + 16] == g.data4
  }

  /** At `p` there are the attributes, and the data's length and bytes. */
  ghost predicate ValueThere(b: seq<byte>, p: nat, v: Value) {
    && p + 8 + |v.data| <= |b|
    && Word32(b, p) == v.attributes && Word32(b, p + 4) == |v.data| && b[p + 8..p + 8 + |v.data|] == v.data
  }

  /** The three one after the other. */
  ghost predicate RecordAt(b: seq<byte>, p: nat, v: Variable) {
    var q := p + 2 + 2 * |v.name|;
    NameThere(b, p, v.name) && GuidThere(b, q, v.guid) && ValueThere(b, q + 16, ValueOf(v))
  }

  /** Where the record of slot `i` starts: after the header and the records of the live slots before it. */
  function RecordStart(vars: seq<Variable>, i: nat): nat
    requires i <= |vars|
  {
    if i == 0 then 8
    else RecordStart(vars, i - 1) + if vars[i - 1].inUse then 26 + 2 * |vars[i - 1].name| + |vars[i - 1].data| else 0
  }

  lemma Word16Of(b: seq<byte>, p: nat, n: u16)
    requires p + 2 <= |b| && b[p..p + 2] == Le16(n)
    ensures Word16(b, p) == n
  {
    assert b[p] == b[p..p + 2][0] && b[p + 1] == b[p..p + 2][1];
  }

  lemma Word32Of(b: seq<byte>, p: nat, n: u32)
    requires p + 4 <= |b| && b[p..p + 4] == Le32(n)
    ensures Word32(b, p) == n
  {
    var s := b[p..p + 4];
    assert b[p] == s[0] && b[p + 1] == s[1] && b[p + 2] == s[2] && b[p + 3] == s[3];
    assert Le16(n % 0x1_0000)[0] == s[0] && Le16(n / 0x1_0000)[0] == s[2];
  }

  lemma {:induction false} UnitAt(name: seq<u16>, j: nat)
    requires j < |name|
    ensures Units(name)[2 * j..2 * j + 2] == Le16(name[j])
  {
    if j > 0 {
      UnitAt(name[1..], j - 1);
      assert Units(name)[2 * j..2 * j + 2] == Units(name[1..])[2 * (j - 1)..2 * (j - 1) + 2];
    }
  }

  /** A field of a record, wherever the record lies in a buffer. */
  lemma FieldAt(b: seq<byte>, p: nat, r: seq<byte>, o: nat, before: seq<byte>, field: seq<byte>, after: seq<byte>)
    requires p + |r| <= |b| && b[p..p + |r|] == r && r == before + field + after && o == |before|
    ensures b[p + o..p + o + |field|] == field
  {
    assert r[o..o + |field|] == field;
    SliceOfSlice(b, p, p + |r|, o, o + |field|);
  }

  lemma {:induction false} NameLayout(b: seq<byte>, p: nat, name: seq<u16>)
    requires |name| <= MAX_NAME_UNITS && p + 2 + 2 * |name| <= |b|
    requires b[p..p + 2 + 2 * |name|] == Le16(|name|) + Units(name)
    ensures NameThere(b, p, name)
  {
    hide Units, Le16, Word16;
    var n := |name|;
    FieldAt(b, p, Le16(n) + Units(name), 0, [], Le16(n), Units(name));
    Word16Of(b, p, n);
    FieldAt(b, p, Le16(n) + Units(name), 2, Le16(n), Units(name), []);
    forall j | 0 <= j < n
      ensures Word16(b, p + 2 + 2 * j) == name[j]
    {
      UnitAt(name, j);
      SliceOfSlice(b, p + 2, p + 2 + 2 * n, 2 * j, 2 * j + 2);
      Word16Of(b, p + 2 + 2 * j, name[j]);
    }
  }

  lemma {:induction false} GuidLayout(b: seq<byte>, p: nat, g: Guid)
    requires p + 16 <= |b| && b[p..p + 16] == GuidBytes(g)
    ensures GuidThere(b, p, g)
  {
    hide Le16, Le32, Word16, Word32;
    var r, g1, g2, g3 := GuidBytes(g), Le32(g.data1), Le16(g.data2), Le16(g.data3);
    FieldAt(b, p, r, 0, [], g1, g2 + g3 + g.data4);
    Word32Of(b, p, g.data1);
    FieldAt(b, p, r, 4, g1, g2, g3 + g.data4);
    Word16Of(b, p + 4, g.data2);
    FieldAt(b, p, r, 6, g1 + g2, g3, g.data4);
    Word16Of(b, p + 6, g.data3);
    FieldAt(b, p, r, 8, g1 + g2 + g3, g.data4, []);
  }

  lemma {:induction false} ValueLayout(b: seq<byte>, p: nat, v: Value)
    requires |v.data| <= MAX_DATA_LEN && p + 8 + |v.data| <= |b|
    requires b[p..p + 8 + |v.data|] == Le32(v.attributes) + Le32(|v.data|) + v.data
    ensures ValueThere(b, p, v)
  {
    hide Le32, Word32;
    var attrs, len := Le32(v.attributes), Le32(|v.data|);
    var r := attrs + len + v.data;
    FieldAt(b, p, r, 0, [], attrs, len + v.data);
    Word32Of(b, p, v.attributes);
    FieldAt(b, p, r, 4, attrs, len, v.data);
    Word32Of(b, p + 4, |v.data|);
    FieldAt(b, p, r, 8, attrs + len, v.data, []);
  }

  /** A packed variable has its fields at these places, wherever it lies in a buffer. */
  lemma {:induction false} RecordLayout(b: seq<byte>, p: nat, v: Variable)
    requires Encodable(v) && p + |Record(v)| <= |b| && b[p..p + |Record(v)|] == Record(v)
    ensures RecordAt(b, p, v) && |Record(v)| == 26 + 2 * |v.name| + |v.data|
  {
    hide Units, Le16, Le32, GuidBytes, NameThere, GuidThere, ValueThere;
    var r, q := Record(v), 2 + 2 * |v.name|;
    var head, guid := Le16(|v.name|) + Units(v.name), GuidBytes(v.guid);
    var value := Le32(v.attributes) + Le32(|v.data|) + v.data;
    assert r == head + (guid + value) == (head + guid) + value;
    FieldAt(b, p, r, 0, [], head, guid + value);
    NameLayout(b, p, v.name);
    FieldAt(b, p, r, q, head, guid, value);
    GuidLayout(b, p + q, v.guid);
    FieldAt(b, p, r, q + 16, head + guid, value, []);
    ValueLayout(b, p + q + 16, ValueOf(v));
  }

  lemma {:induction false} RecordsFrom(vars: seq<Variable>, i: nat)
    requires AllEncodable(vars) && |vars| <= MAX_VARIABLES && i <= |vars|
    ensures RecordStart(vars, i) <= |Image(vars)| && Image(vars)[RecordStart(vars, i)..] == Records(vars, i)
  {
    hide Record;
    if i == 0 {
      ImageFields(vars);
    } else {
      RecordsFrom(vars, i - 1);
      var s, buf := RecordStart(vars, i - 1), Image(vars);
      if vars[i - 1].inUse {
        RecordAhead(buf, s, Record(vars[i - 1]), Records(vars, i));
      } else {
        assert Records(vars, i - 1) == [] + Records(vars, i) == Records(vars, i);
      }
    }
  }

  /**
   * The image: the mark FVR1, the number of variables, and then each variable's record at its place, the
   * records filling the image to its end.
   */
  lemma {:induction false} ImageLayout(vars: seq<Variable>, i: nat)
    requires Sound(vars) && AllEncodable(vars) && |vars| <= MAX_VARIABLES && i < |vars|
    ensures var b := Image(vars);
            && |b| == RecordStart(vars, |vars|) && b[..4] == [0x46, 0x56, 0x52, 0x31]
            && Word32(b, 4) == |View(vars)|
            && (vars[i].inUse ==> RecordAt(b, RecordStart(vars, i), vars[i]))
  {
    hide Record, View, Records, Image, LiveCount, Unique, Word32, RecordAt;
    var b := Image(vars);
    RecordsFrom(vars, |vars|);
    RecordsEnd(vars);
    ImageFields(vars);
    ImageHead(vars);
    LiveCountIsSize(vars, 0);
    MapFromIsView(vars);
    if vars[i].inUse {
      RecordsFrom(vars, i);
      RecordsNext(vars, i);
      RecordAhead(b, RecordStart(vars, i), Record(vars[i]), Records(vars, i + 1));
      RecordLayout(b, RecordStart(vars, i), vars[i]);
    }
  }

  lemma RecordsEnd(vars: seq<Variable>)
    requires AllEncodable(vars)
    ensures Records(vars, |vars|) == []
  {
  }

  lemma RecordsNext(vars: seq<Variable>, i: nat)
    requires AllEncodable(vars) && i < |vars| && vars[i].inUse
    ensures Records(vars, i) == Record(vars[i]) + Records(vars, i + 1)
  {
  }

  lemma ImageHead(vars: seq<Variable>)
    requires AllEncodable(vars) && |vars| <= MAX_VARIABLES
    ensures |Image(vars)| >= 8 && Word32(Image(vars), 4) == LiveCount(vars, 0)
    ensures Image(vars)[..4] == [0x46, 0x56, 0x52, 0x31]
  {
    assert Image(vars)[4..8] == Le32(LiveCount(vars, 0));
    Word32Of(Image(vars), 4, LiveCount(vars, 0));
  }
}
