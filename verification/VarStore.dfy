/** The UEFI variable store: a fixed array of slots standing for a finite map. */
module VarStore {
  import opened Bytes
  import opened Options

  const MAX_VARIABLES := 32
  const MAX_NAME_UNITS := 32
  const MAX_DATA_LEN := 512

  datatype GuidFields = GuidFields(data1: u32, data2: u16, data3: u16, data4: seq<byte>)
  type Guid = g: GuidFields | |g.data4| == 8 witness GuidFields(0, 0, 0, Zeros(8))

  const ZERO_GUID: Guid := GuidFields(0, 0, 0, Zeros(8))

  datatype Variable = Variable(inUse: bool, name: seq<u16>, guid: Guid, attributes: u32, data: seq<byte>)

  const EMPTY_VAR := Variable(false, [], ZERO_GUID, 0, [])

  datatype VarError = NotFound | InvalidParameter | BufferTooSmall(needed: nat) | OutOfResources
  datatype VarResult<+T> = Ok(value: T) | Err(error: VarError)

  datatype Key = Key(name: seq<u16>, guid: Guid)
  datatype Value = Value(attributes: u32, data: seq<byte>)

  function KeyOf(v: Variable): Key {
    Key(v.name, v.guid)
  }

  function ValueOf(v: Variable): Value {
    Value(v.attributes, v.data)
  }

  // ---------- slots as a map ----------

  ghost predicate Unique(vars: seq<Variable>) {
    forall i, j :: 0 <= i < j < |vars| && vars[i].inUse && vars[j].inUse ==> KeyOf(vars[i]) != KeyOf(vars[j])
  }

  predicate GoodName(name: seq<u16>) {
    |name| <= MAX_NAME_UNITS && 0 !in name
  }

  /** What every run of `set` keeps: distinct keys, NUL-free names, 1 to 512 data bytes a slot. */
  ghost predicate Sound(vars: seq<Variable>) {
    && |vars| == MAX_VARIABLES
    && Unique(vars)
    && forall i :: 0 <= i < |vars| && vars[i].inUse ==>
         GoodName(vars[i].name) && 1 <= |vars[i].data| <= MAX_DATA_LEN
  }

  /** The finite map the slots stand for. */
  ghost function View(vars: seq<Variable>): map<Key, Value> {
    if vars == [] then map[]
    else
      var n := |vars| - 1;
      if vars[n].inUse then View(vars[..n])[KeyOf(vars[n]) := ValueOf(vars[n])] else View(vars[..n])
  }

  lemma {:induction false} ViewHas(vars: seq<Variable>, i: nat)
    requires Unique(vars) && i < |vars| && vars[i].inUse
    ensures KeyOf(vars[i]) in View(vars) && View(vars)[KeyOf(vars[i])] == ValueOf(vars[i])
  {
    var n := |vars| - 1;
    if i < n {
      ViewHas(vars[..n], i);
    }
  }

  lemma {:induction false} ViewFrom(vars: seq<Variable>, k: Key) returns (i: nat)
    requires k in View(vars)
    ensures i < |vars| && vars[i].inUse && KeyOf(vars[i]) == k
  {
    var n := |vars| - 1;
    if vars[n].inUse && KeyOf(vars[n]) == k {
      i := n;
    } else {
      i := ViewFrom(vars[..n], k);
    }
  }

  /** Two slot arrays whose live slots carry the same pairs stand for the same map. */
  lemma ViewIs(vars: seq<Variable>, m: map<Key, Value>)
    requires Unique(vars)
    requires forall i :: 0 <= i < |vars| && vars[i].inUse ==>
               KeyOf(vars[i]) in m && m[KeyOf(vars[i])] == ValueOf(vars[i])
    requires forall k :: k in m ==> exists i :: 0 <= i < |vars| && vars[i].inUse && KeyOf(vars[i]) == k
    ensures View(vars) == m
  {
    forall k | k in View(vars)
      ensures k in m && m[k] == View(vars)[k]
    {
      var i := ViewFrom(vars, k);
      ViewHas(vars, i);
    }
    forall k | k in m
      ensures k in View(vars)
    {
      var i :| 0 <= i < |vars| && vars[i].inUse && KeyOf(vars[i]) == k;
      ViewHas(vars, i);
    }
  }

  lemma {:induction false} ViewSize(vars: seq<Variable>)
    requires Unique(vars)
    ensures |View(vars)| <= |vars|
    ensures |View(vars)| == |vars| <==> forall i :: 0 <= i < |vars| ==> vars[i].inUse
  {
    if vars != [] {
      var n := |vars| - 1;
      ViewSize(vars[..n]);
      if vars[n].inUse {
        assert KeyOf(vars[n]) !in View(vars[..n]) by {
          if KeyOf(vars[n]) in View(vars[..n]) {
            var i := ViewFrom(vars[..n], KeyOf(vars[n]));
          }
        }
        assert View(vars).Keys == View(vars[..n]).Keys + {KeyOf(vars[n])};
      }
      assert forall i :: 0 <= i < n ==> vars[..n][i] == vars[i];
    }
  }

  // ---------- searching the slots ----------

  predicate Matches(v: Variable, k: Key) {
    v.inUse && v.guid == k.guid && v.name == k.name
  }

  /** The first slot holding `k`, if any. */
  function IndexOf(vars: seq<Variable>, k: Key): (i: nat)
    ensures i <= |vars| && forall j :: 0 <= j < i ==> !Matches(vars[j], k)
    ensures i < |vars| ==> Matches(vars[i], k)
  {
    if vars == [] then 0
    else if Matches(vars[0], k) then 0
    else 1 + IndexOf(vars[1..], k)
  }

  /** The first unused slot, if any. */
  function FreeIndex(vars: seq<Variable>): (i: nat)
    ensures i <= |vars| && forall j :: 0 <= j < i ==> vars[j].inUse
    ensures i < |vars| ==> !vars[i].inUse
  {
    if vars == [] then 0
    else if !vars[0].inUse then 0
    else 1 + FreeIndex(vars[1..])
  }

  lemma IndexOfKey(vars: seq<Variable>, k: Key)
    requires Unique(vars)
    ensures k in View(vars) <==> IndexOf(vars, k) < |vars|
    ensures k in View(vars) ==> View(vars)[k] == ValueOf(vars[IndexOf(vars, k)])
  {
    var i := IndexOf(vars, k);
    if i < |vars| {
      ViewHas(vars, i);
    }
    if k in View(vars) {
      var j := ViewFrom(vars, k);
      assert Matches(vars[j], k);
    }
  }

  // ---------- set ----------

  /** The slots after `set` of a well-named variable, and what it returns. */
  function SetSlots(vars: seq<Variable>, k: Key, v: Value): (seq<Variable>, VarResult<()>) {
    var i, f := IndexOf(vars, k), FreeIndex(vars);
    if |v.data| > MAX_DATA_LEN then (vars, Err(OutOfResources))
    else if v.data == [] then
      if i < |vars| then (vars[i := EMPTY_VAR], Ok(())) else (vars, Err(NotFound))
    else if i < |vars| then (vars[i := vars[i].(attributes := v.attributes, data := v.data)], Ok(()))
    else if f < |vars| then (vars[f := Variable(true, k.name, k.guid, v.attributes, v.data)], Ok(()))
    else (vars, Err(OutOfResources))
  }

  /** The map operation `set` performs: bind, or with no data unbind, within the store's limits. */
  ghost function SetMap(m: map<Key, Value>, k: Key, v: Value): (map<Key, Value>, VarResult<()>) {
    if |v.data| > MAX_DATA_LEN then (m, Err(OutOfResources))
    else if v.data == [] then if k in m then (m - {k}, Ok(())) else (m, Err(NotFound))
    else if k in m || |m| < MAX_VARIABLES then (m[k := v], Ok(()))
    else (m, Err(OutOfResources))
  }

  lemma StoredView(vars: seq<Variable>, i: nat, k: Key, v: Variable)
    requires Unique(vars) && i < |vars| && v.inUse && KeyOf(v) == k
    requires forall j :: 0 <= j < |vars| && j != i ==> !Matches(vars[j], k)
    requires vars[i].inUse ==> KeyOf(vars[i]) == k
    ensures Unique(vars[i := v]) && View(vars[i := v]) == View(vars)[k := ValueOf(v)]
  {
    var vars' := vars[i := v];
    forall a, b | 0 <= a < b < |vars'| && vars'[a].inUse && vars'[b].inUse
      ensures KeyOf(vars'[a]) != KeyOf(vars'[b])
    {
      assert a != i ==> !Matches(vars[a], k);
      assert b != i ==> !Matches(vars[b], k);
    }
    var m := View(vars)[k := ValueOf(v)];
    forall j | 0 <= j < |vars'| && vars'[j].inUse
      ensures KeyOf(vars'[j]) in m && m[KeyOf(vars'[j])] == ValueOf(vars'[j])
    {
      if j != i {
        ViewHas(vars, j);
        assert !Matches(vars[j], k);
      }
    }
    forall x | x in m
      ensures exists j :: 0 <= j < |vars'| && vars'[j].inUse && KeyOf(vars'[j]) == x
    {
      if x == k {
        assert vars'[i] == v;
      } else {
        var j := ViewFrom(vars, x);
        assert vars'[j] == vars[j];
      }
    }
    ViewIs(vars', m);
  }

  lemma ClearedView(vars: seq<Variable>, i: nat, k: Key)
    requires Unique(vars) && i < |vars| && Matches(vars[i], k)
    ensures Unique(vars[i := EMPTY_VAR]) && View(vars[i := EMPTY_VAR]) == View(vars) - {k}
  {
    var vars', m := vars[i := EMPTY_VAR], View(vars) - {k};
    forall j | 0 <= j < |vars'| && vars'[j].inUse
      ensures KeyOf(vars'[j]) in m && m[KeyOf(vars'[j])] == ValueOf(vars'[j])
    {
      ViewHas(vars, j);
      assert KeyOf(vars[j]) != KeyOf(vars[i]);
    }
    forall x | x in m
      ensures exists j :: 0 <= j < |vars'| && vars'[j].inUse && KeyOf(vars'[j]) == x
    {
      var j := ViewFrom(vars, x);
      assert vars'[j] == vars[j];
    }
    ViewIs(vars', m);
  }

  /** The slot array implements the finite map: every `set` is the map operation, and keeps the store sound. */
  lemma SetRefines(vars: seq<Variable>, k: Key, v: Value)
    requires Sound(vars) && GoodName(k.name)
    ensures var (vars', r) := SetSlots(vars, k, v);
            Sound(vars') && (View(vars'), r) == SetMap(View(vars), k, v)
  {
    var i, f := IndexOf(vars, k), FreeIndex(vars);
    IndexOfKey(vars, k);
    ViewSize(vars);
    if |v.data| > MAX_DATA_LEN {
    } else if v.data == [] {
      if i < |vars| {
        ClearedView(vars, i, k);
      }
    } else if i < |vars| {
      forall j | 0 <= j < |vars| && j != i
        ensures !Matches(vars[j], k)
      {
        assert vars[j].inUse ==> KeyOf(vars[j]) != KeyOf(vars[i]);
      }
      StoredView(vars, i, k, vars[i].(attributes := v.attributes, data := v.data));
    } else if f < |vars| {
      StoredView(vars, f, k, Variable(true, k.name, k.guid, v.attributes, v.data));
    }
  }

  /**
   * What `set` does for its caller. Data of up to 512 bytes is bound to the key, with its attributes, whenever the
   * key is bound already or fewer than 32 are; no data unbinds a bound key; anything else is refused.
   */
  lemma {:induction false} SetMeans(vars: seq<Variable>, k: Key, v: Value)
    requires Sound(vars) && GoodName(k.name)
    ensures var m, m', r := View(vars), View(SetSlots(vars, k, v).0), SetSlots(vars, k, v).1;
            && (r.Ok? <==> |v.data| <= 512 && (k in m || (v.data != [] && |m| < 32)))
            && (r.Ok? && v.data != [] ==> k in m' && m'[k] == v)
            && (r.Ok? && v.data == [] ==> k !in m')
            && (forall o :: o != k ==> (o in m' <==> o in m) && (o in m ==> m'[o] == m[o]))
            && (r.Err? ==> m' == m && r.error == if v.data == [] then NotFound else OutOfResources)
  {
    SetRefines(vars, k, v);
  }

  datatype SetCall = SetCall(key: Key, value: Value)

  function SetAll(vars: seq<Variable>, calls: seq<SetCall>): seq<Variable> {
    if calls == [] then vars
    else
      var n := |calls| - 1;
      SetSlots(SetAll(vars, calls[..n]), calls[n].key, calls[n].value).0
  }

  ghost function SetAllMap(m: map<Key, Value>, calls: seq<SetCall>): map<Key, Value> {
    if calls == [] then m
    else
      var n := |calls| - 1;
      SetMap(SetAllMap(m, calls[..n]), calls[n].key, calls[n].value).0
  }

  /** Every run of `set` calls keeps the slots sound and does to their map what the map operations do. */
  lemma {:induction false} SetRunRefines(vars: seq<Variable>, calls: seq<SetCall>)
    requires Sound(vars) && forall i :: 0 <= i < |calls| ==> GoodName(calls[i].key.name)
    ensures Sound(SetAll(vars, calls)) && View(SetAll(vars, calls)) == SetAllMap(View(vars), calls)
  {
    if calls != [] {
      var n := |calls| - 1;
      SetRunRefines(vars, calls[..n]);
      SetRefines(SetAll(vars, calls[..n]), calls[n].key, calls[n].value);
    }
  }

  // ---------- enumeration ----------

  /** The first live slot at or after `from`. */
  function NextLive(vars: seq<Variable>, from: nat): (i: nat)
    requires from <= |vars|
    ensures from <= i <= |vars| && forall j :: from <= j < i ==> !vars[j].inUse
    ensures i < |vars| ==> vars[i].inUse
    decreases |vars| - from
  {
    if from == |vars| || vars[from].inUse then from else NextLive(vars, from + 1)
  }

  /** What `get_next` answers, given a large enough name buffer. */
  function NextKey(vars: seq<Variable>, prev: Key): VarResult<Key> {
    var pos := IndexOf(vars, prev);
    if prev.name != [] && pos == |vars| then Err(InvalidParameter)
    else
      var i := NextLive(vars, if prev.name == [] then 0 else pos + 1);
      if i == |vars| then Err(NotFound) else Ok(KeyOf(vars[i]))
  }

  /** The answer to the `n`-th call of an enumeration started from the empty name. */
  function Nth(vars: seq<Variable>, guid: Guid, n: nat): VarResult<Key> {
    if n == 0 then NextKey(vars, Key([], guid))
    else
      var prev := Nth(vars, guid, n - 1);
      if prev.Ok? then NextKey(vars, prev.value) else prev
  }

  function LiveSlots(vars: seq<Variable>, from: nat): (s: seq<nat>)
    requires from <= |vars|
    ensures forall i :: 0 <= i < |s| ==> from <= s[i] < |vars| && vars[s[i]].inUse
    decreases |vars| - from
  {
    if from == |vars| then []
    else if vars[from].inUse then [from] + LiveSlots(vars, from + 1)
    else LiveSlots(vars, from + 1)
  }

  /** The keys of the live slots, in slot order. */
  function Listing(vars: seq<Variable>): (keys: seq<Key>)
    ensures |keys| == |LiveSlots(vars, 0)|
  {
    var slots := LiveSlots(vars, 0);
    seq(|slots|, i requires 0 <= i < |slots| => KeyOf(vars[slots[i]]))
  }

  lemma {:induction false} LiveSlotsAll(vars: seq<Variable>, from: nat, x: nat)
    requires from <= x < |vars| && vars[x].inUse
    ensures x in LiveSlots(vars, from)
    decreases |vars| - from
  {
    if from < x {
      LiveSlotsAll(vars, from + 1, x);
    }
  }

  ghost predicate Ascending(s: seq<nat>) {
    forall i, j :: 0 <= i < j < |s| ==> s[i] < s[j]
  }

  lemma {:induction false} LiveSlotsSorted(vars: seq<Variable>, from: nat)
    requires from <= |vars|
    ensures Ascending(LiveSlots(vars, from))
    decreases |vars| - from
  {
    if from < |vars| {
      LiveSlotsSorted(vars, from + 1);
      if vars[from].inUse {
        SortedCons(from, LiveSlots(vars, from + 1));
      }
    }
  }

  lemma SortedCons(x: nat, rest: seq<nat>)
    requires forall j :: 0 <= j < |rest| ==> x < rest[j]
    requires Ascending(rest)
    ensures Ascending([x] + rest)
  {
    var s := [x] + rest;
    forall i, j | 0 <= i < j < |s|
      ensures s[i] < s[j]
    {
      assert s[j] == rest[j - 1] && (i > 0 ==> s[i] == rest[i - 1]);
    }
  }

  /** The listing names every variable of the map exactly once. */
  lemma ListingIsView(vars: seq<Variable>)
    requires Unique(vars)
    ensures forall k :: k in View(vars) <==> k in Listing(vars)
    ensures forall i, j :: 0 <= i < j < |Listing(vars)| ==> Listing(vars)[i] != Listing(vars)[j]
  {
    var slots, keys := LiveSlots(vars, 0), Listing(vars);
    LiveSlotsSorted(vars, 0);
    forall k | k in View(vars)
      ensures k in keys
    {
      var x := ViewFrom(vars, k);
      LiveSlotsAll(vars, 0, x);
      var i :| 0 <= i < |slots| && slots[i] == x;
      assert keys[i] == k;
    }
    forall k | k in keys
      ensures k in View(vars)
    {
      var i :| 0 <= i < |keys| && keys[i] == k;
      ViewHas(vars, slots[i]);
    }
  }

  lemma {:induction false} NextLiveHead(vars: seq<Variable>, from: nat)
    requires from <= |vars|
    ensures var s := LiveSlots(vars, from);
            NextLive(vars, from) == if s == [] then |vars| else s[0]
    decreases |vars| - from
  {
    if from < |vars| && !vars[from].inUse {
      NextLiveHead(vars, from + 1);
    }
  }

  lemma {:induction false} LiveSlotsTail(vars: seq<Variable>, from: nat, n: nat)
    requires from <= |vars| && n < |LiveSlots(vars, from)|
    ensures var s := LiveSlots(vars, from); s[n + 1..] == LiveSlots(vars, s[n] + 1)
    decreases |vars| - from
  {
    hide LiveSlots;
    LiveSlotsUnfold(vars, from);
    var s, rest := LiveSlots(vars, from), LiveSlots(vars, from + 1);
    if !vars[from].inUse {
      LiveSlotsTail(vars, from + 1, n);
    } else if n > 0 {
      LiveSlotsTail(vars, from + 1, n - 1);
      assert s[n] == rest[n - 1] && s[n + 1..] == rest[n..];
    } else {
      assert s[0] == from && s[1..] == rest;
    }
  }

  lemma LiveSlotsUnfold(vars: seq<Variable>, from: nat)
    requires from <= |vars| && LiveSlots(vars, from) != []
    ensures from < |vars|
    ensures LiveSlots(vars, from) ==
            if vars[from].inUse then [from] + LiveSlots(vars, from + 1) else LiveSlots(vars, from + 1)
  {
  }

  /** A name that is not empty must be that of a live variable; any other is refused. */
  lemma {:induction false} UnknownNameRefused(vars: seq<Variable>, prev: Key)
    requires Unique(vars)
    ensures NextKey(vars, prev) == Err(InvalidParameter) <==> prev.name != [] && prev !in View(vars)
  {
    IndexOfKey(vars, prev);
  }

  /** What follows a live slot in the enumeration. */
  lemma NextKeyAfter(vars: seq<Variable>, p: nat)
    requires Unique(vars) && p < |vars| && vars[p].inUse
    ensures NextKey(vars, KeyOf(vars[p])) ==
            var i := NextLive(vars, if vars[p].name == [] then 0 else p + 1);
            if i == |vars| then Err(NotFound) else Ok(KeyOf(vars[i]))
  {
    assert Matches(vars[p], KeyOf(vars[p]));
    assert IndexOf(vars, KeyOf(vars[p])) == p;
  }

  ghost predicate NoEmptyName(vars: seq<Variable>) {
    forall i :: 0 <= i < |vars| && vars[i].inUse ==> vars[i].name != []
  }

  lemma {:induction false} NthIsListed(vars: seq<Variable>, guid: Guid, n: nat)
    requires Unique(vars) && NoEmptyName(vars) && n <= |Listing(vars)|
    ensures Nth(vars, guid, n) == if n < |Listing(vars)| then Ok(Listing(vars)[n]) else Err(NotFound)
  {
    hide IndexOf, NextKey, NextLive, LiveSlots, Unique;
    var slots := LiveSlots(vars, 0);
    if n == 0 {
      FirstKey(vars, guid);
      NextLiveHead(vars, 0);
    } else {
      NthIsListed(vars, guid, n - 1);
      var x := slots[n - 1];
      NextKeyAfter(vars, x);
      LiveSlotsTail(vars, 0, n - 1);
      NextLiveHead(vars, x + 1);
    }
  }

  lemma FirstKey(vars: seq<Variable>, guid: Guid)
    ensures NextKey(vars, Key([], guid)) ==
            var i := NextLive(vars, 0);
            if i == |vars| then Err(NotFound) else Ok(KeyOf(vars[i]))
  {
  }

  lemma {:induction false} EmptyNameRestarts(vars: seq<Variable>, guid: Guid, e: nat, n: nat) returns (p: nat)
    requires Unique(vars) && e < |vars| && vars[e].inUse && vars[e].name == []
    ensures p <= e && vars[p].inUse && Nth(vars, guid, n) == Ok(KeyOf(vars[p]))
  {
    hide IndexOf, NextKey, NextLive, Unique;
    if n == 0 {
      FirstKey(vars, guid);
      p := NextLive(vars, 0);
    } else {
      var q := EmptyNameRestarts(vars, guid, e, n - 1);
      NextKeyAfter(vars, q);
      p := NextLive(vars, if vars[q].name == [] then 0 else q + 1);
    }
  }

  /**
   * Enumeration from the empty name reaches every variable exactly once, in slot order, and then
   * reports NotFound; it ever ends if and only if no live variable has an empty name.
   */
  lemma EnumerationEnds(vars: seq<Variable>, guid: Guid)
    requires Sound(vars)
    ensures (exists n: nat :: Nth(vars, guid, n) == Err(NotFound)) <==> NoEmptyName(vars)
    ensures NoEmptyName(vars) ==>
              && (forall n :: 0 <= n < |Listing(vars)| ==> Nth(vars, guid, n) == Ok(Listing(vars)[n]))
              && Nth(vars, guid, |Listing(vars)|) == Err(NotFound)
    ensures !NoEmptyName(vars) ==> forall n: nat :: Nth(vars, guid, n).Ok?
  {
    if NoEmptyName(vars) {
      forall n | 0 <= n <= |Listing(vars)|
        ensures Nth(vars, guid, n) == if n < |Listing(vars)| then Ok(Listing(vars)[n]) else Err(NotFound)
      {
        NthIsListed(vars, guid, n);
      }
      assert Nth(vars, guid, |Listing(vars)|) == Err(NotFound);
    } else {
      var e :| 0 <= e < |vars| && vars[e].inUse && vars[e].name == [];
      forall n: nat
        ensures Nth(vars, guid, n).Ok?
      {
        var p := EmptyNameRestarts(vars, guid, e, n);
      }
    }
  }

  // ---------- storage accounting ----------

  function UsedBytes(vars: seq<Variable>): nat {
    if vars == [] then 0
    else
      var n := |vars| - 1;
      UsedBytes(vars[..n]) + if vars[n].inUse then |vars[n].data| else 0
  }

  lemma {:induction false} UsedBounded(vars: seq<Variable>)
    requires forall i :: 0 <= i < |vars| && vars[i].inUse ==> |vars[i].data| <= MAX_DATA_LEN
    ensures UsedBytes(vars) <= MAX_DATA_LEN * |vars|
  {
    if vars != [] {
      UsedBounded(vars[..|vars| - 1]);
    }
  }

  lemma {:induction false} UsedAt(vars: seq<Variable>, i: nat, v: Variable)
    requires i < |vars|
    ensures UsedBytes(vars[i := v]) + (if vars[i].inUse then |vars[i].data| else 0)
            == UsedBytes(vars) + if v.inUse then |v.data| else 0
  {
    var n := |vars| - 1;
    if i < n {
      UsedAt(vars[..n], i, v);
      assert vars[i := v][..n] == vars[..n][i := v];
    } else {
      assert vars[i := v][..n] == vars[..n];
    }
  }

  /** What is in use is nothing at first, and every `set` that goes through changes it by just what it changed. */
  lemma {:induction false} SetUses(vars: seq<Variable>, k: Key, v: Value)
    requires Sound(vars)
    ensures View(vars) == map[] ==> UsedBytes(vars) == 0
    ensures var (vars', r) := SetSlots(vars, k, v);
            UsedBytes(vars') + (if r.Ok? && k in View(vars) then |View(vars)[k].data| else 0)
            == UsedBytes(vars) + if r.Ok? then |v.data| else 0
  {
    hide UsedBytes;
    IndexOfKey(vars, k);
    var i, f := IndexOf(vars, k), FreeIndex(vars);
    if i < |vars| {
      UsedAt(vars, i, EMPTY_VAR);
      UsedAt(vars, i, vars[i].(attributes := v.attributes, data := v.data));
    } else if f < |vars| {
      UsedAt(vars, f, Variable(true, k.name, k.guid, v.attributes, v.data));
    }
    if View(vars) == map[] {
      forall j | 0 <= j < |vars|
        ensures !vars[j].inUse
      {
        if vars[j].inUse {
          ViewHas(vars, j);
        }
      }
      NoneUsed(vars);
    }
  }

  lemma {:induction false} NoneUsed(vars: seq<Variable>)
    requires forall i :: 0 <= i < |vars| ==> !vars[i].inUse
    ensures UsedBytes(vars) == 0
  {
    if vars != [] {
      NoneUsed(vars[..|vars| - 1]);
    }
  }

  // ---------- the store ----------

  /** Position of the first NUL, or the length when there is none. */
  function FirstNul(units: seq<u16>): (n: nat)
    ensures n <= |units| && (forall j :: 0 <= j < n ==> units[j] != 0) && (n < |units| ==> units[n] == 0)
  {
    if units == [] || units[0] == 0 then 0 else 1 + FirstNul(units[1..])
  }

  /** The NUL-terminated name at the start of `units`, if it ends within the name limit. */
  function NameAt(units: seq<u16>): Option<seq<u16>> {
    var n := FirstNul(units);
    if n < |units| && n <= MAX_NAME_UNITS then Some(units[..n]) else None
  }

  /** Names of up to 32 units are read up to their terminator, whatever follows it; longer ones are refused. */
  lemma {:induction false} NameRead(name: seq<u16>, rest: seq<u16>)
    requires 0 !in name
    ensures NameAt(name + [0] + rest) == if |name| <= 32 then Some(name) else None
  {
    var units := name + [0] + rest;
    assert units[|name|] == 0 && units[..|name|] == name;
    assert forall j :: 0 <= j < |name| ==> units[j] == name[j] && name[j] in name;
    assert FirstNul(units) == |name|;
  }

  /** What a caller's name pointer must offer: units up to a NUL, or past the name limit. */
  predicate Readable(units: seq<u16>) {
    0 in units || |units| > MAX_NAME_UNITS
  }

  method ReadName(units: seq<u16>) returns (r: Option<seq<u16>>)
    requires Readable(units)
    ensures r == NameAt(units)
  {
    var buf: seq<u16> := [];
    var i := 0;
    while i <= MAX_NAME_UNITS
      invariant 0 <= i <= MAX_NAME_UNITS && i <= |units| && buf == units[..i]
      invariant forall j :: 0 <= j < i ==> units[j] != 0
    {
      var c := units[i];
      if c == 0 {
        return Some(buf);
      }
      if i == MAX_NAME_UNITS {
        break;
      }
      buf := buf + [c];
      i := i + 1;
    }
    return None;
  }

  class Store {
    const vars: array<Variable>

    ghost predicate Valid()
      reads this, vars
    {
      vars.Length == MAX_VARIABLES && Sound(vars[..])
    }

    constructor ()
      ensures Valid() && fresh(vars) && View(vars[..]) == map[]
    {
      vars := new Variable[MAX_VARIABLES](_ => EMPTY_VAR);
      new;
      ViewIs(vars[..], map[]);
    }

    /** The slot holding a key, as the linear searches of the source find it. */
    method Find(name: seq<u16>, guid: Guid) returns (i: nat)
      requires Valid()
      ensures i == IndexOf(vars[..], Key(name, guid)) && i <= vars.Length
    {
      i := 0;
      while i < vars.Length
        invariant 0 <= i <= vars.Length
        invariant forall j :: 0 <= j < i ==> !Matches(vars[..][j], Key(name, guid))
      {
        if vars[i].inUse && vars[i].guid == guid && vars[i].name == name {
          assert Matches(vars[..][i], Key(name, guid));
          return;
        }
        i := i + 1;
      }
    }

    method FindFree() returns (i: nat)
      requires Valid()
      ensures i == FreeIndex(vars[..]) && i <= vars.Length
    {
      i := 0;
      while i < vars.Length
        invariant 0 <= i <= vars.Length
        invariant forall j :: 0 <= j < i ==> vars[..][j].inUse
      {
        if !vars[i].inUse {
          assert !vars[..][i].inUse;
          return;
        }
        i := i + 1;
      }
    }

    /** GetVariable: the bound value copied out, or the size it needs. */
    method Get(namePtr: seq<u16>, guid: Guid, buf: array<byte>) returns (r: VarResult<(u32, nat)>)
      requires Valid() && Readable(namePtr)
      modifies buf
      ensures Valid() && vars[..] == old(vars[..])
      ensures match NameAt(namePtr)
              case None => r == Err(InvalidParameter)
              case Some(name) =>
                var k := Key(name, guid);
                if k !in View(vars[..]) then r == Err(NotFound)
                else
                  var v := View(vars[..])[k];
                  if buf.Length < |v.data| then r == Err(BufferTooSmall(|v.data|))
                  else r == Ok((v.attributes, |v.data|)) && buf[..] == v.data + old(buf[|v.data|..])
      ensures r.Err? ==> buf[..] == old(buf[..])
    {
      var name := ReadName(namePtr);
      if name.None? {
        return Err(InvalidParameter);
      }
      var i := Find(name.value, guid);
      IndexOfKey(vars[..], Key(name.value, guid));
      if i == vars.Length {
        return Err(NotFound);
      }
      var v := vars[i];
      assert vars[..][i] == v;
      if buf.Length < |v.data| {
        return Err(BufferTooSmall(|v.data|));
      }
      forall j | 0 <= j < |v.data| {
        buf[j] := v.data[j];
      }
      return Ok((v.attributes, |v.data|));
    }

    /** SetVariable. */
    method Set(namePtr: seq<u16>, guid: Guid, attributes: u32, data: seq<byte>) returns (r: VarResult<()>)
      requires Valid() && Readable(namePtr)
      modifies vars
      ensures Valid()
      ensures match NameAt(namePtr)
              case None => r == Err(InvalidParameter) && vars[..] == old(vars[..])
              case Some(name) =>
                && (vars[..], r) == SetSlots(old(vars[..]), Key(name, guid), Value(attributes, data))
                && (View(vars[..]), r) == SetMap(View(old(vars[..])), Key(name, guid), Value(attributes, data))
    {
      var name := ReadName(namePtr);
      if name.None? {
        return Err(InvalidParameter);
      }
      SetRefines(vars[..], Key(name.value, guid), Value(attributes, data));
      if |data| > MAX_DATA_LEN {
        return Err(OutOfResources);
      }
      var i := Find(name.value, guid);
      if data == [] {
        if i < vars.Length {
          vars[i] := EMPTY_VAR;
          return Ok(());
        }
        return Err(NotFound);
      }
      if i < vars.Length {
        vars[i] := vars[i].(attributes := attributes, data := data);
        return Ok(());
      }
      var f := FindFree();
      if f == vars.Length {
        return Err(OutOfResources);
      }
      vars[f] := Variable(true, name.value, guid, attributes, data);
      return Ok(());
    }

    /** GetNextVariableName: the name after `prevPtr` with its terminator, and its GUID. */
    method GetNext(prevPtr: seq<u16>, prevGuid: Guid, out: array<u16>) returns (r: VarResult<(nat, Guid)>)
      requires Valid() && Readable(prevPtr)
      modifies out
      ensures Valid() && vars[..] == old(vars[..])
      ensures match NameAt(prevPtr)
              case None => r == Err(InvalidParameter)
              case Some(prev) =>
                match NextKey(vars[..], Key(prev, prevGuid))
                case Err(e) => r == Err(e)
                case Ok(k) =>
                  if out.Length < |k.name| + 1 then r == Err(BufferTooSmall(|k.name| + 1))
                  else r == Ok((|k.name| + 1, k.guid)) && out[..|k.name| + 1] == k.name + [0]
                       && NameAt(out[..]) == Some(k.name)
                       && out[|k.name| + 1..] == old(out[|k.name| + 1..])
      ensures r.Err? ==> out[..] == old(out[..])
    {
      hide IndexOf, NextLive, NameAt, Unique;
      var prev := ReadName(prevPtr);
      if prev.None? {
        return Err(InvalidParameter);
      }
      var i := 0;
      if prev.value != [] {
        var pos := Find(prev.value, prevGuid);
        if pos == vars.Length {
          return Err(InvalidParameter);
        }
        i := pos + 1;
      }
      i := FindLive(i);
      if i == vars.Length {
        return Err(NotFound);
      }
      var v := vars[i];
      assert vars[..][i] == v;
      if out.Length < |v.name| + 1 {
        return Err(BufferTooSmall(|v.name| + 1));
      }
      CopyName(v.name, out);
      return Ok((|v.name| + 1, v.guid));
    }

    method FindLive(start: nat) returns (i: nat)
      requires Valid() && start <= vars.Length
      ensures i == NextLive(vars[..], start) && i <= vars.Length
    {
      i := start;
      while i < vars.Length
        invariant start <= i <= vars.Length
        invariant forall j :: start <= j < i ==> !vars[..][j].inUse
      {
        if vars[i].inUse {
          assert vars[..][i].inUse;
          return;
        }
        i := i + 1;
      }
    }

    /** QueryVariableInfo: capacity, what is left of it, and the limit per variable. */
    method StorageInfo() returns (total: nat, left: nat, perVariable: nat)
      requires Valid()
      ensures total == 16384 && perVariable == 512
      ensures left + UsedBytes(vars[..]) == total
    {
      var used := 0;
      var i := 0;
      while i < vars.Length
        invariant 0 <= i <= vars.Length && used == UsedBytes(vars[..i])
      {
        assert vars[..i + 1][..i] == vars[..i];
        if vars[i].inUse {
          used := used + |vars[i].data|;
        }
        i := i + 1;
      }
      assert vars[..vars.Length] == vars[..];
      UsedBounded(vars[..]);
      total := MAX_VARIABLES * MAX_DATA_LEN;
      return total, total - used, MAX_DATA_LEN;
    }
  }

  /** Stores a name and its terminator at the start of a buffer. */
  method CopyName(name: seq<u16>, out: array<u16>)
    requires GoodName(name) && |name| < out.Length
    modifies out
    ensures out[..|name| + 1] == name + [0] && NameAt(out[..]) == Some(name)
    ensures out[|name| + 1..] == old(out[|name| + 1..])
  {
    forall j | 0 <= j < |name| {
      out[j] := name[j];
    }
    out[|name|] := 0;
    Terminated(out[..], name);
  }

  lemma Terminated(units: seq<u16>, name: seq<u16>)
    requires GoodName(name) && |name| < |units| && units[..|name|] == name && units[|name|] == 0
    ensures NameAt(units) == Some(name)
  {
    var n := FirstNul(units);
    assert forall j :: 0 <= j < |name| ==> units[j] == name[j] && name[j] in name;
  }
}
