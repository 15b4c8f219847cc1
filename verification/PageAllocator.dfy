/** The bump-pointer page allocator, as concurrent callers racing through its compare-exchange loop. */
module PageAllocator {
  import opened Bytes
  import opened Options

  const PAGE_SIZE := 4096
  const RAM_LIMIT := 0x3F00_0000
  const WORD := 0x1_0000_0000_0000_0000

  function PageAlignUp(addr: nat): (a: nat)
    ensures a % PAGE_SIZE == 0 && addr <= a < addr + PAGE_SIZE
  {
    (addr + PAGE_SIZE - 1) / PAGE_SIZE * PAGE_SIZE
  }

  /** `base + count * EFI_PAGE_SIZE` in 64-bit machine arithmetic. */
  function NewMark(base: nat, count: u64): u64 {
    (base + count * PAGE_SIZE) % WORD
  }

  /** A request for no more pages than RAM holds. */
  predicate Fits(count: u64) {
    count <= RAM_LIMIT / PAGE_SIZE
  }

  /**
   * A call that succeeds got a range that really ends inside RAM if and only if it asked for no more pages
   * than RAM holds.
   */
  lemma GrantInsideIffFits(base: nat, count: u64)
    requires base <= RAM_LIMIT && NewMark(base, count) <= RAM_LIMIT
    ensures base + count * PAGE_SIZE <= RAM_LIMIT <==> Fits(count)
    ensures Fits(count) ==> NewMark(base, count) == base + count * PAGE_SIZE
  {
    if base + count * PAGE_SIZE < WORD {
      assert NewMark(base, count) == base + count * PAGE_SIZE;
    }
  }

  /** Asking for 2^52 pages wraps to no pages at all: the call succeeds and the mark stays put. */
  lemma WrappingRequestSucceeds(a: Allocator)
    requires a.mark <= RAM_LIMIT
    ensures Allocate(a, 0x10_0000_0000_0000) == (a.(generation := a.generation + 1), Some(a.mark))
    ensures !Fits(0x10_0000_0000_0000)
  {
  }

  // ---------- the sequential allocator ----------

  datatype Allocator = Allocator(mark: nat, generation: nat)

  function Allocate(a: Allocator, count: u64): (Allocator, Option<nat>) {
    var next := NewMark(a.mark, count);
    if next > RAM_LIMIT then (a, None) else (Allocator(next, a.generation + 1), Some(a.mark))
  }

  // ---------- concurrent callers ----------

  /**
   * Where a caller is in the loop. `seen` remembers how many grants had been made when it loaded the
   * mark; it is bookkeeping for the proof.
   */
  datatype Pc = Idle | Entering(count: u64) | Loaded(count: u64, base: nat, seen: nat) | Swapped(base: nat)

  datatype Grant = Grant(thread: nat, base: nat, count: u64)

  function End(gr: Grant): nat {
    gr.base + gr.count * PAGE_SIZE
  }

  datatype State = State(mark: nat, generation: nat, grants: seq<Grant>, pcs: map<nat, Pc>)

  datatype Event =
    | Call(t: nat, count: u64) // a caller enters the loop
    | Load(t: nat)             // reads the mark
    | Refuse(t: nat)           // would pass the RAM limit: returns None
    | Swap(t: nat)             // the exchange succeeds
    | SwapFails(t: nat)        // the exchange finds another mark: back to the load
    | Bump(t: nat)             // counts the allocation and returns Some(base)

  ghost predicate Init(s: State, start: nat) {
    && start % PAGE_SIZE == 0 && start <= RAM_LIMIT
    && s.mark == start && s.generation == 0 && s.grants == []
    && forall t :: t in s.pcs ==> s.pcs[t] == Idle
  }

  ghost predicate Next(s: State, s': State, e: Event) {
    && e.t in s.pcs
    && var pc := s.pcs[e.t];
    match e
    case Call(t, count) =>
      pc == Idle && s' == s.(pcs := s.pcs[t := Entering(count)])
    case Load(t) =>
      pc.Entering? && s' == s.(pcs := s.pcs[t := Loaded(pc.count, s.mark, |s.grants|)])
    case Refuse(t) =>
      pc.Loaded? && NewMark(pc.base, pc.count) > RAM_LIMIT && s' == s.(pcs := s.pcs[t := Idle])
    case Swap(t) =>
      && pc.Loaded? && NewMark(pc.base, pc.count) <= RAM_LIMIT && s.mark == pc.base
      && s' == s.(mark := NewMark(pc.base, pc.count),
                  grants := s.grants + [Grant(t, pc.base, pc.count)],
                  pcs := s.pcs[t := Swapped(pc.base)])
    case SwapFails(t) =>
      && pc.Loaded? && NewMark(pc.base, pc.count) <= RAM_LIMIT && s.mark != pc.base
      && s' == s.(pcs := s.pcs[t := Entering(pc.count)])
    case Bump(t) =>
      pc.Swapped? && s' == s.(generation := s.generation + 1, pcs := s.pcs[t := Idle])
  }

  /** The mark after the first `n` grants. */
  function MarkAt(start: nat, grants: seq<Grant>, n: nat): nat
    requires n <= |grants|
  {
    if n == 0 then start else NewMark(grants[n - 1].base, grants[n - 1].count)
  }

  /** Each grant began at the mark the one before it left, and left a mark inside RAM. */
  ghost predicate GrantsOk(start: nat, grants: seq<Grant>) {
    && (forall i :: 0 <= i < |grants| ==> grants[i].base == MarkAt(start, grants, i))
    && (forall i :: 0 <= i < |grants| ==> NewMark(grants[i].base, grants[i].count) <= RAM_LIMIT)
  }

  /** Every granted request was for no more pages than RAM holds. */
  ghost predicate AllFit(grants: seq<Grant>) {
    forall i :: 0 <= i < |grants| ==> Fits(grants[i].count)
  }

  ghost predicate CallerOk(s: State, start: nat, t: nat) {
    t in s.pcs ==>
      match s.pcs[t]
      case Idle => true
      case Entering(count) => true
      case Loaded(count, base, seen) =>
        && seen <= |s.grants| && base == MarkAt(start, s.grants, seen)
        && forall n :: seen <= n < |s.grants| ==> s.grants[n].thread != t
      case Swapped(base) => exists n :: 0 <= n < |s.grants| && s.grants[n].thread == t && s.grants[n].base == base
  }

  /** The callers between their exchange and their count. */
  ghost function InFlight(s: State): set<nat> {
    set t | t in s.pcs && s.pcs[t].Swapped?
  }

  ghost predicate Inv(s: State, start: nat) {
    && start % PAGE_SIZE == 0 && start <= RAM_LIMIT
    && GrantsOk(start, s.grants)
    && s.mark == MarkAt(start, s.grants, |s.grants|)
    && (forall t :: CallerOk(s, start, t))
    && s.generation + |InFlight(s)| == |s.grants|
  }

  lemma InitInv(s: State, start: nat)
    requires Init(s, start)
    ensures Inv(s, start)
  {
    assert InFlight(s) == {};
  }

  lemma InFlightMember(s: State, s': State, e: Event, t: nat)
    requires Next(s, s', e)
    ensures t in InFlight(s') <==> if t == e.t then e.Swap? else t in InFlight(s)
    ensures e.t in InFlight(s) <==> e.Bump?
  {
    hide NewMark;
  }

  lemma InFlightStep(s: State, s': State, e: Event)
    requires Next(s, s', e)
    ensures |InFlight(s')| == |InFlight(s)| + (if e.Swap? then 1 else 0) - (if e.Bump? then 1 else 0)
  {
    hide Next, InFlight;
    var before, after := InFlight(s), InFlight(s');
    forall t: nat
      ensures t in after <==> if t == e.t then e.Swap? else t in before
    {
      InFlightMember(s, s', e, t);
    }
    assert e.t in before <==> e.Bump? by { InFlightMember(s, s', e, e.t); }
    if e.Swap? {
      assert after == before + {e.t};
    } else if e.Bump? {
      assert before == after + {e.t};
    } else {
      assert after == before;
    }
  }

  lemma SwapGrants(s: State, s': State, start: nat, t: nat)
    requires Inv(s, start) && Next(s, s', Swap(t))
    ensures GrantsOk(start, s'.grants) && s'.mark == MarkAt(start, s'.grants, |s'.grants|)
  {
    hide NewMark;
    forall i | 0 <= i < |s.grants|
      ensures MarkAt(start, s'.grants, i) == MarkAt(start, s.grants, i) && s'.grants[i] == s.grants[i]
    {
    }
  }

  lemma CallersStep(s: State, s': State, start: nat, e: Event, t: nat)
    requires Inv(s, start) && Next(s, s', e)
    ensures CallerOk(s', start, t)
  {
    hide NewMark, GrantsOk, InFlight;
    assert CallerOk(s, start, t) && CallerOk(s, start, e.t);
    if e.Swap? && t == e.t {
      assert s'.grants[|s.grants|].thread == t;
    } else if e.Swap? && t in s.pcs && s.pcs[t].Loaded? {
      assert MarkAt(start, s'.grants, s.pcs[t].seen) == MarkAt(start, s.grants, s.pcs[t].seen);
    } else if e.Swap? && t in s.pcs && s.pcs[t].Swapped? {
      var n :| 0 <= n < |s.grants| && s.grants[n].thread == t && s.grants[n].base == s.pcs[t].base;
      assert s'.grants[n] == s.grants[n];
    }
  }

  /** Every step of every caller keeps the allocator's invariant. */
  lemma NextInv(s: State, s': State, start: nat, e: Event)
    requires Inv(s, start) && Next(s, s', e)
    ensures Inv(s', start)
  {
    forall t
      ensures CallerOk(s', start, t)
    {
      CallersStep(s, s', start, e, t);
    }
    InFlightStep(s, s', e);
    if e.Swap? {
      SwapGrants(s, s', start, e.t);
    }
  }

  /** A run from initialization, under any interleaving of any number of callers. */
  ghost predicate Run(states: seq<State>, events: seq<Event>, start: nat) {
    && |states| == |events| + 1 && Init(states[0], start)
    && forall i :: 0 <= i < |events| ==> Next(states[i], states[i + 1], events[i])
  }

  lemma {:induction false} RunInv(states: seq<State>, events: seq<Event>, start: nat)
    requires Run(states, events, start)
    ensures Inv(states[|events|], start)
    decreases |events|
  {
    if events == [] {
      InitInv(states[0], start);
    } else {
      var n := |events| - 1;
      assert Run(states[..n + 1], events[..n], start);
      RunInv(states[..n + 1], events[..n], start);
      NextInv(states[n], states[n + 1], start, events[n]);
    }
  }

  lemma GrantAt(start: nat, grants: seq<Grant>, i: nat)
    requires GrantsOk(start, grants) && i < |grants|
    ensures grants[i].base == MarkAt(start, grants, i)
    ensures MarkAt(start, grants, i + 1) == NewMark(grants[i].base, grants[i].count) <= RAM_LIMIT
  {
    hide NewMark;
  }

  lemma NewMarkAligned(base: nat, count: u64)
    requires base % PAGE_SIZE == 0
    ensures NewMark(base, count) % PAGE_SIZE == 0
  {
    var pages := base / PAGE_SIZE + count;
    assert base + count * PAGE_SIZE == pages * PAGE_SIZE;
    assert pages * PAGE_SIZE % WORD == pages % (WORD / PAGE_SIZE) * PAGE_SIZE;
  }

  /** A granted range that fits ends where the next one begins. */
  lemma GrantEnd(start: nat, grants: seq<Grant>, i: nat)
    requires GrantsOk(start, grants) && AllFit(grants) && i < |grants|
    requires start % PAGE_SIZE == 0 && start <= RAM_LIMIT
    ensures grants[i].base == MarkAt(start, grants, i) && End(grants[i]) == MarkAt(start, grants, i + 1)
  {
    hide NewMark, GrantsOk, MarkAt;
    GrantAt(start, grants, i);
    MarksStayOk(start, grants, i);
    GrantInsideIffFits(grants[i].base, grants[i].count);
  }

  lemma {:induction false} MarksStayOk(start: nat, grants: seq<Grant>, n: nat)
    requires GrantsOk(start, grants) && n <= |grants| && start % PAGE_SIZE == 0 && start <= RAM_LIMIT
    ensures MarkAt(start, grants, n) <= RAM_LIMIT && MarkAt(start, grants, n) % PAGE_SIZE == 0
  {
    hide NewMark, GrantsOk;
    if n > 0 {
      MarksStayOk(start, grants, n - 1);
      GrantAt(start, grants, n - 1);
      NewMarkAligned(grants[n - 1].base, grants[n - 1].count);
    }
  }

  lemma {:induction false} MarksGrow(start: nat, grants: seq<Grant>, i: nat, j: nat)
    requires GrantsOk(start, grants) && AllFit(grants) && i <= j <= |grants|
    requires start % PAGE_SIZE == 0 && start <= RAM_LIMIT
    ensures MarkAt(start, grants, i) <= MarkAt(start, grants, j)
    ensures i == 0 ==> start <= MarkAt(start, grants, j)
    decreases j - i
  {
    hide NewMark, GrantsOk;
    if i < j {
      MarksGrow(start, grants, i, j - 1);
      GrantEnd(start, grants, j - 1);
    }
  }

  /**
   * Under every interleaving every grant starts page-aligned inside RAM, and once no caller is between
   * its exchange and its count the generation is the number of grants. The granted ranges all end inside
   * RAM if and only if every granted request was for no more pages than RAM holds.
   */
  lemma GrantsInsideIffAllFit(states: seq<State>, events: seq<Event>, start: nat)
    requires Run(states, events, start)
    ensures var s := states[|events|];
            && (forall i :: 0 <= i < |s.grants| ==> s.grants[i].base % PAGE_SIZE == 0 && s.grants[i].base <= RAM_LIMIT)
            && ((forall i :: 0 <= i < |s.grants| ==> End(s.grants[i]) <= RAM_LIMIT) <==> AllFit(s.grants))
            && (InFlight(s) == {} ==> s.generation == |s.grants|)
  {
    hide NewMark, GrantsOk, MarkAt, CallerOk;
    var s := states[|events|];
    RunInv(states, events, start);
    forall i | 0 <= i < |s.grants|
      ensures s.grants[i].base % PAGE_SIZE == 0 && s.grants[i].base <= RAM_LIMIT
      ensures End(s.grants[i]) <= RAM_LIMIT <==> Fits(s.grants[i].count)
    {
      GrantAt(start, s.grants, i);
      MarksStayOk(start, s.grants, i);
      GrantInsideIffFits(s.grants[i].base, s.grants[i].count);
    }
  }

  /**
   * In such a run the granted ranges follow one another without overlap and stay between the firmware's
   * end and the RAM limit, whichever callers they went to.
   */
  lemma GrantsAreDisjoint(states: seq<State>, events: seq<Event>, start: nat)
    requires Run(states, events, start) && AllFit(states[|events|].grants)
    ensures var s := states[|events|];
            && (forall i :: 0 <= i < |s.grants| ==>
                  start <= s.grants[i].base && End(s.grants[i]) <= s.mark <= RAM_LIMIT)
            && (forall i, j :: 0 <= i < j < |s.grants| ==> End(s.grants[i]) <= s.grants[j].base)
  {
    hide NewMark, GrantsOk, MarkAt, CallerOk;
    var s := states[|events|];
    RunInv(states, events, start);
    MarksStayOk(start, s.grants, |s.grants|);
    forall i | 0 <= i < |s.grants|
      ensures start <= s.grants[i].base && End(s.grants[i]) <= s.mark
    {
      GrantEnd(start, s.grants, i);
      MarksGrow(start, s.grants, 0, i);
      MarksGrow(start, s.grants, i + 1, |s.grants|);
    }
    forall i, j | 0 <= i < j < |s.grants|
      ensures End(s.grants[i]) <= s.grants[j].base
    {
      GrantEnd(start, s.grants, i);
      GrantEnd(start, s.grants, j);
      MarksGrow(start, s.grants, i + 1, j);
    }
  }

  /** An exchange only fails because another caller was granted pages since this one loaded the mark. */
  lemma FailureMeansInterference(states: seq<State>, events: seq<Event>, start: nat, s': State, t: nat)
    requires Run(states, events, start) && Next(states[|events|], s', SwapFails(t))
    ensures var s := states[|events|];
            && s.pcs[t].Loaded? && s.pcs[t].seen < |s.grants|
            && (forall n :: s.pcs[t].seen <= n < |s.grants| ==> s.grants[n].thread != t)
            && (AllFit(s.grants) ==> s.pcs[t].base < s.mark)
  {
    var s := states[|events|];
    RunInv(states, events, start);
    assert CallerOk(s, start, t);
    if AllFit(s.grants) {
      MarksGrow(start, s.grants, s.pcs[t].seen, |s.grants|);
    }
  }

  // ---------- a map read beside concurrent allocations ----------

  lemma {:induction false} GrantsExtend(states: seq<State>, events: seq<Event>, start: nat, i: nat, k: nat)
    requires Run(states, events, start) && i <= k <= |events|
    ensures |states[i].grants| <= |states[k].grants|
    ensures forall n :: 0 <= n < |states[i].grants| ==> states[k].grants[n] == states[i].grants[n]
    decreases k - i
  {
    hide NewMark;
    if i < k {
      GrantsExtend(states, events, start, i, k - 1);
      assert Next(states[k - 1], states[k], events[k - 1]);
    }
  }

  lemma InvAt(states: seq<State>, events: seq<Event>, start: nat, i: nat)
    requires Run(states, events, start) && i <= |events|
    ensures Inv(states[i], start)
  {
    hide Next, Init, Inv;
    assert Run(states[..i + 1], events[..i], start) by {
      assert states[..i + 1][0] == states[0];
    }
    RunInv(states[..i + 1], events[..i], start);
  }

  /** Between two states of a run the mark moved by at least the pages granted in between. */
  lemma MarkMoves(states: seq<State>, events: seq<Event>, start: nat, i: nat, k: nat)
    requires Run(states, events, start) && i <= k <= |events|
    ensures |states[i].grants| == |states[k].grants| ==> states[i].mark == states[k].mark
    ensures |states[i].grants| < |states[k].grants| && AllFit(states[k].grants)
            && (forall n :: 0 <= n < |states[k].grants| ==> states[k].grants[n].count > 0) ==>
              states[i].mark < states[k].mark
  {
    hide NewMark, GrantsOk, Next, Init, CallerOk, InFlight;
    InvAt(states, events, start, i);
    InvAt(states, events, start, k);
    GrantsExtend(states, events, start, i, k);
    var before, after := states[i].grants, states[k].grants;
    assert MarkAt(start, after, |before|) == MarkAt(start, before, |before|);
    if |before| < |after| && AllFit(after) && (forall n :: 0 <= n < |after| ==> after[n].count > 0) {
      GrantEnd(start, after, |before|);
      MarksGrow(start, after, |before| + 1, |after|);
    }
  }

  /**
   * The handover beside other callers. A map made from the mark at `i`, then the key read at `j`, then an
   * exit at `k` that finds that key current. A caller between its exchange and its count has moved the
   * mark but not yet the key, so the map handed over is the map made if the key read, with the callers
   * then in between at the exit, makes the same sum as when the mark was read; and if every request
   * granted was for some pages, and no more than RAM holds, only if.
   */
  lemma ConcurrentHandshake(states: seq<State>, events: seq<Event>, start: nat, i: nat, j: nat, k: nat)
    requires Run(states, events, start) && i <= j <= k <= |events|
    requires states[j].generation == states[k].generation
    ensures states[i].generation + |InFlight(states[i])| == states[j].generation + |InFlight(states[k])| ==>
              states[i].mark == states[k].mark
    ensures AllFit(states[k].grants) && (forall n :: 0 <= n < |states[k].grants| ==> states[k].grants[n].count > 0) ==>
              (states[i].mark == states[k].mark <==>
               states[i].generation + |InFlight(states[i])| == states[j].generation + |InFlight(states[k])|)
  {
    hide NewMark, GrantsOk, Run, Next, Init, CallerOk, MarkAt, InFlight;
    InvAt(states, events, start, i);
    InvAt(states, events, start, k);
    GrantsExtend(states, events, start, i, k);
    MarkMoves(states, events, start, i, k);
  }

  /** The steps of a first caller asking for one page. */
  lemma OneGrant(start: nat) returns (states: seq<State>, events: seq<Event>)
    requires start % PAGE_SIZE == 0 && start + PAGE_SIZE <= RAM_LIMIT
    ensures events == [Call(0, 1), Load(0), Swap(0), Bump(0)] && Run(states, events, start)
    ensures states[0].mark == start && states[0].generation == 0 && InFlight(states[0]) == {}
    ensures states[3].mark == start + PAGE_SIZE && states[3].generation == 0 && InFlight(states[3]) == {0}
    ensures states[4].mark == start + PAGE_SIZE && states[4].generation == 1 && InFlight(states[4]) == {}
  {
    var s0 := State(start, 0, [], map[0 := Idle]);
    var s1 := s0.(pcs := map[0 := Entering(1)]);
    var s2 := s0.(pcs := map[0 := Loaded(1, start, 0)]);
    var s3 := State(start + PAGE_SIZE, 0, [Grant(0, start, 1)], map[0 := Swapped(start)]);
    var s4 := s3.(generation := 1, pcs := map[0 := Idle]);
    states, events := [s0, s1, s2, s3, s4], [Call(0, 1), Load(0), Swap(0), Bump(0)];
    assert s0.pcs[0 := Entering(1)] == s1.pcs && s1.pcs[0 := Loaded(1, start, 0)] == s2.pcs;
    assert s2.pcs[0 := Swapped(start)] == s3.pcs && s3.pcs[0 := Idle] == s4.pcs;
    assert Next(s0, s1, Call(0, 1)) && Next(s1, s2, Load(0)) && Next(s2, s3, Swap(0)) && Next(s3, s4, Bump(0));
  }

  /** A grant between the reading of the map and of the key: a stale map, and a key that is current. */
  lemma StaleMapAccepted(start: nat) returns (states: seq<State>, events: seq<Event>)
    requires start % PAGE_SIZE == 0 && start + PAGE_SIZE <= RAM_LIMIT
    ensures Run(states, events, start) && |events| == 4
    ensures InFlight(states[0]) == {} && InFlight(states[4]) == {}
    ensures states[0].mark != states[4].mark && states[0].generation != states[4].generation
  {
    states, events := OneGrant(start);
  }

  /**
   * A grant not yet counted at the exit: map and key are read together, the key is still current, and the
   * map is stale all the same.
   */
  lemma UncountedGrantAccepted(start: nat) returns (states: seq<State>, events: seq<Event>)
    requires start % PAGE_SIZE == 0 && start + PAGE_SIZE <= RAM_LIMIT
    ensures Run(states, events, start) && |events| == 3
    ensures states[0].generation == states[3].generation && InFlight(states[0]) == {}
    ensures states[0].mark != states[3].mark
  {
    hide Next, Init, InFlight;
    var all, steps := OneGrant(start);
    states, events := all[..4], steps[..3];
    assert states[0] == all[0] && states[3] == all[3];
  }

  /** A caller nobody interrupts computes exactly the sequential allocation. */
  lemma SoloCallIsAllocate(s: State, t: nat, count: u64) returns (s': State, r: Option<nat>)
    requires t in s.pcs && s.pcs[t] == Idle
    ensures (Allocator(s'.mark, s'.generation), r) == Allocate(Allocator(s.mark, s.generation), count)
    ensures s'.pcs == s.pcs
    ensures exists s1, s2 ::
              && Next(s, s1, Call(t, count)) && Next(s1, s2, Load(t))
              && if r.None? then Next(s2, s', Refuse(t))
                 else exists s3 :: Next(s2, s3, Swap(t)) && Next(s3, s', Bump(t))
  {
    var s1 := s.(pcs := s.pcs[t := Entering(count)]);
    var s2 := s.(pcs := s.pcs[t := Loaded(count, s.mark, |s.grants|)]);
    assert s1.pcs[t := Loaded(count, s.mark, |s.grants|)] == s2.pcs;
    assert Next(s, s1, Call(t, count)) && Next(s1, s2, Load(t));
    var next := NewMark(s.mark, count);
    if next > RAM_LIMIT {
      s', r := s, None;
      assert s2.pcs[t := Idle] == s.pcs;
    } else {
      var grants := s.grants + [Grant(t, s.mark, count)];
      var s3 := State(next, s.generation, grants, s.pcs[t := Swapped(s.mark)]);
      assert s2.pcs[t := Swapped(s.mark)] == s3.pcs && s3.pcs[t := Idle] == s.pcs;
      s', r := State(next, s.generation + 1, grants, s.pcs), Some(s.mark);
      assert Next(s2, s3, Swap(t)) && Next(s3, s', Bump(t));
    }
  }
}
