/** Cluster chains as plain sequences over the table of FAT entries. */
module FatChain {
  import opened Bytes
  import opened FatGeometry

  ghost predicate Distinct(cs: seq<nat>) {
    forall i, j :: 0 <= i < j < |cs| ==> cs[i] != cs[j]
  }

  ghost predicate Apart(a: seq<nat>, b: seq<nat>) {
    forall c :: c in a ==> c !in b
  }

  ghost function SetOf(cs: seq<nat>): set<nat> {
    set c | c in cs
  }

  /** `cs` is an acyclic run of in-range clusters, each linking to the next, the last marked as end. */
  ghost predicate IsChain(fat: seq<nat>, cs: seq<nat>) {
    && |cs| > 0
    && (forall i :: 0 <= i < |cs| ==> 2 <= cs[i] < |fat|)
    && (forall i, j :: 0 <= i && j == i + 1 && j < |cs| ==> fat[cs[i]] == cs[j])
    && fat[cs[|cs| - 1]] >= END_OF_CHAIN
    && Distinct(cs)
  }

  /** The clusters met by following links from `c` until a link leaves the table. */
  function Follow(fat: seq<nat>, c: nat, fuel: nat): (cs: seq<nat>)
    ensures forall i :: 0 <= i < |cs| ==> 2 <= cs[i] < |fat|
    decreases fuel
  {
    if fuel == 0 || !(2 <= c < |fat|) then [] else [c] + Follow(fat, fat[c], fuel - 1)
  }

  ghost function FreeSet(fat: seq<nat>): set<nat> {
    set c | 2 <= c < |fat| && fat[c] == 0
  }

  lemma {:induction false} DistinctSize(cs: seq<nat>)
    requires Distinct(cs)
    ensures |SetOf(cs)| == |cs|
  {
    if |cs| > 0 {
      var rest := cs[..|cs| - 1];
      DistinctSize(rest);
      assert SetOf(cs) == SetOf(rest) + {cs[|cs| - 1]};
    }
  }

  lemma {:induction false} BoundedSize(a: set<nat>, n: nat)
    requires forall c :: c in a ==> c < n
    ensures |a| <= n
  {
    if n == 0 {
      assert a == {};
    } else {
      BoundedSize(a - {n - 1}, n - 1);
    }
  }

  /** A chain never has more clusters than the table has entries. */
  lemma ChainLength(fat: seq<nat>, cs: seq<nat>)
    requires IsChain(fat, cs)
    ensures |cs| <= |fat|
  {
    DistinctSize(cs);
    BoundedSize(SetOf(cs), |fat|);
  }

  lemma ChainTail(fat: seq<nat>, cs: seq<nat>, n: nat)
    requires IsChain(fat, cs) && n < |cs|
    ensures IsChain(fat, cs[n..])
  {
  }

  lemma ChainHead(fat: seq<nat>, cs: seq<nat>)
    requires IsChain(fat, cs)
    ensures |cs| > 0 && 2 <= cs[0] < |fat|
    ensures if |cs| == 1 then fat[cs[0]] >= END_OF_CHAIN else fat[cs[0]] == cs[1]
  {
  }

  lemma {:induction false} FollowFrom(fat: seq<nat>, cs: seq<nat>, fuel: nat)
    requires IsChain(fat, cs) && |cs| <= fuel && |fat| <= END_OF_CHAIN
    ensures Follow(fat, cs[0], fuel) == cs
  {
    hide IsChain;
    ChainHead(fat, cs);
    if |cs| == 1 {
      assert Follow(fat, fat[cs[0]], fuel - 1) == [];
    } else {
      ChainTail(fat, cs, 1);
      FollowFrom(fat, cs[1..], fuel - 1);
      assert cs == [cs[0]] + cs[1..];
    }
  }

  /** Following links from a chain's head recovers exactly that chain. */
  lemma FollowChain(fat: seq<nat>, cs: seq<nat>)
    requires IsChain(fat, cs) && |fat| <= END_OF_CHAIN
    ensures Follow(fat, cs[0], |fat|) == cs
  {
    ChainLength(fat, cs);
    FollowFrom(fat, cs, |fat|);
  }

  lemma ChainKept(fat: seq<nat>, fat': seq<nat>, cs: seq<nat>)
    requires IsChain(fat, cs) && |fat'| == |fat|
    requires forall c :: c in cs && 0 <= c < |fat| ==> fat'[c] == fat[c]
    ensures IsChain(fat', cs)
  {
  }

  lemma ChainNotFree(fat: seq<nat>, cs: seq<nat>)
    requires IsChain(fat, cs)
    ensures SetOf(cs) !! FreeSet(fat)
  {
    forall c | c in cs
      ensures c !in FreeSet(fat)
    {
      var i :| 0 <= i < |cs| && cs[i] == c;
      if i + 1 < |cs| {
        assert fat[cs[i]] == cs[i + 1];
      }
    }
  }

  /** Linking the end of one chain to the head of another joins them. */
  lemma JoinChains(fat: seq<nat>, a: seq<nat>, b: seq<nat>)
    requires IsChain(fat, a) && IsChain(fat, b) && Apart(a, b)
    ensures IsChain(fat[a[|a| - 1] := b[0]], a + b)
  {
    var fat' := fat[a[|a| - 1] := b[0]];
    var cs := a + b;
    forall i, j | 0 <= i && j == i + 1 && j < |cs|
      ensures fat'[cs[i]] == cs[j]
    {
      if i < |a| - 1 {
        assert fat[a[i]] == a[j];
      } else if i >= |a| {
        assert fat[b[i - |a|]] == b[j - |a|];
        assert b[i - |a|] !in a;
      }
    }
    assert b[|b| - 1] !in a;
    forall i, j | 0 <= i < j < |cs|
      ensures cs[i] != cs[j]
    {
      if i < |a| <= j {
        assert a[i] in a;
      }
    }
  }

  /** Cutting a chain after its first `n` clusters, with the rest released. */
  lemma CutChain(fat: seq<nat>, fat': seq<nat>, cs: seq<nat>, n: nat)
    requires IsChain(fat, cs) && 0 < n <= |cs| && |fat'| == |fat|
    requires forall i :: 0 <= i < n - 1 ==> fat'[cs[i]] == fat[cs[i]]
    requires fat'[cs[n - 1]] >= END_OF_CHAIN
    ensures IsChain(fat', cs[..n])
  {
  }

  /** Hanging a free cluster off the end of a chain lengthens it by one. */
  lemma GrowChain(fat: seq<nat>, fat': seq<nat>, cs: seq<nat>, c: nat)
    requires IsChain(fat, cs) && c in FreeSet(fat) && |fat'| == |fat|
    requires forall x :: x in cs && x != cs[|cs| - 1] ==> fat'[x] == fat[x]
    requires fat'[cs[|cs| - 1]] == c && fat'[c] >= END_OF_CHAIN
    ensures IsChain(fat', cs + [c])
  {
    ChainNotFree(fat, cs);
    assert c !in SetOf(cs);
    forall i, j | 0 <= i && j == i + 1 && j < |cs + [c]|
      ensures fat'[(cs + [c])[i]] == (cs + [c])[j]
    {
      if j < |cs| {
        assert cs[i] in cs && fat[cs[i]] == cs[j];
      }
    }
  }

  lemma JoinSets(a: seq<nat>, b: seq<nat>)
    ensures SetOf(a + b) == SetOf(a) + SetOf(b)
  {
  }

  lemma UnionSize(a: set<nat>, b: set<nat>)
    requires a !! b
    ensures |a + b| == |a| + |b|
  {
  }

  lemma SplitSets(cs: seq<nat>, n: nat)
    requires Distinct(cs) && n <= |cs|
    ensures SetOf(cs) == SetOf(cs[..n]) + SetOf(cs[n..])
    ensures SetOf(cs[..n]) !! SetOf(cs[n..])
    ensures |SetOf(cs[..n])| == n && |SetOf(cs[n..])| == |cs| - n
  {
    assert cs == cs[..n] + cs[n..];
    DistinctSize(cs[..n]);
    DistinctSize(cs[n..]);
    forall c | c in SetOf(cs[..n])
      ensures c !in SetOf(cs[n..])
    {
      var i :| 0 <= i < n && cs[i] == c;
    }
  }

  /** The table after a truncation: `last` ends the chain, `tail` is free, nothing else changed. */
  ghost predicate Truncated(fat: seq<nat>, fat': seq<nat>, last: nat, tail: set<nat>) {
    && |fat'| == |fat|
    && forall c :: 0 <= c < |fat| ==>
         fat'[c] == if c in tail then 0 else if c == last then END_OF_CHAIN else fat[c]
  }

  lemma TruncatedChain(fat: seq<nat>, fat': seq<nat>, cs: seq<nat>, n: nat)
    requires IsChain(fat, cs) && 0 < n <= |cs| && Truncated(fat, fat', cs[n - 1], SetOf(cs[n..]))
    ensures IsChain(fat', cs[..n])
  {
    SplitSets(cs, n);
    forall i | 0 <= i < n
      ensures cs[i] !in SetOf(cs[n..])
    {
      assert cs[..n][i] in SetOf(cs[..n]);
    }
    CutChain(fat, fat', cs, n);
  }

  /** A truncation returns exactly the clusters past the cut. */
  lemma TruncatedFree(fat: seq<nat>, fat': seq<nat>, last: nat, tail: set<nat>)
    requires Truncated(fat, fat', last, tail) && tail !! FreeSet(fat)
    requires last !in tail && last !in FreeSet(fat)
    requires forall c :: c in tail ==> 2 <= c < |fat|
    ensures FreeSet(fat') == FreeSet(fat) + tail
    ensures |FreeSet(fat')| == |FreeSet(fat)| + |tail|
  {
    UnionSize(FreeSet(fat), tail);
  }

  /**
   * The chain `cs` became `cs'` of `needed` clusters: the common part kept in order, clusters beyond
   * it taken from or returned to the free ones, and the number of free clusters conserved.
   */
  ghost predicate ResizedChain(fat: seq<nat>, fat': seq<nat>, cs: seq<nat>, cs': seq<nat>, needed: nat) {
    var k := Min(|cs|, needed);
    && |cs'| == needed && IsChain(fat', cs') && cs'[..k] == cs[..k]
    && SetOf(cs'[k..]) <= FreeSet(fat)
    && FreeSet(fat') == FreeSet(fat) - SetOf(cs'[k..]) + SetOf(cs[k..])
    && |FreeSet(fat')| + needed == |FreeSet(fat)| + |cs|
  }

  /** After some work on the table `cs` has become `cs'`: it leads, and free clusters may follow. */
  ghost predicate StillChain(fat: seq<nat>, fat': seq<nat>, cs: seq<nat>, cs': seq<nat>) {
    && |cs| > 0 && IsChain(fat', cs') && cs <= cs' && cs'[0] == cs[0]
    && SetOf(cs') <= FreeSet(fat) + SetOf(cs)
  }

  /** A chain survives anything done to free clusters, and a new end mark. */
  lemma StaysChain(fat: seq<nat>, fat': seq<nat>, cs: seq<nat>)
    requires IsChain(fat, cs) && |fat'| == |fat|
    requires forall c :: 0 <= c < |fat| && c !in FreeSet(fat) && c != cs[|cs| - 1] ==> fat'[c] == fat[c]
    requires fat'[cs[|cs| - 1]] >= END_OF_CHAIN
    ensures StillChain(fat, fat', cs, cs)
  {
    ChainNotFree(fat, cs);
    forall c | c in cs
      ensures c !in FreeSet(fat)
    {
      assert c in SetOf(cs);
    }
  }

  lemma TruncatedCount(fat: seq<nat>, fat': seq<nat>, cs: seq<nat>, n: nat)
    requires IsChain(fat, cs) && 0 < n <= |cs| && Truncated(fat, fat', cs[n - 1], SetOf(cs[n..]))
    ensures FreeSet(fat') == FreeSet(fat) + SetOf(cs[n..])
    ensures |FreeSet(fat')| + n == |FreeSet(fat)| + |cs|
  {
    SplitSets(cs, n);
    ChainNotFree(fat, cs);
    assert cs[n - 1] in SetOf(cs);
    assert cs[..n][n - 1] in SetOf(cs[..n]);
    TruncatedFree(fat, fat', cs[n - 1], SetOf(cs[n..]));
  }

  lemma TruncatedResized(fat: seq<nat>, fat': seq<nat>, cs: seq<nat>, n: nat)
    requires IsChain(fat, cs) && 0 < n <= |cs| && Truncated(fat, fat', cs[n - 1], SetOf(cs[n..]))
    ensures ResizedChain(fat, fat', cs, cs[..n], n)
  {
    hide IsChain, Truncated, FreeSet, Distinct;
    TruncatedChain(fat, fat', cs, n);
    TruncatedCount(fat, fat', cs, n);
    var keep := cs[..n];
    assert keep[..n] == keep && keep[n..] == [] && SetOf([]) == {};
  }

  lemma FreeApart(fat: seq<nat>, cs: seq<nat>, more: seq<nat>)
    requires IsChain(fat, cs) && SetOf(more) <= FreeSet(fat)
    ensures Apart(cs, more) && forall c :: c in cs ==> c !in SetOf(more)
  {
    ChainNotFree(fat, cs);
    forall c | c in cs
      ensures c !in more && c !in SetOf(more)
    {
      assert c in SetOf(cs);
      assert c !in SetOf(more);
    }
  }

  /** A chain of taken clusters `more` linked onto the end of `cs`. */
  lemma GrownResized(fat: seq<nat>, fat1: seq<nat>, fat': seq<nat>, cs: seq<nat>, more: seq<nat>)
    requires IsChain(fat, cs) && more != [] && IsChain(fat1, more) && SetOf(more) <= FreeSet(fat)
    requires |fat1| == |fat| && FreeSet(fat1) == FreeSet(fat) - SetOf(more)
    requires forall c :: 0 <= c < |fat| && c !in SetOf(more) ==> fat1[c] == fat[c]
    requires fat' == fat1[cs[|cs| - 1] := more[0]]
    ensures ResizedChain(fat, fat', cs, cs + more, |cs| + |more|)
  {
    hide IsChain, FreeSet, Distinct, Apart;
    FreeApart(fat, cs, more);
    ChainKept(fat, fat1, cs);
    JoinChains(fat1, cs, more);
    GrownFree(fat, fat1, fat', cs, more);
    var all := cs + more;
    assert all[..|cs|] == cs && all[|cs|..] == more && cs[..|cs|] == cs && cs[|cs|..] == [] && SetOf([]) == {};
  }

  lemma GrownFree(fat: seq<nat>, fat1: seq<nat>, fat': seq<nat>, cs: seq<nat>, more: seq<nat>)
    requires IsChain(fat, cs) && IsChain(fat1, cs) && IsChain(fat1, more) && SetOf(more) <= FreeSet(fat)
    requires |fat1| == |fat| && FreeSet(fat1) == FreeSet(fat) - SetOf(more)
    requires fat' == fat1[cs[|cs| - 1] := more[0]]
    ensures FreeSet(fat') == FreeSet(fat1)
    ensures |FreeSet(fat')| + |more| == |FreeSet(fat)|
  {
    assert cs[|cs| - 1] in SetOf(cs);
    ChainNotFree(fat1, cs);
    DistinctSize(more);
    UnionSize(FreeSet(fat1), SetOf(more));
    assert FreeSet(fat) == FreeSet(fat1) + SetOf(more);
  }

  /** A resized chain is made of clusters it had and clusters that were free. */
  lemma ResizedSources(fat: seq<nat>, fat': seq<nat>, cs: seq<nat>, cs': seq<nat>, needed: nat)
    requires ResizedChain(fat, fat', cs, cs', needed)
    ensures IsChain(fat', cs') && SetOf(cs') <= FreeSet(fat) + SetOf(cs)
  {
    hide IsChain, FreeSet, Distinct;
    var k := Min(|cs|, needed);
    assert cs' == cs'[..k] + cs'[k..] && cs == cs[..k] + cs[k..];
    JoinSets(cs'[..k], cs'[k..]);
    JoinSets(cs[..k], cs[k..]);
  }
}
