/** What a sweep and a cascade guarantee, for every index, policy and result. */
module GcTheorems {
  import opened CacheIndexes
  import opened Graphs
  import opened GcSpec

  // ----- cascade -----

  /** The two traversals agree: the backward search from the targets finds `h` exactly when the
      mark phase started at `h` marks some target. */
  lemma TraversalsAgree(entries: Entries, targets: set<string>, h: string)
    ensures h in Closure(Transposed(RefGraph(entries)), targets) <==>
            Closure(RefGraph(entries), {h}) * targets != {}
  {
    var g := RefGraph(entries);
    var back, forth := Closure(Transposed(g), targets), Closure(g, {h});
    if h in back {
      var t :| t in targets && Reaches(Transposed(g), t, h);
      BackwardIsForward(g, h, t);
      EndsInGraph(g, h, t);
      assert t in forth * targets;
    }
    if forth * targets != {} {
      var t :| t in forth * targets;
      assert Reaches(g, h, t);
      BackwardIsForward(g, h, t);
      EndsInGraph(g, h, t);
    }
  }

  lemma EndsInGraph(g: Graph, a: string, b: string)
    requires Reaches(g, a, b)
    ensures a in g && b in g
  {
    var p :| IsPathBetween(g, p, a, b);
  }

  ghost predicate ReferenceClosed(entries: Entries) {
    forall h | h in entries :: RefHashes(entries[h].references) <= entries.Keys
  }

  lemma EvictedClosedBackwards(ix: Snapshot, targets: set<string>, h: string, e: string)
    requires h in ix.entries && e in RefHashes(ix.entries[h].references)
    requires e in Closure(Transposed(RefGraph(ix.entries)), targets)
    ensures h in Closure(Transposed(RefGraph(ix.entries)), targets)
  {
    ClosureStep(Transposed(RefGraph(ix.entries)), targets, e, h);
  }

  lemma AppliedKeys(ix: Snapshot, r: Result)
    ensures Applied(ix, r).entries.Keys == ix.entries.Keys - Elems(r.evictedKeys)
    ensures Applied(ix, r).roots.Keys == ix.roots.Keys - Elems(r.expiredRoots)
  {
  }

  /** No surviving entry refers to an evicted one, no surviving root names a target or an evicted
      entry, and an index without missing references stays that way. */
  lemma CascadeLeavesNothingDangling(ix: Snapshot, targets: set<string>, r: Result)
    requires IsCascade(ix, targets, r)
    ensures forall h | h in Applied(ix, r).entries ::
      RefHashes(Applied(ix, r).entries[h].references) !! Elems(r.evictedKeys)
    ensures Applied(ix, r).roots.Keys !! Elems(r.evictedKeys) + targets
    ensures Applied(ix, r).entries.Keys !! targets
    ensures ReferenceClosed(ix.entries) ==> ReferenceClosed(Applied(ix, r).entries)
  {
    var after, evicted := Applied(ix, r), Elems(r.evictedKeys);
    AppliedKeys(ix, r);
    forall h, e | h in after.entries && e in RefHashes(after.entries[h].references) ensures e !in evicted {
      if e in evicted {
        EvictedClosedBackwards(ix, targets, h, e);
      }
    }
    forall k | k in after.entries ensures k !in targets {
      if k in targets {
        ClosureContainsStart(Transposed(RefGraph(ix.entries)), targets, k);
      }
    }
  }

  // ----- sweep: safety and conservation -----

  lemma RetainedRoots(ix: Snapshot, pol: Policy, r: Result)
    requires IsSweep(ix, pol, r)
    ensures ActiveRoots(Applied(ix, r), pol.now) == ActiveRoots(ix, pol.now) == Applied(ix, r).roots.Keys
  {
    var kept, order :| IsSweepWith(ix, pol, r, kept, order);
    var after := Applied(ix, r);
    forall k ensures k in after.roots <==> k in ActiveRoots(ix, pol.now) {
      assert k in Elems(r.expiredRoots) <==> k in ix.roots.Keys - ActiveRoots(ix, pol.now);
    }
  }

  lemma EvictedIsUnprotected(ix: Snapshot, pol: Policy, r: Result, kept: set<string>, order: seq<string>)
    requires IsSweepWith(ix, pol, r, kept, order)
    ensures Elems(r.evictedKeys) <= Unprotected(ix, pol) - kept
  {
    forall k | k in r.evictedKeys ensures k in Unprotected(ix, pol) - kept {
      assert k in order;
      assert k in Elems(order);
    }
  }

  lemma LiveIsUnchanged(ix: Snapshot, pol: Policy, r: Result)
    requires IsSweep(ix, pol, r)
    ensures Live(Applied(ix, r), pol.now) == Live(ix, pol.now)
  {
    var kept, order :| IsSweepWith(ix, pol, r, kept, order);
    EvictedIsUnprotected(ix, pol, r, kept, order);
    RetainedRoots(ix, pol, r);
    var after := Applied(ix, r);
    assert Live(ix, pol.now) <= after.entries.Keys by {
      assert Live(ix, pol.now) !! Unprotected(ix, pol);
    }
    ClosureOfSubgraph(RefGraph(ix.entries), RefGraph(after.entries), ActiveRoots(ix, pol.now));
  }

  /** Nothing an unexpired root reaches and nothing in its grace period is evicted; what the roots
      reach afterwards is what they reached before, and it refers to no evicted entry. */
  lemma SweepIsSafe(ix: Snapshot, pol: Policy, r: Result)
    requires IsSweep(ix, pol, r)
    ensures Elems(r.evictedKeys) !! Live(ix, pol.now) + InGracePeriod(ix.entries, pol)
    ensures Live(Applied(ix, r), pol.now) == Live(ix, pol.now)
    ensures forall h | h in Live(ix, pol.now) :: RefHashes(ix.entries[h].references) !! Elems(r.evictedKeys)
  {
    var kept, order :| IsSweepWith(ix, pol, r, kept, order);
    EvictedIsUnprotected(ix, pol, r, kept, order);
    LiveIsUnchanged(ix, pol, r);
    var g, live := RefGraph(ix.entries), Live(ix, pol.now);
    ClosureIsClosed(g, ActiveRoots(ix, pol.now));
    forall h, e | h in live && e in RefHashes(ix.entries[h].references) ensures e !in r.evictedKeys {
      assert e in g[h];
      assert e in g ==> e in live;
    }
  }

  /** Bytes and entries are conserved: what is retained is exactly what the index holds after the
      result is applied, and with what is evicted it makes up the whole. */
  lemma NothingLost(ix: Snapshot, r: Result)
    requires AccountsFor(ix.entries, r)
    ensures var after := Applied(ix, r);
      && r.retainedSize == SumSizes(after.entries, after.entries.Keys)
      && r.retainedCount == |after.entries|
      && r.retainedSize + r.evictedSize == r.originalSize
      && r.retainedCount + r.evictedCount == r.originalCount
  {
    var after, evicted := Applied(ix, r), Elems(r.evictedKeys);
    AppliedKeys(ix, r);
    SumAgrees(ix.entries, after.entries, ix.entries.Keys - evicted);
    SumAndCountSplit(ix.entries, evicted);
    ElemsCount(r.evictedKeys);
    assert |after.entries| == |after.entries.Keys|;
  }

  // ----- sweep: quota -----

  /** With a limit, either the limit is met or everything outside the protected entries and the
      kept versions is gone. */
  lemma SweepMeetsQuota(ix: Snapshot, pol: Policy, r: Result)
    requires IsSweep(ix, pol, r) && pol.maxSize > 0
    ensures r.retainedSize <= pol.maxSize
            || exists kept :: IsKept(ix.entries, pol, Unprotected(ix, pol), kept)
                              && Elems(r.evictedKeys) == Unprotected(ix, pol) - kept
  {
    var kept, order :| IsSweepWith(ix, pol, r, kept, order);
    if r.retainedSize > pol.maxSize {
      EverythingTaken(ix, pol, r, kept, order);
    }
  }

  /** No more is evicted than needed: putting back the last evicted entry would exceed the limit. */
  lemma SweepEvictsNoMore(ix: Snapshot, pol: Policy, r: Result)
    requires IsSweep(ix, pol, r) && pol.maxSize > 0 && r.evictedKeys != []
    ensures r.evictedKeys[|r.evictedKeys| - 1] in ix.entries
    ensures r.retainedSize + ix.entries[r.evictedKeys[|r.evictedKeys| - 1]].narSize > pol.maxSize
  {
    var kept, order :| IsSweepWith(ix, pol, r, kept, order);
    NothingLost(ix, r);
    LastEvictedNeeded(ix.entries, r.evictedKeys, order, r.originalSize, pol.maxSize);
  }

  lemma LastEvictedNeeded(entries: Entries, evicted: seq<string>, order: seq<string>, total: int, maxSize: int)
    requires NoDups(order) && Elems(order) <= entries.Keys && evicted != []
    requires maxSize > 0 && IsShrink(entries, order, total, maxSize, |evicted|) && evicted == order[..|evicted|]
    ensures var last := evicted[|evicted| - 1];
      last in entries && total - SumSizes(entries, Elems(evicted)) + entries[last].narSize > maxSize
  {
    var front, last := order[..|evicted| - 1], order[|evicted| - 1];
    assert evicted == front + [last];
    ElemsAppend(front, last);
    assert last in Elems(order);
    SumPlus(entries, Elems(front), last);
  }

  lemma ShrinkMinimal(entries: Entries, order: seq<string>, total: int, small: int, large: int, n: nat, m: nat)
    requires Elems(order) <= entries.Keys && 0 < small <= large
    requires IsShrink(entries, order, total, small, n) && IsShrink(entries, order, total, large, m)
    ensures m <= n
  {
    assert n < |order| ==> total - SumSizes(entries, Elems(order[..n])) <= large;
  }

  /** For one order of eviction a larger limit evicts a prefix of what a smaller one evicts; in
      particular the limit determines what is evicted. */
  lemma LargerQuotaEvictsPrefix(entries: Entries, order: seq<string>, total: int, small: int, large: int, n: nat,
                                m: nat)
    requires Elems(order) <= entries.Keys && 0 < small <= large
    requires IsShrink(entries, order, total, small, n) && IsShrink(entries, order, total, large, m)
    ensures order[..m] <= order[..n]
    ensures small == large ==> m == n
  {
    ShrinkMinimal(entries, order, total, small, large, n, m);
    assert order[..m] == order[..n][..m];
    if small == large {
      ShrinkMinimal(entries, order, total, large, small, m, n);
    }
  }

  // ----- sweep: idempotence -----

  ghost predicate HasOversizedGroup(ix: Snapshot, pol: Policy) {
    exists base :: |VersionGroup(ix.entries, pol, Unprotected(ix, pol), base)| > pol.keepVersions
  }

  lemma KeptIsEmptyIff(ix: Snapshot, pol: Policy, kept: set<string>)
    requires IsKept(ix.entries, pol, Unprotected(ix, pol), kept)
    ensures kept == {} <==> pol.keepVersions <= 0 || !HasOversizedGroup(ix, pol)
  {
    var unmarked := Unprotected(ix, pol);
    if pol.keepVersions <= 0 || !HasOversizedGroup(ix, pol) {
      forall k | k in unmarked ensures k !in kept {
        var versions := VersionGroup(ix.entries, pol, unmarked, pol.basePackageName(ix.entries[k].name));
        assert KeepsNewest(ix.entries, pol.keepVersions, versions, kept);
        assert k in versions && versions * kept == {};
        assert k in kept ==> k in versions * kept;
      }
    } else {
      var base :| |VersionGroup(ix.entries, pol, unmarked, base)| > pol.keepVersions;
      var versions := VersionGroup(ix.entries, pol, unmarked, base);
      assert KeepsNewest(ix.entries, pol.keepVersions, versions, kept);
      assert |versions * kept| > 0;
    }
  }

  lemma UnprotectedAfter(ix: Snapshot, pol: Policy, r: Result)
    requires IsSweep(ix, pol, r)
    ensures Unprotected(Applied(ix, r), pol) == Unprotected(ix, pol) - Elems(r.evictedKeys)
  {
    LiveIsUnchanged(ix, pol, r);
    SweepIsSafe(ix, pol, r);
    var after := Applied(ix, r);
    assert after.entries.Keys == ix.entries.Keys - Elems(r.evictedKeys);
    assert InGracePeriod(after.entries, pol) == InGracePeriod(ix.entries, pol);
  }

  /** A sweep that could not meet the limit, or had none, took everything but the protected entries
      and the kept versions. */
  lemma EverythingTaken(ix: Snapshot, pol: Policy, r: Result, kept: set<string>, order: seq<string>)
    requires IsSweepWith(ix, pol, r, kept, order)
    requires pol.maxSize <= 0 || r.retainedSize > pol.maxSize
    ensures Elems(r.evictedKeys) == Unprotected(ix, pol) - kept
  {
    NothingLost(ix, r);
    assert order[..|order|] == order;
  }

  lemma KeptWithinLimit(entries: Entries, pol: Policy, unmarked: set<string>, kept: set<string>, after: Entries,
                        base: string)
    requires unmarked <= entries.Keys && IsKept(entries, pol, unmarked, kept) && kept <= after.Keys
    requires forall h | h in after :: h in entries && after[h] == entries[h]
    ensures |VersionGroup(after, pol, kept, base)| <= pol.keepVersions || pol.keepVersions <= 0
  {
    var versions := VersionGroup(entries, pol, unmarked, base);
    assert KeepsNewest(entries, pol.keepVersions, versions, kept);
    assert VersionGroup(after, pol, kept, base) == versions * kept;
  }

  /** The kept versions fill no group beyond the limit, so a second sweep keeps none of them. */
  lemma NoneKeptTwice(ix: Snapshot, pol: Policy, kept: set<string>, after: Snapshot, kept': set<string>)
    requires IsKept(ix.entries, pol, Unprotected(ix, pol), kept)
    requires forall h | h in after.entries :: h in ix.entries && after.entries[h] == ix.entries[h]
    requires Unprotected(after, pol) == kept
    requires IsKept(after.entries, pol, Unprotected(after, pol), kept')
    ensures kept' == {}
  {
    forall base ensures |VersionGroup(after.entries, pol, kept, base)| <= pol.keepVersions || pol.keepVersions <= 0 {
      KeptWithinLimit(ix.entries, pol, Unprotected(ix, pol), kept, after.entries, base);
    }
    KeptIsEmptyIff(after, pol, kept');
  }

  lemma SecondSweepEvicts(after: Snapshot, pol: Policy, r': Result, kept': set<string>, order': seq<string>)
    requires IsSweepWith(after, pol, r', kept', order')
    ensures r'.evictedKeys == [] <==>
            (pol.maxSize > 0 && SumSizes(after.entries, after.entries.Keys) <= pol.maxSize)
            || Unprotected(after, pol) - kept' == {}
  {
    var total := SumSizes(after.entries, after.entries.Keys);
    assert order'[..0] == [] && Elems([]) == {};
    assert SumSizes(after.entries, Elems(order'[..0])) == 0;
    assert Elems(order') == {} <==> order' == [] by {
      if order' != [] {
        assert order'[0] in Elems(order');
      }
    }
  }

  /** Some entry of every group goes: a group within the limit as a whole, and of a larger one all but as
      many as the limit. */
  lemma SomethingNotKept(ix: Snapshot, pol: Policy, kept: set<string>)
    requires IsKept(ix.entries, pol, Unprotected(ix, pol), kept)
    ensures Unprotected(ix, pol) - kept == {} <==> Unprotected(ix, pol) == {}
  {
    var unmarked := Unprotected(ix, pol);
    if unmarked != {} {
      var h :| h in unmarked;
      var versions := VersionGroup(ix.entries, pol, unmarked, pol.basePackageName(ix.entries[h].name));
      assert h in versions && KeepsNewest(ix.entries, pol.keepVersions, versions, kept);
      assert versions * kept != versions;
      var k :| k in versions && k !in kept;
      assert k in unmarked - kept;
    }
  }

  /** A sweep evicts nothing exactly when nothing is unprotected or the index is within the limit as it is. */
  lemma SweepEvictsNothingIff(ix: Snapshot, pol: Policy, r: Result)
    requires IsSweep(ix, pol, r)
    ensures r.evictedKeys == [] <==>
            Unprotected(ix, pol) == {} || (pol.maxSize > 0 && SumSizes(ix.entries, ix.entries.Keys) <= pol.maxSize)
  {
    var kept, order :| IsSweepWith(ix, pol, r, kept, order);
    SecondSweepEvicts(ix, pol, r, kept, order);
    SomethingNotKept(ix, pol, kept);
  }

  /** With no roots, no size limit and no versions to keep, whatever is past the grace period goes. */
  lemma UnrootedIsEvicted(ix: Snapshot, pol: Policy, r: Result, h: string)
    requires IsSweep(ix, pol, r) && ix.roots == map[] && pol.maxSize <= 0 && pol.keepVersions <= 0
    requires h in ix.entries && pol.now - ix.entries[h].uploadedAt >= pol.gracePeriod
    ensures h in r.evictedKeys
  {
    var kept, order :| IsSweepWith(ix, pol, r, kept, order);
    ClosureIsLeast(RefGraph(ix.entries), ActiveRoots(ix, pol.now), {});
    KeptIsEmptyIff(ix, pol, kept);
    EverythingTaken(ix, pol, r, kept, order);
    assert h in Elems(r.evictedKeys);
  }

  /** A cascade evicts nothing exactly when none of the targets has an entry. */
  lemma CascadeEvictsNothingIff(ix: Snapshot, targets: set<string>, r: Result)
    requires IsCascade(ix, targets, r)
    ensures r.evictedKeys == [] <==> targets !! ix.entries.Keys
  {
    var g := Transposed(RefGraph(ix.entries));
    if targets !! ix.entries.Keys {
      ClosureIsLeast(g, targets, {});
    } else {
      var t :| t in targets && t in ix.entries;
      ClosureContainsStart(g, targets, t);
    }
    EmptyElems(r.evictedKeys);
  }

  /** Sweeping twice with the same clock, limit and policy: the second sweep evicts nothing exactly
      when versions are not limited, or the first sweep met its byte limit, or no package had more
      unprotected versions than the limit. */
  lemma SweepIdempotentIff(ix: Snapshot, pol: Policy, r: Result, r': Result)
    requires IsSweep(ix, pol, r) && IsSweep(Applied(ix, r), pol, r')
    ensures r'.evictedKeys == [] <==>
            || pol.keepVersions <= 0
            || (pol.maxSize > 0 && r.retainedSize <= pol.maxSize)
            || !HasOversizedGroup(ix, pol)
  {
    var kept, order :| IsSweepWith(ix, pol, r, kept, order);
    var after := Applied(ix, r);
    var kept', order' :| IsSweepWith(after, pol, r', kept', order');
    NothingLost(ix, r);
    SecondSweepEvicts(after, pol, r', kept', order');
    if !(pol.maxSize > 0 && r.retainedSize <= pol.maxSize) {
      OnlyKeptLeft(ix, pol, r, kept, order);
      NoneKeptTwice(ix, pol, kept, after, kept');
      KeptIsEmptyIff(ix, pol, kept);
    }
  }

  lemma OnlyKeptLeft(ix: Snapshot, pol: Policy, r: Result, kept: set<string>, order: seq<string>)
    requires IsSweepWith(ix, pol, r, kept, order)
    requires pol.maxSize <= 0 || r.retainedSize > pol.maxSize
    ensures Unprotected(Applied(ix, r), pol) == kept
  {
    EverythingTaken(ix, pol, r, kept, order);
    UnprotectedAfter(ix, pol, r);
  }

  // ----- a sweep that is not idempotent -----

  /** Two versions of one package, under any two hashes. */
  function TwoVersions(older: string, newer: string): Snapshot {
    Snapshot(map[older := IndexItem("pkg", "", "", 1, 1, 1, 1, []),
                 newer := IndexItem("pkg", "", "", 1, 2, 2, 2, [])], map[])
  }

  function KeepOne(): Policy {
    Policy(10, 0, 0, 1, name => name)
  }

  lemma TwoVersionsUnprotected(older: string, newer: string)
    ensures Unprotected(TwoVersions(older, newer), KeepOne()) == {older, newer}
  {
    var ix, pol := TwoVersions(older, newer), KeepOne();
    assert ActiveRoots(ix, pol.now) == {};
    assert Live(ix, pol.now) == {};
    assert InGracePeriod(ix.entries, pol) == {};
    assert ix.entries.Keys == {older, newer};
  }

  lemma TwoVersionsOversized(older: string, newer: string)
    requires older != newer
    ensures HasOversizedGroup(TwoVersions(older, newer), KeepOne())
  {
    TwoVersionsUnprotected(older, newer);
    var versions := VersionGroup(TwoVersions(older, newer).entries, KeepOne(), {older, newer}, "pkg");
    assert versions == {older, newer};
    assert |versions| == 2;
  }

  /** Two versions of one package, a limit of one version and no byte limit: every first sweep keeps
      one of them and every second sweep then evicts it. */
  lemma KeptVersionGoesNextTime(older: string, newer: string, r: Result, r': Result)
    requires older != newer
    requires IsSweep(TwoVersions(older, newer), KeepOne(), r)
    requires IsSweep(Applied(TwoVersions(older, newer), r), KeepOne(), r')
    ensures r'.evictedKeys != []
  {
    TwoVersionsOversized(older, newer);
    SweepIdempotentIff(TwoVersions(older, newer), KeepOne(), r, r');
  }
}
