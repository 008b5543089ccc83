/** The garbage collector's mark phase, quota shrink, cascade and commit. */
module GcEngine {
  import opened StorePaths
  import opened CacheIndexes
  import opened Graphs
  import opened GcSpec

  /** Between two turns of the mark loop: what is marked was reachable, and whatever has not been
      followed yet from a marked node is pending. */
  ghost predicate PartlyMarked(g: Graph, roots: set<string>, before: set<string>, bound: set<string>,
                               marked: set<string>, pending: set<string>) {
    && marked <= before + bound
    && pending * g.Keys <= bound
    && roots * g.Keys <= marked + pending
    && forall a | a in marked && a in g :: g[a] * g.Keys <= marked + pending
  }

  lemma MarkOne(g: Graph, roots: set<string>, before: set<string>, bound: set<string>, marked: set<string>,
                pending: set<string>,
                curr: string, pending': set<string>)
    requires ClosedUnderEdges(g, bound)
    requires PartlyMarked(g, roots, before, bound, marked, pending + {curr})
    requires curr in g
    requires pending <= pending' <= pending + g[curr]
    requires g[curr] <= marked + {curr} + pending'
    ensures PartlyMarked(g, roots, before, bound, marked + {curr}, pending')
  {
    assert curr in (pending + {curr}) * g.Keys;
    forall b | b in pending' * g.Keys ensures b in bound {
      if b in pending {
        assert b in (pending + {curr}) * g.Keys;
      }
    }
    forall a | a in marked + {curr} && a in g ensures g[a] * g.Keys <= marked + {curr} + pending' {
    }
  }

  // ----- sorting -----

  /** A sorted permutation; which one, among elements of equal rank, is left open. */
  method SortByRank(items: seq<string>, rank: string -> int) returns (sorted: seq<string>)
    ensures multiset(sorted) == multiset(items)
    ensures RankedBy(sorted, rank)
  {
    sorted := [];
    for k := 0 to |items|
      invariant multiset(sorted) == multiset(items[..k])
      invariant RankedBy(sorted, rank)
    {
      assert items[..k + 1] == items[..k] + [items[k]];
      InsertRanked(sorted, items[k], rank);
      sorted := Insert(sorted, items[k], rank);
    }
    assert items[..|items|] == items;
  }

  ghost predicate RankedBy(s: seq<string>, rank: string -> int) {
    forall i, j | 0 <= i < j < |s| :: rank(s[i]) <= rank(s[j])
  }

  function Insert(sorted: seq<string>, item: string, rank: string -> int): (sorted': seq<string>)
    ensures multiset(sorted') == multiset(sorted) + multiset{item}
    ensures forall x | x in sorted' :: x == item || x in sorted
  {
    if sorted == [] || rank(item) <= rank(sorted[0]) then [item] + sorted
    else
      assert sorted == [sorted[0]] + sorted[1..];
      [sorted[0]] + Insert(sorted[1..], item, rank)
  }

  lemma {:induction false} InsertRanked(sorted: seq<string>, item: string, rank: string -> int)
    requires RankedBy(sorted, rank)
    ensures RankedBy(Insert(sorted, item, rank), rank)
  {
    if sorted != [] && rank(item) > rank(sorted[0]) {
      var rest := Insert(sorted[1..], item, rank);
      InsertRanked(sorted[1..], item, rank);
      forall j | 0 <= j < |rest| ensures rank(sorted[0]) <= rank(rest[j]) {
        assert rest[j] in rest;
      }
    }
  }

  lemma {:induction false} NoDupsIsOnce(s: seq<string>)
    ensures NoDups(s) <==> forall x | x in multiset(s) :: multiset(s)[x] == 1
  {
    if s != [] {
      var rest, last := s[..|s| - 1], s[|s| - 1];
      assert s == rest + [last];
      NoDupsIsOnce(rest);
      if NoDups(s) {
        assert last !in rest;
        assert last !in multiset(rest);
      } else if NoDups(rest) {
        assert last in rest;
        assert multiset(s)[last] >= 2;
      } else {
        var x :| x in multiset(rest) && multiset(rest)[x] != 1;
        assert multiset(s)[x] >= 2;
      }
    }
  }

  lemma SortedElems(s: seq<string>, t: seq<string>)
    requires multiset(s) == multiset(t) && NoDups(s)
    ensures NoDups(t) && Elems(t) == Elems(s) && |t| == |s|
  {
    NoDupsIsOnce(s);
    NoDupsIsOnce(t);
    assert |multiset(s)| == |s| && |multiset(t)| == |t|;
    forall x ensures x in s <==> x in t {
      assert x in s <==> x in multiset(s);
      assert x in t <==> x in multiset(t);
    }
  }

  lemma NewestKept(entries: Entries, n: nat, versions: set<string>, newest: set<string>, kept: set<string>)
    requires newest <= versions <= entries.Keys && |newest| == n < |versions| && versions * kept == {}
    requires forall a, b | a in newest && b in versions - newest :: entries[a].uploadedAt >= entries[b].uploadedAt
    ensures KeepsNewest(entries, n, versions, kept + newest)
  {
    forall x | x in versions ensures x !in kept {
      assert x in kept ==> x in versions * kept;
    }
    assert versions * (kept + newest) == newest;
    assert versions - (kept + newest) == versions - newest;
  }

  lemma FrontIsNewest(entries: Entries, order: seq<string>, n: nat, rank: string -> int)
    requires n <= |order| && NoDups(order) && RankedBy(order, rank)
    requires Elems(order) <= entries.Keys && forall h | h in entries :: rank(h) == -entries[h].uploadedAt
    ensures NoDups(order[..n]) && |Elems(order[..n])| == n && Elems(order[..n]) <= Elems(order)
    ensures forall a, b | a in Elems(order[..n]) && b in Elems(order) - Elems(order[..n]) ::
              entries[a].uploadedAt >= entries[b].uploadedAt
  {
    ElemsCount(order[..n]);
    PartsOfOrder(order, n);
    forall a, b | a in Elems(order[..n]) && b in Elems(order) - Elems(order[..n])
      ensures entries[a].uploadedAt >= entries[b].uploadedAt
    {
      FrontRanksFirst(order, n, rank, a, b);
    }
  }

  lemma FrontRanksFirst(order: seq<string>, n: nat, rank: string -> int, a: string, b: string)
    requires n <= |order| && RankedBy(order, rank) && a in order[..n] && b in order && b !in order[..n]
    ensures rank(a) <= rank(b)
  {
    forall k | 0 <= k < n ensures order[k] in order[..n] {
      assert order[..n][k] == order[k];
    }
    var i :| 0 <= i < n && order[i] == a;
    var j :| 0 <= j < |order| && order[j] == b;
    assert n <= j;
  }

  lemma PartsOfOrder(order: seq<string>, n: nat)
    requires n <= |order| && NoDups(order)
    ensures Elems(order[..n]) + Elems(order[n..]) == Elems(order) && Elems(order[..n]) !! Elems(order[n..])
  {
    assert order == order[..n] + order[n..];
  }

  /** The packages in `todo` still have nothing kept, the others are settled. */
  ghost predicate KeptSoFar(entries: Entries, pol: Policy, unmarked: set<string>, kept: set<string>, todo: set<string>)
    requires unmarked <= entries.Keys
  {
    && kept <= unmarked
    && (forall base | base in todo :: VersionGroup(entries, pol, unmarked, base) * kept == {})
    && (forall base | base !in todo :: KeepsNewest(entries, pol.keepVersions,
      VersionGroup(entries, pol, unmarked, base), kept))
  }

  lemma OtherGroupKept(entries: Entries, pol: Policy, unmarked: set<string>, base: string, other: string,
                       kept: set<string>, chosen: set<string>)
    requires unmarked <= entries.Keys && other != base
    requires chosen <= VersionGroup(entries, pol, unmarked, base)
    ensures VersionGroup(entries, pol, unmarked, other) * (kept + chosen) ==
      VersionGroup(entries, pol, unmarked, other) * kept
    ensures VersionGroup(entries, pol, unmarked, other) - (kept + chosen) ==
      VersionGroup(entries, pol, unmarked, other) - kept
  {
  }

  lemma GroupSettled(entries: Entries, pol: Policy, unmarked: set<string>, base: string, kept: set<string>,
                     chosen: set<string>, todo: set<string>)
    requires unmarked <= entries.Keys
    requires KeptSoFar(entries, pol, unmarked, kept, todo) && base in todo
    requires chosen <= VersionGroup(entries, pol, unmarked, base)
    requires KeepsNewest(entries, pol.keepVersions, VersionGroup(entries, pol, unmarked, base), kept + chosen)
    ensures KeptSoFar(entries, pol, unmarked, kept + chosen, todo - {base})
  {
    forall other | other != base
      ensures other in todo ==> VersionGroup(entries, pol, unmarked, other) * (kept + chosen) == {}
      ensures other !in todo ==> KeepsNewest(entries, pol.keepVersions, VersionGroup(entries, pol, unmarked, other),
        kept + chosen)
    {
      OtherGroupKept(entries, pol, unmarked, base, other, kept, chosen);
    }
  }

  lemma SweepAccounts(entries: Entries, order: seq<string>, r: Result)
    requires NoDups(order) && Elems(order) <= entries.Keys
    requires |r.evictedKeys| <= |order| && r.evictedKeys == order[..|r.evictedKeys|]
    requires r.originalCount == |entries| && r.originalSize == SumSizes(entries, entries.Keys)
    requires r.evictedCount == |r.evictedKeys| && r.retainedCount == |entries| - |r.evictedKeys|
    requires r.evictedSize == SumSizes(entries, Elems(r.evictedKeys))
    requires r.retainedSize == SumSizes(entries, entries.Keys - Elems(r.evictedKeys))
    ensures AccountsFor(entries, r)
  {
    PartsOfOrder(order, |r.evictedKeys|);
    CountsAdd(entries, order, r.evictedKeys);
  }

  lemma CountsAdd(entries: Entries, order: seq<string>, evicted: seq<string>)
    requires NoDups(order) && Elems(order) <= entries.Keys
    requires |evicted| <= |order| && evicted == order[..|evicted|]
    ensures NoDups(evicted) && |entries| - |evicted| == |entries.Keys - Elems(evicted)|
  {
    ElemsCount(evicted);
    assert entries.Keys == (entries.Keys - Elems(evicted)) + Elems(evicted);
    assert |entries| == |entries.Keys|;
  }

  /** After looking at `i` candidates, the first `n` were evicted and the others retained. */
  ghost predicate ShrunkBy(entries: Entries, order: seq<string>, marked: set<string>, total: int, maxSize: int,
                           n: nat, i: nat, evictedSize: nat, retainedSize: nat)
    requires NoDups(order) && Elems(order) <= entries.Keys && marked == entries.Keys - Elems(order)
  {
    && n <= i <= |order|
    && evictedSize == SumSizes(entries, Elems(order[..n]))
    && (forall j | 0 <= j < n :: total - SumSizes(entries, Elems(order[..j])) > maxSize)
    && retainedSize == SumSizes(entries, marked + Elems(order[n..i]))
  }

  lemma NoneLookedAt(entries: Entries, order: seq<string>, marked: set<string>, total: int, maxSize: int)
    requires NoDups(order) && Elems(order) <= entries.Keys && marked == entries.Keys - Elems(order)
    ensures ShrunkBy(entries, order, marked, total, maxSize, 0, 0, 0, SumSizes(entries, marked))
  {
    assert marked + Elems(order[0..0]) == marked;
    assert Elems(order[..0]) == {};
  }

  lemma AllLookedAt(entries: Entries, order: seq<string>, marked: set<string>, total: int, maxSize: int,
                    n: nat, evictedSize: nat, retainedSize: nat)
    requires NoDups(order) && Elems(order) <= entries.Keys && marked == entries.Keys - Elems(order)
    requires ShrunkBy(entries, order, marked, total, maxSize, n, |order|, evictedSize, retainedSize)
    requires maxSize > 0 && (n < |order| ==> total - evictedSize <= maxSize)
    ensures IsShrink(entries, order, total, maxSize, n)
    ensures Elems(order[..n]) <= entries.Keys
    ensures retainedSize == SumSizes(entries, entries.Keys - Elems(order[..n]))
  {
    PartsOfOrder(order, n);
    assert order[n..|order|] == order[n..];
    assert entries.Keys - Elems(order[..n]) == marked + Elems(order[n..|order|]);
  }

  lemma RetainOne(entries: Entries, order: seq<string>, marked: set<string>, total: int, maxSize: int,
                  n: nat, i: nat, evictedSize: nat, retainedSize: nat)
    requires NoDups(order) && Elems(order) <= entries.Keys && marked == entries.Keys - Elems(order)
    requires ShrunkBy(entries, order, marked, total, maxSize, n, i, evictedSize, retainedSize) && i < |order|
    ensures ShrunkBy(entries, order, marked, total, maxSize, n, i + 1, evictedSize,
      retainedSize + entries[order[i]].narSize)
  {
    assert order[n..i + 1] == order[n..i] + [order[i]];
    ElemsAppend(order[n..i], order[i]);
    assert marked + Elems(order[n..i + 1]) == marked + Elems(order[n..i]) + {order[i]};
    SumPlus(entries, marked + Elems(order[n..i]), order[i]);
  }

  lemma EvictOne(entries: Entries, order: seq<string>, marked: set<string>, total: int, maxSize: int,
                 i: nat, evictedSize: nat, retainedSize: nat)
    requires NoDups(order) && Elems(order) <= entries.Keys && marked == entries.Keys - Elems(order)
    requires ShrunkBy(entries, order, marked, total, maxSize, i, i, evictedSize, retainedSize) && i < |order|
    requires total - evictedSize > maxSize
    ensures ShrunkBy(entries, order, marked, total, maxSize, i + 1, i + 1, evictedSize + entries[order[i]].narSize,
      retainedSize)
    ensures order[..i + 1] == order[..i] + [order[i]]
  {
    assert order[..i + 1] == order[..i] + [order[i]];
    ElemsAppend(order[..i], order[i]);
    SumPlus(entries, Elems(order[..i]), order[i]);
    assert order[i..i] == order[i + 1..i + 1];
  }

  /** The loop of the shrink after `i` candidates. */
  ghost predicate Shrinking(entries: Entries, order: seq<string>, marked: set<string>, total: int, maxSize: int,
                            i: nat, evicted: seq<string>, currentSize: int, evictedSize: nat, retainedSize: nat)
  {
    && NoDups(order) && Elems(order) <= entries.Keys && marked == entries.Keys - Elems(order)
    && |evicted| <= i <= |order| && evicted == order[..|evicted|]
    && (|evicted| < i ==> currentSize <= maxSize)
    && currentSize == total - evictedSize
    && ShrunkBy(entries, order, marked, total, maxSize, |evicted|, i, evictedSize, retainedSize)
  }

  lemma ShrinkBegins(entries: Entries, order: seq<string>, marked: set<string>, total: int, maxSize: int)
    requires NoDups(order) && Elems(order) <= entries.Keys && marked == entries.Keys - Elems(order)
    ensures Shrinking(entries, order, marked, total, maxSize, 0, [], total, 0, SumSizes(entries, marked))
  {
    NoneLookedAt(entries, order, marked, total, maxSize);
  }

  lemma ShrinkEnds(entries: Entries, order: seq<string>, marked: set<string>, total: int, maxSize: int,
                   evicted: seq<string>, currentSize: int, evictedSize: nat, retainedSize: nat)
    requires Shrinking(entries, order, marked, total, maxSize, |order|, evicted, currentSize, evictedSize,
      retainedSize) && maxSize > 0
    ensures |evicted| <= |order| && evicted == order[..|evicted|] && Elems(evicted) <= entries.Keys
    ensures IsShrink(entries, order, total, maxSize, |evicted|)
    ensures evictedSize == SumSizes(entries, Elems(evicted))
    ensures retainedSize == SumSizes(entries, entries.Keys - Elems(evicted))
  {
    AllLookedAt(entries, order, marked, total, maxSize, |evicted|, evictedSize, retainedSize);
  }

  lemma ShrinkRetains(entries: Entries, order: seq<string>, marked: set<string>, total: int, maxSize: int,
                      i: nat, evicted: seq<string>, currentSize: int, evictedSize: nat, retainedSize: nat)
    requires Shrinking(entries, order, marked, total, maxSize, i, evicted, currentSize, evictedSize, retainedSize)
    requires i < |order| && currentSize <= maxSize
    ensures order[i] in entries
    ensures Shrinking(entries, order, marked, total, maxSize, i + 1, evicted, currentSize, evictedSize,
      retainedSize + entries[order[i]].narSize)
  {
    assert order[i] in Elems(order);
    RetainOne(entries, order, marked, total, maxSize, |evicted|, i, evictedSize, retainedSize);
  }

  lemma ShrinkEvicts(entries: Entries, order: seq<string>, marked: set<string>, total: int, maxSize: int,
                     i: nat, evicted: seq<string>, currentSize: int, evictedSize: nat, retainedSize: nat)
    requires Shrinking(entries, order, marked, total, maxSize, i, evicted, currentSize, evictedSize, retainedSize)
    requires i < |order| && currentSize > maxSize
    ensures order[i] in entries
    ensures var size := entries[order[i]].narSize;
      Shrinking(entries, order, marked, total, maxSize, i + 1, evicted + [order[i]], currentSize - size,
        evictedSize + size, retainedSize)
  {
    assert order[i] in Elems(order);
    EvictOne(entries, order, marked, total, maxSize, i, evictedSize, retainedSize);
  }

  // ----- the stages of a sweep -----

  method SizeOfEntries(entries: Entries) returns (size: nat)
    ensures size == SumSizes(entries, entries.Keys)
  {
    size := 0;
    var todo := entries.Keys;
    while todo != {}
      invariant todo <= entries.Keys
      invariant size + SumSizes(entries, todo) == SumSizes(entries, entries.Keys)
    {
      var h :| h in todo;
      SumWithout(entries, todo, h);
      size := size + entries[h].narSize;
      todo := todo - {h};
    }
  }

  method MarkGracePeriod(entries: Entries, markedSet: set<string>, now: Time, gracePeriod: int)
    returns (marked: set<string>, candidates: seq<string>, retainedSize: nat)
    requires markedSet <= entries.Keys
    ensures marked == markedSet + set h | h in entries && now - entries[h].uploadedAt < gracePeriod
    ensures NoDups(candidates) && Elems(candidates) == entries.Keys - marked
    ensures marked <= entries.Keys && retainedSize == SumSizes(entries, marked)
  {
    marked, candidates, retainedSize := markedSet, [], 0;
    ghost var young := set h | h in entries && now - entries[h].uploadedAt < gracePeriod;
    var todo := entries.Keys;
    while todo != {}
      invariant todo <= entries.Keys
      invariant marked == markedSet + (young - todo)
      invariant NoDups(candidates) && Elems(candidates) == entries.Keys - todo - marked
      invariant retainedSize == SumSizes(entries, marked - todo)
    {
      var hash :| hash in todo;
      ghost var before := todo;
      todo := todo - {hash};
      if hash in marked {
        assert marked - todo == (marked - before) + {hash};
        SumPlus(entries, marked - before, hash);
        retainedSize := retainedSize + entries[hash].narSize;
      } else if now - entries[hash].uploadedAt < gracePeriod {
        assert (marked + {hash}) - todo == (marked - before) + {hash};
        SumPlus(entries, marked - before, hash);
        marked := marked + {hash};
        retainedSize := retainedSize + entries[hash].narSize;
      } else {
        assert marked - todo == marked - before;
        ElemsAppend(candidates, hash);
        candidates := candidates + [hash];
      }
    }
    assert marked - {} == marked;
  }

  ghost predicate IsGrouping(entries: Entries, pol: Policy, unmarked: set<string>, groups: map<string, seq<string>>) {
    && (forall base | base in groups ::
      NoDups(groups[base]) && Elems(groups[base]) == VersionGroup(entries, pol, unmarked, base))
    && (forall base | base !in groups :: VersionGroup(entries, pol, unmarked, base) == {})
  }

  lemma NothingKeptYet(entries: Entries, pol: Policy, unmarked: set<string>, groups: map<string, seq<string>>)
    requires unmarked <= entries.Keys && IsGrouping(entries, pol, unmarked, groups)
    ensures KeptSoFar(entries, pol, unmarked, {}, groups.Keys)
  {
  }

  lemma AllSettled(entries: Entries, pol: Policy, unmarked: set<string>, kept: set<string>)
    requires unmarked <= entries.Keys && KeptSoFar(entries, pol, unmarked, kept, {})
    ensures IsKept(entries, pol, unmarked, kept)
  {
  }

  /** Marks the newest versions of every package that has more versions than the limit. */
  method MarkVersions(entries: Entries, markedSet: set<string>, retained: nat, pol: Policy)
    returns (marked: set<string>, retainedSize: nat, ghost kept: set<string>)
    requires pol.keepVersions > 0
    requires markedSet <= entries.Keys && retained == SumSizes(entries, markedSet)
    ensures IsKept(entries, pol, entries.Keys - markedSet, kept)
    ensures marked == markedSet + kept && retainedSize == SumSizes(entries, marked)
  {
    ghost var unmarked := entries.Keys - markedSet;
    var versionGroups := GroupVersions(entries, markedSet, pol);
    marked, retainedSize, kept := markedSet, retained, {};
    NothingKeptYet(entries, pol, unmarked, versionGroups);
    var todo := versionGroups.Keys;
    while todo != {}
      invariant todo <= versionGroups.Keys
      invariant kept <= unmarked && marked == markedSet + kept
      invariant retainedSize == SumSizes(entries, marked)
      invariant KeptSoFar(entries, pol, unmarked, kept, todo)
    {
      var base :| base in todo;
      marked, retainedSize, kept := MarkGroup(entries, pol, base, versionGroups[base], markedSet, marked,
        retainedSize, kept, todo);
      todo := todo - {base};
    }
    AllSettled(entries, pol, unmarked, kept);
  }

  method MarkGroup(entries: Entries, pol: Policy, base: string, group: seq<string>, ghost markedBefore: set<string>,
                   markedSet: set<string>, retained: nat, ghost keptSoFar: set<string>, ghost todo: set<string>)
    returns (marked: set<string>, retainedSize: nat, ghost kept: set<string>)
    requires pol.keepVersions > 0 && base in todo
    requires NoDups(group) && Elems(group) == VersionGroup(entries, pol, entries.Keys - markedBefore, base)
    requires markedBefore <= entries.Keys && KeptSoFar(entries, pol, entries.Keys - markedBefore, keptSoFar, todo)
    requires markedSet == markedBefore + keptSoFar && retained == SumSizes(entries, markedSet)
    ensures KeptSoFar(entries, pol, entries.Keys - markedBefore, kept, todo - {base})
    ensures marked == markedBefore + kept && retainedSize == SumSizes(entries, marked)
  {
    ghost var versions := Elems(group);
    assert versions == VersionGroup(entries, pol, entries.Keys - markedBefore, base);
    assert versions * keptSoFar == {};
    forall x | x in versions ensures x !in markedSet {
      assert x in keptSoFar ==> x in versions * keptSoFar;
    }
    ghost var chosen;
    marked, retainedSize, chosen := MarkNewest(entries, pol.keepVersions, group, markedSet, retained, versions,
      keptSoFar);
    GroupSettled(entries, pol, entries.Keys - markedBefore, base, keptSoFar, chosen, todo);
    kept := keptSoFar + chosen;
  }

  /** Marks the newest entries of one group that is larger than the limit. */
  method MarkNewest(entries: Entries, keepVersions: int, group: seq<string>, markedSet: set<string>, retained: nat,
                    ghost versions: set<string>, ghost kept: set<string>)
    returns (marked: set<string>, retainedSize: nat, ghost chosen: set<string>)
    requires keepVersions > 0 && NoDups(group) && Elems(group) == versions <= entries.Keys
    requires versions * kept == {} && versions !! markedSet
    requires markedSet <= entries.Keys && retained == SumSizes(entries, markedSet)
    ensures chosen <= versions && KeepsNewest(entries, keepVersions, versions, kept + chosen)
    ensures marked == markedSet + chosen && retainedSize == SumSizes(entries, marked)
  {
    marked, retainedSize, chosen := markedSet, retained, {};
    ElemsCount(group);
    if |group| <= keepVersions {
      assert kept + {} == kept;
      return;
    }
    var rank := h => if h in entries then -entries[h].uploadedAt else 0;
    var order := SortByRank(group, rank);
    SortedElems(group, order);
    FrontIsNewest(entries, order, keepVersions, rank);
    NewestKept(entries, keepVersions, versions, Elems(order[..keepVersions]), kept);
    marked, retainedSize, chosen := MarkAll(entries, order[..keepVersions], marked, retainedSize);
  }

  lemma GroupOneMore(entries: Entries, pol: Policy, seen: set<string>, groups: map<string, seq<string>>, hash: string)
    requires IsGrouping(entries, pol, seen, groups) && hash in entries && hash !in seen
    ensures var base := pol.basePackageName(entries[hash].name);
      var group := if base in groups then groups[base] else [];
      IsGrouping(entries, pol, seen + {hash}, groups[base := group + [hash]])
  {
    var base := pol.basePackageName(entries[hash].name);
    forall b ensures VersionGroup(entries, pol, seen + {hash}, b) ==
                     VersionGroup(entries, pol, seen, b) + if b == base then {hash} else {} {
    }
    var group := if base in groups then groups[base] else [];
    ElemsAppend(group, hash);
    assert hash !in VersionGroup(entries, pol, seen, base);
  }

  method GroupVersions(entries: Entries, markedSet: set<string>, pol: Policy) returns (groups: map<string, seq<string>>)
    ensures IsGrouping(entries, pol, entries.Keys - markedSet, groups)
  {
    groups := map[];
    var todo := entries.Keys;
    while todo != {}
      invariant todo <= entries.Keys
      invariant IsGrouping(entries, pol, entries.Keys - markedSet - todo, groups)
    {
      var hash :| hash in todo;
      ghost var seen := entries.Keys - markedSet - todo;
      todo := todo - {hash};
      ghost var seen' := entries.Keys - markedSet - todo;
      if hash in markedSet {
        assert seen' == seen;
        continue;
      }
      assert seen' == seen + {hash};
      var base := pol.basePackageName(entries[hash].name);
      var group := if base in groups then groups[base] else [];
      GroupOneMore(entries, pol, seen, groups, hash);
      groups := groups[base := group + [hash]];
    }
    assert entries.Keys - markedSet - {} == entries.Keys - markedSet;
  }

  method MarkAll(entries: Entries, hashes: seq<string>, markedSet: set<string>, retained: nat)
    returns (marked: set<string>, retainedSize: nat, ghost chosen: set<string>)
    requires NoDups(hashes) && Elems(hashes) <= entries.Keys && Elems(hashes) !! markedSet
    requires markedSet <= entries.Keys && retained == SumSizes(entries, markedSet)
    ensures chosen == Elems(hashes) && marked == markedSet + chosen
    ensures retainedSize == SumSizes(entries, marked)
  {
    marked, retainedSize, chosen := markedSet, retained, {};
    for i := 0 to |hashes|
      invariant chosen == Elems(hashes[..i]) && marked == markedSet + chosen
      invariant retainedSize == SumSizes(entries, marked)
    {
      assert hashes[..i + 1] == hashes[..i] + [hashes[i]];
      ElemsAppend(hashes[..i], hashes[i]);
      SumPlus(entries, marked, hashes[i]);
      marked := marked + {hashes[i]};
      retainedSize := retainedSize + entries[hashes[i]].narSize;
      chosen := chosen + {hashes[i]};
    }
    assert hashes[..|hashes|] == hashes;
  }

  method Unmarked(entries: Entries, markedSet: set<string>) returns (candidates: seq<string>)
    ensures NoDups(candidates) && Elems(candidates) == entries.Keys - markedSet
  {
    candidates := [];
    var todo := entries.Keys;
    while todo != {}
      invariant todo <= entries.Keys
      invariant NoDups(candidates) && Elems(candidates) == entries.Keys - todo - markedSet
    {
      var hash :| hash in todo;
      todo := todo - {hash};
      if hash !in markedSet {
        ElemsAppend(candidates, hash);
        candidates := candidates + [hash];
      }
    }
  }

  method LeastRecentlyUsed(entries: Entries, candidates: seq<string>) returns (order: seq<string>)
    requires NoDups(candidates) && Elems(candidates) <= entries.Keys
    ensures IsLruOrder(entries, Elems(candidates), order)
  {
    var rank := (h: string) => if h in entries then entries[h].lastUsed else 0;
    order := SortByRank(candidates, rank);
    SortedElems(candidates, order);
    forall i, j | 0 <= i < j < |order| ensures entries[order[i]].lastUsed <= entries[order[j]].lastUsed {
      assert rank(order[i]) <= rank(order[j]);
    }
  }

  /** Evicts from the front of `order` until the rest fits. */
  method Shrink(entries: Entries, order: seq<string>, markedSet: set<string>, retained: nat, maxSize: int)
    returns (evictedKeys: seq<string>, retainedSize: nat, evictedSize: nat)
    requires markedSet <= entries.Keys && retained == SumSizes(entries, markedSet)
    requires NoDups(order) && Elems(order) == entries.Keys - markedSet
    ensures |evictedKeys| <= |order| && evictedKeys == order[..|evictedKeys|]
    ensures IsShrink(entries, order, SumSizes(entries, entries.Keys), maxSize, |evictedKeys|)
    ensures Elems(evictedKeys) <= entries.Keys
    ensures evictedSize == SumSizes(entries, Elems(evictedKeys))
    ensures retainedSize == SumSizes(entries, entries.Keys - Elems(evictedKeys))
  {
    evictedKeys, evictedSize, retainedSize := order, 0, retained;
    if maxSize > 0 {
      var listed := SumOfList(entries, order);
      SumOfParts(entries, markedSet, Elems(order));
      assert markedSet + Elems(order) == entries.Keys;
      evictedKeys, retainedSize, evictedSize := ShrinkTo(entries, order, markedSet, retained, retained + listed,
        maxSize);
    } else {
      evictedSize := SumOfList(entries, order);
      assert order[..|order|] == order;
      assert entries.Keys - Elems(order) == markedSet;
    }
  }

  method ShrinkTo(entries: Entries, order: seq<string>, markedSet: set<string>, retained: nat, total: nat, maxSize: int)
    returns (evictedKeys: seq<string>, retainedSize: nat, evictedSize: nat)
    requires NoDups(order) && Elems(order) <= entries.Keys && markedSet == entries.Keys - Elems(order)
    requires retained == SumSizes(entries, markedSet) && total == SumSizes(entries, entries.Keys)
    requires maxSize > 0
    ensures |evictedKeys| <= |order| && evictedKeys == order[..|evictedKeys|]
    ensures IsShrink(entries, order, total, maxSize, |evictedKeys|)
    ensures Elems(evictedKeys) <= entries.Keys
    ensures evictedSize == SumSizes(entries, Elems(evictedKeys))
    ensures retainedSize == SumSizes(entries, entries.Keys - Elems(evictedKeys))
  {
    var currentSize: int := total;
    evictedKeys, evictedSize, retainedSize := [], 0, retained;
    ShrinkBegins(entries, order, markedSet, total, maxSize);
    for i := 0 to |order|
      invariant Shrinking(entries, order, markedSet, total, maxSize, i, evictedKeys, currentSize, evictedSize,
        retainedSize)
    {
      evictedKeys, currentSize, evictedSize, retainedSize :=
        Consider(entries, order, markedSet, total, maxSize, i, evictedKeys, currentSize, evictedSize, retainedSize);
    }
    ShrinkEnds(entries, order, markedSet, total, maxSize, evictedKeys, currentSize, evictedSize, retainedSize);
  }

  /** One turn of the loop: the next candidate is kept if the rest fits, and evicted otherwise. */
  method Consider(entries: Entries, order: seq<string>, ghost markedSet: set<string>, ghost total: int, maxSize: int,
                  i: nat,
                  evicted: seq<string>, current: int, evictedBefore: nat, retained: nat)
    returns (evictedKeys: seq<string>, currentSize: int, evictedSize: nat, retainedSize: nat)
    requires Shrinking(entries, order, markedSet, total, maxSize, i, evicted, current, evictedBefore, retained) &&
      i < |order|
    ensures Shrinking(entries, order, markedSet, total, maxSize, i + 1, evictedKeys, currentSize, evictedSize,
      retainedSize)
  {
    evictedKeys, currentSize, evictedSize, retainedSize := evicted, current, evictedBefore, retained;
    var hash := order[i];
    if currentSize <= maxSize {
      ShrinkRetains(entries, order, markedSet, total, maxSize, i, evictedKeys, currentSize, evictedSize, retainedSize);
      retainedSize := retainedSize + entries[hash].narSize;
    } else {
      ShrinkEvicts(entries, order, markedSet, total, maxSize, i, evictedKeys, currentSize, evictedSize, retainedSize);
      evictedKeys := evictedKeys + [hash];
      evictedSize := evictedSize + entries[hash].narSize;
      currentSize := currentSize - entries[hash].narSize;
    }
  }

  method SumOfList(entries: Entries, hashes: seq<string>) returns (size: nat)
    requires NoDups(hashes) && Elems(hashes) <= entries.Keys
    ensures size == SumSizes(entries, Elems(hashes))
  {
    size := 0;
    for i := 0 to |hashes|
      invariant size == SumSizes(entries, Elems(hashes[..i]))
    {
      assert hashes[..i + 1] == hashes[..i] + [hashes[i]];
      ElemsAppend(hashes[..i], hashes[i]);
      SumPlus(entries, Elems(hashes[..i]), hashes[i]);
      size := size + entries[hashes[i]].narSize;
    }
    assert hashes[..|hashes|] == hashes;
  }
  // ----- the stages of a cascade -----

  ghost function Dependents(entries: Entries, among: set<string>, h: string): set<string> {
    set m | m in among && m in entries && h in RefHashes(entries[m].references)
  }

  ghost function ListedUnder(revDeps: map<string, seq<string>>, h: string): set<string> {
    if h in revDeps then Elems(revDeps[h]) else {}
  }

  method ReverseDependencies(entries: Entries) returns (revDeps: map<string, seq<string>>)
    ensures forall h :: ListedUnder(revDeps, h) == Dependents(entries, entries.Keys, h)
  {
    revDeps := map[];
    var todo := entries.Keys;
    while todo != {}
      invariant todo <= entries.Keys
      invariant forall h :: ListedUnder(revDeps, h) == Dependents(entries, entries.Keys - todo, h)
    {
      var hash :| hash in todo;
      ghost var before, seen := revDeps, entries.Keys - todo;
      revDeps := AddReferences(revDeps, entries[hash].references, hash);
      todo := todo - {hash};
      forall h ensures ListedUnder(revDeps, h) == Dependents(entries, entries.Keys - todo, h) {
        assert ListedUnder(before, h) == Dependents(entries, seen, h);
        assert entries.Keys - todo == seen + {hash};
      }
    }
    assert entries.Keys - {} == entries.Keys;
  }

  /** `after` lists `hash` under each of `under`, and otherwise what `before` lists. */
  ghost predicate AlsoLists(before: map<string, seq<string>>, after: map<string, seq<string>>, under: set<string>,
                            hash: string) {
    forall h :: ListedUnder(after, h) == ListedUnder(before, h) + if h in under then {hash} else {}
  }

  method AddReferences(revDeps: map<string, seq<string>>, references: seq<string>, hash: string)
    returns (revDeps': map<string, seq<string>>)
    ensures AlsoLists(revDeps, revDeps', RefHashes(references), hash)
  {
    revDeps' := revDeps;
    for i := 0 to |references|
      invariant AlsoLists(revDeps, revDeps', RefHashes(references[..i]), hash)
    {
      var refHash := GetHashFromPath(references[i]);
      RefHashesStep(references, i);
      if refHash != "" {
        var deps := if refHash in revDeps' then revDeps'[refHash] else [];
        ListOneMore(revDeps, revDeps', RefHashes(references[..i]), refHash, deps, hash);
        revDeps' := revDeps'[refHash := deps + [hash]];
      }
    }
    assert references[..|references|] == references;
  }

  lemma ListOneMore(before: map<string, seq<string>>, revDeps: map<string, seq<string>>, under: set<string>,
                    refHash: string, deps: seq<string>, hash: string)
    requires AlsoLists(before, revDeps, under, hash)
    requires deps == if refHash in revDeps then revDeps[refHash] else []
    ensures AlsoLists(before, revDeps[refHash := deps + [hash]], under + {refHash}, hash)
  {
    ElemsAppend(deps, hash);
  }

  lemma ElemsConcat(s: seq<string>, t: seq<string>)
    ensures Elems(s + t) == Elems(s) + Elems(t)
  {
  }

  method EvictedBy(entries: Entries, targets: seq<string>, revDeps: map<string, seq<string>>)
    returns (evictedSet: set<string>)
    requires forall h :: ListedUnder(revDeps, h) == Dependents(entries, entries.Keys, h)
    ensures evictedSet == Closure(Transposed(RefGraph(entries)), Elems(targets))
    ensures evictedSet <= entries.Keys
  {
    ghost var g := Transposed(RefGraph(entries));
    ClosureContainsStarts(g, Elems(targets));
    ClosureIsClosed(g, Elems(targets));
    evictedSet := WorkQueue(entries, targets, revDeps, g, Closure(g, Elems(targets)));
    ClosureIsLeast(g, Elems(targets), evictedSet);
  }

  /** The loop of the cascade: breadth first over the reverse dependencies.  `bound` is any closed
      set of nodes that holds the existing targets. */
  method WorkQueue(entries: Entries, targets: seq<string>, revDeps: map<string, seq<string>>, ghost g: Graph,
                   ghost bound: set<string>)
    returns (evictedSet: set<string>)
    requires g == Transposed(RefGraph(entries))
    requires forall h :: ListedUnder(revDeps, h) == Dependents(entries, entries.Keys, h)
    requires Elems(targets) * g.Keys <= bound && ClosedUnderEdges(g, bound)
    ensures evictedSet <= bound
    ensures Elems(targets) * g.Keys <= evictedSet && ClosedUnderEdges(g, evictedSet)
  {
    evictedSet := {};
    var queue := targets;
    while |queue| > 0
      invariant PartlyMarked(g, Elems(targets), {}, bound, evictedSet, Elems(queue))
      decreases |entries.Keys - evictedSet|, |queue|
    {
      var curr := queue[0];
      TakeFirst(g, Elems(targets), bound, evictedSet, queue);
      queue := queue[1..];
      if curr in evictedSet || curr !in entries {
        continue;
      }
      SmallerSet(entries.Keys - (evictedSet + {curr}), entries.Keys - evictedSet);
      var deps := if curr in revDeps then revDeps[curr] else [];
      EvictStep(entries, targets, revDeps, g, bound, evictedSet, queue, curr, deps);
      evictedSet := evictedSet + {curr};
      queue := queue + deps;
    }
  }

  /** What has been marked, or does not exist, need not be looked at. */
  lemma TakeFirst(g: Graph, roots: set<string>, bound: set<string>, marked: set<string>, queue: seq<string>)
    requires queue != [] && PartlyMarked(g, roots, {}, bound, marked, Elems(queue))
    ensures PartlyMarked(g, roots, {}, bound, marked, {queue[0]} + Elems(queue[1..]))
    ensures queue[0] in marked || queue[0] !in g ==> PartlyMarked(g, roots, {}, bound, marked, Elems(queue[1..]))
  {
    assert queue == [queue[0]] + queue[1..];
    ElemsConcat([queue[0]], queue[1..]);
    assert Elems(queue) == {queue[0]} + Elems(queue[1..]);
  }

  lemma EvictStep(entries: Entries, targets: seq<string>, revDeps: map<string, seq<string>>, g: Graph,
                  bound: set<string>,
                  evicted: set<string>, queue: seq<string>, curr: string, deps: seq<string>)
    requires g == Transposed(RefGraph(entries)) && ClosedUnderEdges(g, bound) && curr in entries
    requires ListedUnder(revDeps, curr) == Dependents(entries, entries.Keys, curr)
    requires deps == if curr in revDeps then revDeps[curr] else []
    requires PartlyMarked(g, Elems(targets), {}, bound, evicted, {curr} + Elems(queue))
    ensures PartlyMarked(g, Elems(targets), {}, bound, evicted + {curr}, Elems(queue + deps))
  {
    DependentsAreEdges(entries, curr);
    assert Elems(deps) == ListedUnder(revDeps, curr) == g[curr];
    ElemsConcat(queue, deps);
    assert {curr} + Elems(queue) == Elems(queue) + {curr};
    MarkOne(g, Elems(targets), {}, bound, evicted, Elems(queue), curr, Elems(queue + deps));
  }

  lemma DependentsAreEdges(entries: Entries, h: string)
    requires h in entries
    ensures Transposed(RefGraph(entries))[h] == Dependents(entries, entries.Keys, h)
  {
  }

  method Listed(entries: Entries, keys: set<string>) returns (list: seq<string>, size: nat)
    requires keys <= entries.Keys
    ensures NoDups(list) && Elems(list) == keys && size == SumSizes(entries, keys)
  {
    list, size := [], 0;
    var todo := keys;
    while todo != {}
      invariant todo <= keys
      invariant NoDups(list) && Elems(list) == keys - todo
      invariant size + SumSizes(entries, todo) == SumSizes(entries, keys)
    {
      var hash :| hash in todo;
      SumWithout(entries, todo, hash);
      todo := todo - {hash};
      ElemsAppend(list, hash);
      list := list + [hash];
      size := size + entries[hash].narSize;
    }
  }

  class Engine {
    const index: CacheIndex
    const gracePeriod: int
    var keepVersions: int
    /** How package names are grouped into versions of one package. */
    const basePackageName: string -> string

    constructor (index: CacheIndex, gracePeriod: int, basePackageName: string -> string)
      ensures this.index == index && this.gracePeriod == gracePeriod && this.basePackageName == basePackageName
      ensures keepVersions == 0
    {
      this.index, this.gracePeriod, this.basePackageName := index, gracePeriod, basePackageName;
      keepVersions := 0;
    }

    method SetKeepVersions(n: int)
      modifies this
      ensures keepVersions == n
    {
      keepVersions := n;
    }

    /** Everything reachable from the roots through existing entries that were not marked before
        gets marked. */
    method ScanClosure(activeRoots: seq<string>, markedSet: set<string>) returns (marked: set<string>)
      ensures marked == markedSet + Closure(RefGraph(index.entries) - markedSet, Elems(activeRoots))
    {
      ghost var g := RefGraph(index.entries) - markedSet;
      ghost var closure := Closure(g, Elems(activeRoots));
      ClosureContainsStarts(g, Elems(activeRoots));
      ClosureIsClosed(g, Elems(activeRoots));
      marked := WorkStack(activeRoots, markedSet, g, closure);
      ClosureIsLeast(g, Elems(activeRoots), marked);
    }

    /** The loop of the mark phase: depth first, with an explicit stack.  `bound` is any closed set
        of nodes that holds the starting ones. */
    method WorkStack(activeRoots: seq<string>, markedSet: set<string>, ghost g: Graph, ghost bound: set<string>)
      returns (marked: set<string>)
      requires g == RefGraph(index.entries) - markedSet
      requires Elems(activeRoots) * g.Keys <= bound && ClosedUnderEdges(g, bound)
      ensures markedSet <= marked <= markedSet + bound
      ensures Elems(activeRoots) * g.Keys <= marked && ClosedUnderEdges(g, marked)
    {
      marked := markedSet;
      var queue := activeRoots;
      while |queue| > 0
        invariant markedSet <= marked
        invariant PartlyMarked(g, Elems(activeRoots), markedSet, bound, marked, Elems(queue))
        decreases |index.entries.Keys - marked|, |queue|
      {
        var curr := queue[|queue| - 1];
        ghost var popped := queue;
        queue := queue[..|queue| - 1];
        assert popped == queue + [curr];
        ElemsAppend(queue, curr);
        if curr in marked || curr !in index.entries {
          continue;
        }
        SmallerSet(index.entries.Keys - (marked + {curr}), index.entries.Keys - marked);
        ghost var before, rest := marked, Elems(queue);
        marked := marked + {curr};
        queue := PushReferences(queue, index.entries[curr].references, marked);
        MarkOne(g, Elems(activeRoots), markedSet, bound, before, rest, curr, Elems(queue));
      }
    }

    /** Puts the referenced hashes that are not marked yet on the stack. */
    static method PushReferences(queue: seq<string>, references: seq<string>, marked: set<string>)
      returns (queue': seq<string>)
      ensures Elems(queue) <= Elems(queue') <= Elems(queue) + RefHashes(references)
      ensures RefHashes(references) <= marked + Elems(queue')
    {
      queue' := queue;
      for i := 0 to |references|
        invariant Elems(queue) <= Elems(queue') <= Elems(queue) + RefHashes(references[..i])
        invariant RefHashes(references[..i]) <= marked + Elems(queue')
      {
        var refHash := GetHashFromPath(references[i]);
        RefHashesStep(references, i);
        if refHash != "" && refHash !in marked {
          ElemsAppend(queue', refHash);
          queue' := queue' + [refHash];
        }
      }
      assert references[..|references|] == references;
    }

    // ----- sweep -----

    /** Decides what to evict; the index itself is left alone. */
    method Sweep(now: Time, maxSize: int) returns (result: Result)
      ensures IsSweep(index.View(), Policy(now, maxSize, gracePeriod, keepVersions, basePackageName), result)
    {
      var pol := Policy(now, maxSize, gracePeriod, keepVersions, basePackageName);
      var originalSize := SizeOfEntries(index.entries);
      var activeRoots, expiredRoots := SplitRoots(now);
      var markedSet, candidates, retainedSize;
      ghost var kept;
      markedSet, candidates, retainedSize, kept := Mark(activeRoots, now, pol);
      var entries := index.entries;
      var order := LeastRecentlyUsed(entries, candidates);
      var evictedKeys, evictedSize;
      evictedKeys, retainedSize, evictedSize := Shrink(entries, order, markedSet, retainedSize, maxSize);
      result := Result(|index.entries|, originalSize, |index.entries| - |evictedKeys|, retainedSize,
                       |evictedKeys|, evictedSize, evictedKeys, expiredRoots);
      SweepAccounts(entries, order, result);
      assert IsSweepWith(index.View(), pol, result, kept, order);
    }

    /** The marking stages: roots, grace period, newest versions. */
    method Mark(activeRoots: seq<string>, now: Time, pol: Policy)
      returns (markedSet: set<string>, candidates: seq<string>, retainedSize: nat, ghost kept: set<string>)
      requires pol == Policy(now, pol.maxSize, gracePeriod, keepVersions, basePackageName)
      requires Elems(activeRoots) == ActiveRoots(index.View(), now)
      ensures IsKept(index.entries, pol, Unprotected(index.View(), pol), kept)
      ensures NoDups(candidates) && Elems(candidates) == Unprotected(index.View(), pol) - kept
      ensures markedSet <= index.entries.Keys && Elems(candidates) == index.entries.Keys - markedSet
      ensures retainedSize == SumSizes(index.entries, markedSet)
    {
      markedSet := ScanClosure(activeRoots, {});
      assert RefGraph(index.entries) - {} == RefGraph(index.entries);
      markedSet, candidates, retainedSize := MarkGracePeriod(index.entries, markedSet, now, gracePeriod);
      assert markedSet == Protected(index.View(), pol);
      kept := {};
      if keepVersions > 0 {
        markedSet, retainedSize, kept := MarkVersions(index.entries, markedSet, retainedSize, pol);
        candidates := Unmarked(index.entries, markedSet);
      }
    }

    method SplitRoots(now: Time) returns (active: seq<string>, expired: seq<string>)
      ensures Elems(active) == ActiveRoots(index.View(), now)
      ensures Elems(expired) == index.roots.Keys - ActiveRoots(index.View(), now)
      ensures NoDups(expired)
    {
      active, expired := [], [];
      var todo := index.roots.Keys;
      while todo != {}
        invariant todo <= index.roots.Keys
        invariant Elems(active) == ActiveRoots(index.View(), now) - todo
        invariant Elems(expired) == index.roots.Keys - ActiveRoots(index.View(), now) - todo
        invariant NoDups(expired)
      {
        var hash :| hash in todo;
        todo := todo - {hash};
        if Expired(index.roots[hash], now) {
          ElemsAppend(expired, hash);
          expired := expired + [hash];
        } else {
          ElemsAppend(active, hash);
          active := active + [hash];
        }
      }
    }


    // ----- cascading eviction -----

    /** Evicts the targets and everything that depends on them, roots included. */
    method CascadeEvict(targets: seq<string>) returns (result: Result)
      ensures IsCascade(index.View(), Elems(targets), result)
    {
      var originalSize := SizeOfEntries(index.entries);
      var revDeps := ReverseDependencies(index.entries);
      var evictedSet := EvictedBy(index.entries, targets, revDeps);
      var evictedKeys, evictedSize := Listed(index.entries, evictedSet);
      ElemsCount(evictedKeys);
      SumAndCountSplit(index.entries, evictedSet);
      var expiredRoots := RootsToDrop(targets, evictedSet);
      result := Result(|index.entries|, originalSize, |index.entries| - |evictedKeys|, originalSize - evictedSize,
                       |evictedKeys|, evictedSize, evictedKeys, expiredRoots);
    }

    method RootsToDrop(targets: seq<string>, evictedSet: set<string>) returns (expiredRoots: seq<string>)
      ensures NoDups(expiredRoots) && Elems(expiredRoots) == Elems(targets) + evictedSet * index.roots.Keys
    {
      var expiredSet: set<string> := {};
      for i := 0 to |targets|
        invariant expiredSet == Elems(targets[..i])
      {
        assert targets[..i + 1] == targets[..i] + [targets[i]];
        expiredSet := expiredSet + {targets[i]};
      }
      assert targets[..|targets|] == targets;
      var todo := evictedSet;
      while todo != {}
        invariant todo <= evictedSet
        invariant expiredSet == Elems(targets) + (evictedSet - todo) * index.roots.Keys
      {
        var hash :| hash in todo;
        todo := todo - {hash};
        if hash in index.roots {
          expiredSet := expiredSet + {hash};
        }
      }
      expiredRoots := [];
      todo := expiredSet;
      while todo != {}
        invariant todo <= expiredSet
        invariant NoDups(expiredRoots) && Elems(expiredRoots) == expiredSet - todo
      {
        var hash :| hash in todo;
        todo := todo - {hash};
        ElemsAppend(expiredRoots, hash);
        expiredRoots := expiredRoots + [hash];
      }
    }

    /** Commits a result to the index. */
    method Apply(result: Result)
      modifies index
      ensures index.View() == Applied(old(index.View()), result)
      ensures index.version == old(index.version) && index.gcRootsV1 == old(index.gcRootsV1)
    {
      for i := 0 to |result.expiredRoots|
        invariant index.entries == old(index.entries) && index.version == old(index.version) &&
          index.gcRootsV1 == old(index.gcRootsV1)
        invariant index.roots == old(index.roots) - (set k | k in result.expiredRoots[..i])
      {
        assert result.expiredRoots[..i + 1] == result.expiredRoots[..i] + [result.expiredRoots[i]];
        index.roots := index.roots - {result.expiredRoots[i]};
      }
      assert result.expiredRoots[..|result.expiredRoots|] == result.expiredRoots;
      for i := 0 to |result.evictedKeys|
        invariant index.roots == old(index.roots) - (set k | k in result.expiredRoots)
        invariant index.version == old(index.version) && index.gcRootsV1 == old(index.gcRootsV1)
        invariant index.entries == old(index.entries) - (set k | k in result.evictedKeys[..i])
      {
        assert result.evictedKeys[..i + 1] == result.evictedKeys[..i] + [result.evictedKeys[i]];
        index.entries := index.entries - {result.evictedKeys[i]};
      }
      assert result.evictedKeys[..|result.evictedKeys|] == result.evictedKeys;
    }
  }
}
