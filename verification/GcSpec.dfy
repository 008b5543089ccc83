/** What a sweep and a cascade must compute, independently of how the engine computes it. */
module GcSpec {
  import opened StorePaths
  import opened CacheIndexes
  import opened Graphs

  ghost function Elems(s: seq<string>): set<string> {
    set x | x in s
  }

  lemma EmptyElems(s: seq<string>)
    ensures Elems(s) == {} <==> s == []
  {
    if s != [] {
      assert s[0] in Elems(s);
    }
  }

  lemma ElemsAppend(s: seq<string>, x: string)
    ensures Elems(s + [x]) == Elems(s) + {x}
  {
  }

  ghost function RefHashes(references: seq<string>): set<string> {
    set r | r in references && GetHashFromPath(r) != "" :: GetHashFromPath(r)
  }

  /** The reference graph of an index: an edge to every hash an entry's references name. */
  ghost function RefGraph(entries: Entries): Graph {
    map h | h in entries :: RefHashes(entries[h].references)
  }

  lemma RefHashesStep(references: seq<string>, i: nat)
    requires i < |references|
    ensures RefHashes(references[..i + 1]) ==
            RefHashes(references[..i]) +
            if GetHashFromPath(references[i]) != "" then {GetHashFromPath(references[i])} else {}
  {
    assert references[..i + 1] == references[..i] + [references[i]];
  }

  lemma SmallerSet(a: set<string>, b: set<string>)
    requires a < b
    ensures |a| < |b|
  {
    assert b == a + (b - a);
    assert b - a != {};
  }

  // ----- sums of sizes -----

  ghost function SumSizes(entries: Entries, keys: set<string>): nat
    requires keys <= entries.Keys
  {
    if keys == {} then 0
    else
      var k :| k in keys;
      entries[k].narSize + SumSizes(entries, keys - {k})
  }

  lemma {:induction false} SumWithout(entries: Entries, keys: set<string>, k: string)
    requires keys <= entries.Keys && k in keys
    ensures SumSizes(entries, keys) == entries[k].narSize + SumSizes(entries, keys - {k})
    decreases |keys|
  {
    var c :| c in keys && SumSizes(entries, keys) == entries[c].narSize + SumSizes(entries, keys - {c});
    if c != k {
      SumWithout(entries, keys - {c}, k);
      SumWithout(entries, keys - {k}, c);
      assert keys - {c} - {k} == keys - {k} - {c};
    }
  }

  lemma SumPlus(entries: Entries, keys: set<string>, k: string)
    requires keys <= entries.Keys && k in entries && k !in keys
    ensures SumSizes(entries, keys + {k}) == SumSizes(entries, keys) + entries[k].narSize
  {
    SumWithout(entries, keys + {k}, k);
    assert keys + {k} - {k} == keys;
  }

  lemma {:induction false} SumOfParts(entries: Entries, a: set<string>, b: set<string>)
    requires a <= entries.Keys && b <= entries.Keys && a !! b
    ensures SumSizes(entries, a + b) == SumSizes(entries, a) + SumSizes(entries, b)
    decreases |b|
  {
    if b == {} {
      assert a + b == a;
    } else {
      var k :| k in b;
      SumWithout(entries, b, k);
      SumWithout(entries, a + b, k);
      assert a + b - {k} == a + (b - {k});
      SumOfParts(entries, a, b - {k});
    }
  }

  lemma {:induction false} SumAgrees(entries: Entries, entries': Entries, keys: set<string>)
    requires keys <= entries.Keys && keys <= entries'.Keys
    requires forall k | k in keys :: entries[k] == entries'[k]
    ensures SumSizes(entries, keys) == SumSizes(entries', keys)
    decreases |keys|
  {
    if keys != {} {
      var k :| k in keys;
      SumWithout(entries, keys, k);
      SumWithout(entries', keys, k);
      SumAgrees(entries, entries', keys - {k});
    }
  }

  lemma SumAndCountSplit(entries: Entries, part: set<string>)
    requires part <= entries.Keys
    ensures SumSizes(entries, entries.Keys) == SumSizes(entries, entries.Keys - part) + SumSizes(entries, part)
    ensures |entries| == |entries.Keys - part| + |part|
  {
    var rest := entries.Keys - part;
    SumOfParts(entries, rest, part);
    assert rest + part == entries.Keys;
    assert |entries| == |entries.Keys|;
  }

  ghost predicate NoDups(s: seq<string>) {
    forall i, j | 0 <= i < j < |s| :: s[i] != s[j]
  }

  lemma {:induction false} ElemsCount(s: seq<string>)
    requires NoDups(s)
    ensures |Elems(s)| == |s|
  {
    if s != [] {
      var rest := s[..|s| - 1];
      ElemsCount(rest);
      assert s == rest + [s[|s| - 1]];
      assert Elems(s) == Elems(rest) + {s[|s| - 1]};
    }
  }

  // ----- the sweep policy -----

  datatype Policy = Policy(now: Time, maxSize: int, gracePeriod: int, keepVersions: int,
    basePackageName: string -> string)

  datatype Result = Result(
    originalCount: nat,
    originalSize: nat,
    retainedCount: int,
    retainedSize: int,
    evictedCount: nat,
    evictedSize: nat,
    evictedKeys: seq<string>,
    expiredRoots: seq<string>)

  predicate Expired(root: GCRoot, now: Time) {
    root.ttl > 0 && Unix(now) > Unix(root.pinnedAt) + root.ttl
  }

  ghost function ActiveRoots(ix: Snapshot, now: Time): set<string> {
    set h | h in ix.roots && !Expired(ix.roots[h], now)
  }

  /** Everything an unexpired root keeps alive. */
  ghost function Live(ix: Snapshot, now: Time): set<string> {
    Closure(RefGraph(ix.entries), ActiveRoots(ix, now))
  }

  ghost function InGracePeriod(entries: Entries, pol: Policy): set<string> {
    set h | h in entries && pol.now - entries[h].uploadedAt < pol.gracePeriod
  }

  ghost function Protected(ix: Snapshot, pol: Policy): set<string> {
    Live(ix, pol.now) + InGracePeriod(ix.entries, pol)
  }

  ghost function Unprotected(ix: Snapshot, pol: Policy): set<string> {
    ix.entries.Keys - Protected(ix, pol)
  }

  /** The unprotected entries that are versions of the package `base`. */
  ghost function VersionGroup(entries: Entries, pol: Policy, unmarked: set<string>, base: string): set<string> {
    set h | h in unmarked && h in entries && pol.basePackageName(entries[h].name) == base
  }

  /** Of one version group: nothing is kept when it is no larger than the limit, and otherwise as
      many entries as the limit, none older than one that is not kept. */
  ghost predicate KeepsNewest(entries: Entries, n: int, versions: set<string>, kept: set<string>)
    requires versions <= entries.Keys
  {
    if n <= 0 || |versions| <= n then versions * kept == {}
    else
      && |versions * kept| == n
      && forall a, b | a in versions * kept && b in versions - kept :: entries[a].uploadedAt >= entries[b].uploadedAt
  }

  ghost predicate IsKept(entries: Entries, pol: Policy, unmarked: set<string>, kept: set<string>)
    requires unmarked <= entries.Keys
  {
    && kept <= unmarked
    && forall base :: KeepsNewest(entries, pol.keepVersions, VersionGroup(entries, pol, unmarked, base), kept)
  }

  /** `order` lists `keys` from least to most recently used; entries used at the same time may come
      in either order. */
  ghost predicate IsLruOrder(entries: Entries, keys: set<string>, order: seq<string>) {
    && NoDups(order)
    && Elems(order) == keys <= entries.Keys
    && forall i, j | 0 <= i < j < |order| :: entries[order[i]].lastUsed <= entries[order[j]].lastUsed
  }

  /** Evicting the first `n` of `order` is the least that brings `total` down to `maxSize`, or
      everything if that is not enough; without a limit everything goes. */
  ghost predicate IsShrink(entries: Entries, order: seq<string>, total: int, maxSize: int, n: nat)
    requires Elems(order) <= entries.Keys
  {
    && n <= |order|
    && (n < |order| ==> maxSize > 0 && total - SumSizes(entries, Elems(order[..n])) <= maxSize)
    && (maxSize > 0 ==> forall j | 0 <= j < n :: total - SumSizes(entries, Elems(order[..j])) > maxSize)
  }

  ghost predicate AccountsFor(entries: Entries, r: Result) {
    && NoDups(r.evictedKeys)
    && Elems(r.evictedKeys) <= entries.Keys
    && r.originalCount == |entries|
    && r.originalSize == SumSizes(entries, entries.Keys)
    && r.evictedCount == |r.evictedKeys|
    && r.evictedSize == SumSizes(entries, Elems(r.evictedKeys))
    && r.retainedCount == |entries.Keys - Elems(r.evictedKeys)|
    && r.retainedSize == SumSizes(entries, entries.Keys - Elems(r.evictedKeys))
  }

  ghost predicate IsSweepWith(ix: Snapshot, pol: Policy, r: Result, kept: set<string>, order: seq<string>) {
    && IsKept(ix.entries, pol, Unprotected(ix, pol), kept)
    && IsLruOrder(ix.entries, Unprotected(ix, pol) - kept, order)
    && IsShrink(ix.entries, order, SumSizes(ix.entries, ix.entries.Keys), pol.maxSize, |r.evictedKeys|)
    && r.evictedKeys == order[..|r.evictedKeys|]
    && NoDups(r.expiredRoots)
    && Elems(r.expiredRoots) == ix.roots.Keys - ActiveRoots(ix, pol.now)
    && AccountsFor(ix.entries, r)
  }

  /** `r` is a result a sweep may give; ties between upload times or times of use leave a choice. */
  ghost predicate IsSweep(ix: Snapshot, pol: Policy, r: Result) {
    exists kept, order :: IsSweepWith(ix, pol, r, kept, order)
  }

  ghost predicate IsCascade(ix: Snapshot, targets: set<string>, r: Result) {
    && Elems(r.evictedKeys) == Closure(Transposed(RefGraph(ix.entries)), targets)
    && NoDups(r.expiredRoots)
    && Elems(r.expiredRoots) == targets + Elems(r.evictedKeys) * ix.roots.Keys
    && AccountsFor(ix.entries, r)
  }

  /** The index after the result has been committed. */
  function Applied(ix: Snapshot, r: Result): Snapshot {
    Snapshot(ix.entries - (set k | k in r.evictedKeys), ix.roots - (set k | k in r.expiredRoots))
  }
}
