/** What a sweep and an eviction mean for somebody who reads the index: statements about times, sizes, names and
    the texts of references alone, for every index and every result. */
module GcReadings {
  import opened Text
  import opened StorePaths
  import opened CacheIndexes
  import opened Graphs
  import opened PackageNames
  import opened GcSpec
  import opened GcTheorems

  // ----- references as texts -----

  /** One of the references is the path of a store object with this hash. */
  ghost predicate RefersTo(references: seq<string>, hash: string) {
    IsNixHash(hash) && exists rest :: Free(rest, {'/'}) && STORE_DIR + hash + rest in references
  }

  /** Each entry refers to the next. */
  ghost predicate IsChain(entries: Entries, chain: seq<string>) {
    && |chain| > 0
    && (forall i | 0 <= i < |chain| :: chain[i] in entries)
    && forall i | 0 < i < |chain| :: RefersTo(entries[chain[i - 1]].references, chain[i])
  }

  lemma ReferenceIsEdge(references: seq<string>, hash: string)
    requires RefersTo(references, hash)
    ensures hash in RefHashes(references)
  {
    var rest :| Free(rest, {'/'}) && STORE_DIR + hash + rest in references;
    HashOfStorePath(hash, rest);
  }

  lemma ChainIsPath(entries: Entries, chain: seq<string>)
    requires IsChain(entries, chain)
    ensures IsPathBetween(RefGraph(entries), chain, chain[0], chain[|chain| - 1])
  {
    forall i | 0 < i < |chain| ensures chain[i] in RefGraph(entries)[chain[i - 1]] {
      ReferenceIsEdge(entries[chain[i - 1]].references, chain[i]);
    }
  }

  lemma ChainReaches(entries: Entries, chain: seq<string>)
    requires IsChain(entries, chain)
    ensures Reaches(RefGraph(entries), chain[0], chain[|chain| - 1])
  {
    ChainIsPath(entries, chain);
  }

  /** The last component of one of the references begins with this hash. */
  ghost predicate BeginsWith(references: seq<string>, hash: string) {
    IsNixHash(hash) && exists ref :: ref in references && hash <= Base(ref)
  }

  lemma FollowedIff(ref: string, hash: string)
    ensures hash != "" && GetHashFromPath(ref) == hash <==> IsNixHash(hash) && hash <= Base(ref)
  {
  }

  /** The collector follows a reference exactly when its last component begins with a Nix hash, and to there. */
  lemma EdgeIff(references: seq<string>, hash: string)
    ensures hash in RefHashes(references) <==> BeginsWith(references, hash)
  {
    if hash in RefHashes(references) {
      var ref :| ref in references && GetHashFromPath(ref) != "" && GetHashFromPath(ref) == hash;
      FollowedIff(ref, hash);
    }
    if BeginsWith(references, hash) {
      var ref :| ref in references && hash <= Base(ref);
      FollowedIff(ref, hash);
    }
  }

  // ----- how long a root holds -----

  lemma UnixIsSeconds(t: Time)
    ensures Unix(t) * 1_000_000_000 <= t < (Unix(t) + 1) * 1_000_000_000
  {
  }

  /** A root holds for ever, or until more whole seconds than its time to live have passed since it was pinned. */
  predicate Holds(root: GCRoot, now: Time) {
    root.ttl <= 0 || Unix(now) - Unix(root.pinnedAt) <= root.ttl
  }

  /** A sweep reports exactly the roots that no longer hold, and drops them. */
  lemma RootExpiresIff(ix: Snapshot, pol: Policy, r: Result, h: string)
    requires IsSweep(ix, pol, r) && h in ix.roots
    ensures h in r.expiredRoots <==> !Holds(ix.roots[h], pol.now)
    ensures h in Applied(ix, r).roots <==> Holds(ix.roots[h], pol.now)
  {
    var kept, order :| IsSweepWith(ix, pol, r, kept, order);
    assert h in r.expiredRoots <==> h in Elems(r.expiredRoots);
  }

  /** In nanoseconds: a root holds for at least its time to live, and for less than a second longer. */
  lemma RootLasts(ix: Snapshot, pol: Policy, r: Result, h: string)
    requires IsSweep(ix, pol, r) && h in ix.roots
    ensures var age, ttl := pol.now - ix.roots[h].pinnedAt, ix.roots[h].ttl;
      && (ttl <= 0 || age <= ttl * 1_000_000_000 ==> h !in r.expiredRoots)
      && (ttl > 0 && age >= (ttl + 1) * 1_000_000_000 ==> h in r.expiredRoots)
  {
    UnixIsSeconds(pol.now);
    UnixIsSeconds(ix.roots[h].pinnedAt);
    RootExpiresIff(ix, pol, r, h);
  }

  /** What a root that holds leads to through references stays. */
  lemma RootKeepsChain(ix: Snapshot, pol: Policy, r: Result, chain: seq<string>)
    requires IsSweep(ix, pol, r) && IsChain(ix.entries, chain)
    requires chain[0] in ix.roots && Holds(ix.roots[chain[0]], pol.now)
    ensures chain[|chain| - 1] in Applied(ix, r).entries
    ensures chain[0] in Applied(ix, r).roots
  {
    var kept, order :| IsSweepWith(ix, pol, r, kept, order);
    var first, last := chain[0], chain[|chain| - 1];
    RootExpiresIff(ix, pol, r, first);
    assert first in ActiveRoots(ix, pol.now);
    ChainReaches(ix.entries, chain);
    assert last in Live(ix, pol.now);
    SweepIsSafe(ix, pol, r);
    assert last !in Elems(r.evictedKeys);
  }

  /** A path that is pinned stays, with all it refers to, in every sweep until its time to live is over. */
  lemma PinnedStays(ix: Snapshot, root: GCRoot, pol: Policy, r: Result, chain: seq<string>)
    requires IsChain(ix.entries, chain)
    requires IsSweep(Snapshot(ix.entries, ix.roots[chain[0] := root]), pol, r)
    requires root.ttl <= 0 || pol.now - root.pinnedAt <= root.ttl * 1_000_000_000
    ensures chain[|chain| - 1] !in r.evictedKeys && chain[0] !in r.evictedKeys && chain[0] !in r.expiredRoots
  {
    var pinned := Snapshot(ix.entries, ix.roots[chain[0] := root]);
    RootLasts(pinned, pol, r, chain[0]);
    RootExpiresIff(pinned, pol, r, chain[0]);
    RootKeepsChain(pinned, pol, r, chain);
    RootKeepsChain(pinned, pol, r, chain[..1]);
  }

  // ----- evictions -----

  /** Evicting a path takes along everything that refers to it, directly or through others. */
  lemma DependentsGo(ix: Snapshot, targets: set<string>, r: Result, chain: seq<string>)
    requires IsCascade(ix, targets, r) && IsChain(ix.entries, chain) && chain[|chain| - 1] in targets
    ensures chain[0] in r.evictedKeys && chain[0] !in Applied(ix, r).roots
  {
    ChainReaches(ix.entries, chain);
    assert chain[|chain| - 1] in Closure(RefGraph(ix.entries), {chain[0]}) * targets;
    TraversalsAgree(ix.entries, targets, chain[0]);
    assert chain[0] in Elems(r.evictedKeys);
    CascadeLeavesNothingDangling(ix, targets, r);
  }

  /** And nothing else: an entry stays if it is not asked for and none of its references begins with the hash of
      something evicted. */
  lemma OthersStay(ix: Snapshot, targets: set<string>, r: Result, h: string)
    requires IsCascade(ix, targets, r) && h in ix.entries && h !in targets
    requires forall e | e in r.evictedKeys :: !BeginsWith(ix.entries[h].references, e)
    ensures h in Applied(ix, r).entries
  {
    var back := Transposed(RefGraph(ix.entries));
    forall e | e in Closure(back, targets) && e in back ensures h !in back[e] {
      assert e in Elems(r.evictedKeys);
      if h in back[e] {
        EdgeIff(ix.entries[h].references, e);
      }
    }
    ClosureWithout(back, targets, h);
    assert h !in Elems(r.evictedKeys);
  }

  lemma ClosureWithout(g: Graph, from: set<string>, h: string)
    requires h !in from && forall e | e in Closure(g, from) && e in g :: h !in g[e]
    ensures h !in Closure(g, from)
  {
    ClosureIsClosed(g, from);
    ClosureContainsStarts(g, from);
    ClosureIsLeast(g, from, Closure(g, from) - {h});
  }

  // ----- what a sweep leaves and takes -----

  /** An entry uploaded within the grace period stays. */
  lemma FreshStays(ix: Snapshot, pol: Policy, r: Result, h: string)
    requires IsSweep(ix, pol, r) && h in ix.entries && pol.now - ix.entries[h].uploadedAt < pol.gracePeriod
    ensures h in Applied(ix, r).entries
  {
    SweepIsSafe(ix, pol, r);
    assert h in InGracePeriod(ix.entries, pol);
    assert h !in Elems(r.evictedKeys);
  }

  /** The grace period of the entry is over, and no root that holds leads to it. */
  ghost predicate Collectable(ix: Snapshot, pol: Policy, h: string) {
    && h in ix.entries && pol.now - ix.entries[h].uploadedAt >= pol.gracePeriod
    && forall root | root in ix.roots && Holds(ix.roots[root], pol.now) :: !Reaches(RefGraph(ix.entries), root, h)
  }

  lemma CollectableIsUnprotected(ix: Snapshot, pol: Policy, h: string)
    ensures Collectable(ix, pol, h) <==> h in Unprotected(ix, pol)
  {
    var active := ActiveRoots(ix, pol.now);
    assert forall root :: root in active <==> root in ix.roots && Holds(ix.roots[root], pol.now);
    assert h in Live(ix, pol.now) <==>
      h in ix.entries && exists root :: root in active && Reaches(RefGraph(ix.entries), root, h);
  }

  /** Without a byte limit and without versions to keep, a sweep takes exactly what can be collected. */
  lemma UnlimitedSweepTakesIff(ix: Snapshot, pol: Policy, r: Result, h: string)
    requires IsSweep(ix, pol, r) && pol.maxSize <= 0 && pol.keepVersions <= 0
    ensures h in r.evictedKeys <==> Collectable(ix, pol, h)
  {
    var kept, order :| IsSweepWith(ix, pol, r, kept, order);
    CollectableIsUnprotected(ix, pol, h);
    KeptIsEmptyIff(ix, pol, kept);
    EverythingTaken(ix, pol, r, kept, order);
    assert h in r.evictedKeys <==> h in Elems(r.evictedKeys);
  }

  /** What of the package of `h` can be collected. */
  ghost function Versions(ix: Snapshot, pol: Policy, h: string): set<string>
    requires h in ix.entries
  {
    set k | k in ix.entries && Collectable(ix, pol, k) &&
      pol.basePackageName(ix.entries[k].name) == pol.basePackageName(ix.entries[h].name)
  }

  lemma VersionsAreGroup(ix: Snapshot, pol: Policy, h: string)
    requires h in ix.entries
    ensures Versions(ix, pol, h) ==
      VersionGroup(ix.entries, pol, Unprotected(ix, pol), pol.basePackageName(ix.entries[h].name))
  {
    forall k ensures Collectable(ix, pol, k) <==> k in Unprotected(ix, pol) {
      CollectableIsUnprotected(ix, pol, k);
    }
  }

  /** An entry is evicted only if as many versions of its package as are to be kept stay, none of them uploaded
      before it, or if the package has no more versions than that. */
  lemma NewerVersionsStay(ix: Snapshot, pol: Policy, r: Result, h: string) returns (stay: set<string>)
    requires IsSweep(ix, pol, r) && h in r.evictedKeys && h in ix.entries
    requires 0 < pol.keepVersions < |Versions(ix, pol, h)|
    ensures |stay| == pol.keepVersions && stay <= Versions(ix, pol, h)
    ensures forall k | k in stay ::
      k in Applied(ix, r).entries && ix.entries[k].uploadedAt >= ix.entries[h].uploadedAt
  {
    var kept, order :| IsSweepWith(ix, pol, r, kept, order);
    VersionsAreGroup(ix, pol, h);
    EvictedIsUnprotected(ix, pol, r, kept, order);
    var base := pol.basePackageName(ix.entries[h].name);
    var versions := VersionGroup(ix.entries, pol, Unprotected(ix, pol), base);
    assert KeepsNewest(ix.entries, pol.keepVersions, versions, kept);
    stay := versions * kept;
    assert h in Elems(r.evictedKeys);
    assert h in versions - kept;
    forall k | k in stay ensures k in Applied(ix, r).entries {
      assert k !in Elems(r.evictedKeys);
    }
  }

  /** Store objects called `base-1.2` and `base-1.3` are versions of one package, whatever `base` is. */
  lemma SamePackage(ix: Snapshot, pol: Policy, h: string, k: string, base: string, version: string, other: string)
    requires pol.basePackageName == PackageOf && h in ix.entries && Collectable(ix, pol, k)
    requires ix.entries[h].name == base + "-" + version && SureVersion(version) && Free(version, {'-'})
    requires ix.entries[k].name == base + "-" + other && SureVersion(other) && Free(other, {'-'})
    ensures k in Versions(ix, pol, h)
  {
    VersionsShareBase(base, version);
    VersionsShareBase(base, other);
  }

  /** If something that could be collected stays although it was used before something that is evicted, then it
      is among the newest versions of a package that has more versions than are to be kept. */
  lemma LeastRecentlyUsedFirst(ix: Snapshot, pol: Policy, r: Result, gone: string, stays: string)
    requires IsSweep(ix, pol, r) && gone in r.evictedKeys && gone in ix.entries
    requires Collectable(ix, pol, stays) && stays !in r.evictedKeys
    requires ix.entries[stays].lastUsed < ix.entries[gone].lastUsed
    ensures 0 < pol.keepVersions < |Versions(ix, pol, stays)|
    ensures |set k | k in Versions(ix, pol, stays) && ix.entries[k].uploadedAt > ix.entries[stays].uploadedAt| <
      pol.keepVersions
  {
    var kept, order :| IsSweepWith(ix, pol, r, kept, order);
    CollectableIsUnprotected(ix, pol, stays);
    VersionsAreGroup(ix, pol, stays);
    if stays !in kept {
      assert stays in Elems(order) && gone in Elems(r.evictedKeys);
      OrderedEviction(ix, r, order, gone, stays);
      assert false;
    }
    var base := pol.basePackageName(ix.entries[stays].name);
    var versions := VersionGroup(ix.entries, pol, Unprotected(ix, pol), base);
    assert KeepsNewest(ix.entries, pol.keepVersions, versions, kept);
    assert stays in versions * kept;
    NewerAreKept(ix.entries, pol.keepVersions, versions, kept, stays);
  }

  lemma OrderedEviction(ix: Snapshot, r: Result, order: seq<string>, gone: string, stays: string)
    requires IsLruOrder(ix.entries, Elems(order), order)
    requires |r.evictedKeys| <= |order| && r.evictedKeys == order[..|r.evictedKeys|]
    requires gone in r.evictedKeys && stays in order && stays !in r.evictedKeys
    ensures gone in Elems(order) && stays in Elems(order)
    ensures ix.entries[gone].lastUsed <= ix.entries[stays].lastUsed
  {
    var n := |r.evictedKeys|;
    var i :| 0 <= i < n && r.evictedKeys[i] == gone;
    forall k | 0 <= k < n ensures order[k] in r.evictedKeys {
      assert r.evictedKeys[k] == order[k];
    }
    var j :| 0 <= j < |order| && order[j] == stays;
    assert order[i] == gone;
  }

  lemma NewerAreKept(entries: Entries, n: int, versions: set<string>, kept: set<string>, h: string)
    requires versions <= entries.Keys && KeepsNewest(entries, n, versions, kept) && h in versions * kept
    ensures 0 < n < |versions|
    ensures |set k | k in versions && entries[k].uploadedAt > entries[h].uploadedAt| < n
  {
    var newer := set k | k in versions && entries[k].uploadedAt > entries[h].uploadedAt;
    assert newer <= versions * kept - {h};
    SubsetIsSmaller(newer, versions * kept - {h});
  }

  lemma {:induction false} SubsetIsSmaller(a: set<string>, b: set<string>)
    requires a <= b
    ensures |a| <= |b|
  {
    if a != b {
      SmallerSet(a, b);
    }
  }

  // ----- indexes of version 1 -----

  /** What a sweep sees of an index that was stored by version 1: its entries and the roots it listed. */
  function Migrated(stored: Snapshot, gcRootsV1: seq<string>, now: Time): Snapshot {
    Snapshot(UpgradedEntries(stored.entries), UpgradedRoots(stored.roots, gcRootsV1, now))
  }

  /** A path that version 1 listed as a root is pinned for ever. */
  lemma MigratedRootStays(stored: Snapshot, gcRootsV1: seq<string>, now: Time, pol: Policy, r: Result,
                          chain: seq<string>)
    requires IsSweep(Migrated(stored, gcRootsV1, now), pol, r)
    requires IsChain(UpgradedEntries(stored.entries), chain) && chain[0] in gcRootsV1 && chain[0] !in stored.roots
    ensures chain[|chain| - 1] !in r.evictedKeys && chain[0] !in r.expiredRoots
  {
    var ix := Migrated(stored, gcRootsV1, now);
    RootExpiresIff(ix, pol, r, chain[0]);
    RootKeepsChain(ix, pol, r, chain);
  }

  /** The grace period of an entry that has no time of upload is counted from when it was added. */
  lemma MigratedGrace(stored: Snapshot, gcRootsV1: seq<string>, now: Time, pol: Policy, r: Result, h: string)
    requires IsSweep(Migrated(stored, gcRootsV1, now), pol, r)
    requires h in stored.entries && stored.entries[h].uploadedAt == ZERO_TIME
    ensures pol.now - stored.entries[h].added < pol.gracePeriod ==> h !in r.evictedKeys
    ensures Collectable(Migrated(stored, gcRootsV1, now), pol, h) ==>
      pol.now - stored.entries[h].added >= pol.gracePeriod
  {
    if pol.now - stored.entries[h].added < pol.gracePeriod {
      FreshStays(Migrated(stored, gcRootsV1, now), pol, r, h);
    }
  }

  /** And it is evicted as if it had been used last when it was added. */
  lemma MigratedOrder(stored: Snapshot, gcRootsV1: seq<string>, now: Time, pol: Policy, r: Result, gone: string,
                      stays: string)
    requires IsSweep(Migrated(stored, gcRootsV1, now), pol, r) && pol.keepVersions <= 0
    requires gone in stored.entries && stored.entries[gone].lastUsed == ZERO_TIME && gone in r.evictedKeys
    requires stays in stored.entries && stored.entries[stays].lastUsed == ZERO_TIME && stays !in r.evictedKeys
    requires Collectable(Migrated(stored, gcRootsV1, now), pol, stays)
    ensures stored.entries[gone].added <= stored.entries[stays].added
  {
    if stored.entries[stays].added < stored.entries[gone].added {
      LeastRecentlyUsedFirst(Migrated(stored, gcRootsV1, now), pol, r, gone, stays);
    }
  }

  /** Nothing else about an entry changes, save that references are looked up in its narinfo text if it lists
      none. */
  lemma MigrationKeeps(stored: Entries, h: string)
    requires h in stored
    ensures h in UpgradedEntries(stored)
    ensures var before, after := stored[h], UpgradedEntries(stored)[h];
      && after.name == before.name && after.narInfo == before.narInfo && after.narDigest == before.narDigest
      && after.narSize == before.narSize && after.added == before.added
      && (before.lastUsed != ZERO_TIME ==> after.lastUsed == before.lastUsed)
      && (before.uploadedAt != ZERO_TIME ==> after.uploadedAt == before.uploadedAt)
      && (before.references != [] ==> after.references == before.references)
  {
  }
}
