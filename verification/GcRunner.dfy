/** A garbage collection run: fetch the index, decide, commit and push, and only then prune tags. */
module GcRunner {
  import opened StorePaths
  import opened CacheIndexes
  import opened Graphs
  import opened GcSpec
  import opened GcEngine
  import opened GcTheorems
  import opened GcReadings
  import opened Registries
  import Repairs

  datatype Outcome = FetchFailed | Unchanged(result: Result) | PushFailed | Collected(result: Result)

  /** `r'` has the tags of `r` except that some of `keys` may be gone or buried. */
  ghost predicate Pruned(r: State, r': State, keys: set<string>) {
    && r'.blobs == r.blobs && r'.pushes == r.pushes
    && (forall t | t !in keys :: t in r'.manifests <==> t in r.manifests)
    && (forall t | t !in keys && t in r.manifests :: r'.manifests[t] == r.manifests[t])
    && (forall t | t in keys && t in r'.manifests ::
      r'.manifests[t] == TOMBSTONE || (t in r.manifests && r'.manifests[t] == r.manifests[t]))
  }

  /** Deleting only ever takes away: no tag becomes live or changes. */
  lemma PrunedLive(r: State, r': State, keys: set<string>, t: string)
    requires Pruned(r, r', keys)
    ensures HasLive(r', t) ==> HasLive(r, t) && r'.manifests[t] == r.manifests[t]
    ensures t !in keys && HasLive(r, t) ==> HasLive(r', t)
  {
  }

  lemma PruneOneMore(a: State, b: State, c: State, keys: set<string>, tag: string)
    requires Pruned(a, b, keys) && Pruned(b, c, {tag})
    ensures Pruned(a, c, keys + {tag})
  {
  }

  /** None of the tags names a manifest that describes an archive. */
  ghost predicate Gone(r: State, keys: set<string>) {
    forall t | t in keys :: !HasLive(r, t)
  }

  lemma GoneOneMore(r: State, r': State, keys: set<string>, shaky: set<string>, tag: string)
    requires Pruned(r, r', {tag})
    requires tag !in shaky && tag in r.manifests && IsTag(tag) ==> !HasLive(r', tag)
    requires forall t | t in r'.manifests :: t in r.manifests || IsTag(t)
    ensures WellTagged(r) && Gone(r, keys - shaky) ==> WellTagged(r') && Gone(r', keys + {tag} - shaky)
  {
    forall t | HasLive(r', t) ensures HasLive(r, t) {
      PrunedLive(r, r', {tag}, t);
    }
  }

  /** Entries that outlive the eviction keep what backs them while the evicted tags are pruned. */
  lemma PruningKeepsSound(r: State, r': State, keys: set<string>, pushed: Snapshot)
    requires Pruned(r, r', keys) && Sound(r)
    requires CurrentIndex(r) == Fetched(pushed) && pushed.entries.Keys !! keys
    ensures Sound(r')
  {
    forall t | HasLive(r', t) ensures LayerBlob(r'.manifests[t]) in r'.blobs {
      PrunedLive(r, r', keys, t);
      assert HasLive(r, t);
    }
    forall h | h in CurrentIndex(r').entries ensures Backed(r', h, CurrentIndex(r').entries[h]) {
      assert Backed(r, h, CurrentIndex(r).entries[h]);
      PrunedLive(r, r', keys, h);
    }
  }

  /** Committing an eviction leaves a part of the index. */
  lemma EvictionKeepsSound(r: State, r': State, result: Result)
    requires Sound(r) && r' == r.(pushes := r.pushes + [Applied(CurrentIndex(r), result)])
    ensures Sound(r')
  {
    forall h | h in CurrentIndex(r').entries ensures Backed(r', h, CurrentIndex(r').entries[h]) {
      assert Backed(r, h, CurrentIndex(r).entries[h]);
    }
  }

  /** The state a run leaves behind. */
  ghost predicate IsRun(r: State, r': State, result: Result, physicalSweep: bool) {
    var pushed := r.(pushes := r.pushes + [Applied(CurrentIndex(r), result)]);
    Pruned(pushed, r', if physicalSweep then Elems(result.evictedKeys) else {})
  }

  lemma RunKeepsSound(r: State, r': State, result: Result, physicalSweep: bool)
    requires Sound(r) && IsRun(r, r', result, physicalSweep)
    ensures Sound(r')
  {
    var pushed := r.(pushes := r.pushes + [Applied(CurrentIndex(r), result)]);
    EvictionKeepsSound(r, pushed, result);
    PruningKeepsSound(pushed, r', if physicalSweep then Elems(result.evictedKeys) else {},
      Applied(CurrentIndex(r), result));
  }

  /** What clients fetch after a run is the index before it with the result applied. */
  lemma RunPushesApplied(r: State, r': State, result: Result, physicalSweep: bool)
    requires IsRun(r, r', result, physicalSweep)
    ensures CurrentIndex(r') == Applied(CurrentIndex(r), result)
  {
    var applied := Applied(CurrentIndex(r), result);
    forall h | h in applied.entries ensures UpgradedItem(applied.entries[h]) == applied.entries[h] {
      assert h in CurrentIndex(r).entries;
      if r.pushes != [] {
        UpgradeIdempotent(r.pushes[|r.pushes| - 1].entries, map[], [], 0, 0);
        assert UpgradedEntries(CurrentIndex(r).entries)[h] == CurrentIndex(r).entries[h];
      }
    }
    assert UpgradedEntries(applied.entries) == applied.entries;
  }

  class Runner {
    const registry: Registry
    const gracePeriod: int
    const keepVersions: int
    const physicalSweep: bool
    const dryRun: bool
    const basePackageName: string -> string

    constructor (registry: Registry, gracePeriod: int, keepVersions: int, physicalSweep: bool, dryRun: bool,
                 basePackageName: string -> string)
      ensures this.registry == registry && this.gracePeriod == gracePeriod && this.keepVersions == keepVersions
      ensures this.physicalSweep == physicalSweep && this.dryRun == dryRun && this.basePackageName == basePackageName
    {
      this.registry, this.gracePeriod, this.keepVersions := registry, gracePeriod, keepVersions;
      this.physicalSweep, this.dryRun, this.basePackageName := physicalSweep, dryRun, basePackageName;
    }

    ghost function PolicyAt(now: Time, maxSize: int): Policy {
      Policy(now, maxSize, gracePeriod, keepVersions, basePackageName)
    }

    ghost predicate Decided(ix: Snapshot, maxSize: int, targets: seq<string>, now: Time, result: Result) {
      if targets != [] then IsCascade(ix, Elems(targets), result)
      else IsSweep(ix, PolicyAt(now, maxSize), result)
    }

    ghost predicate IsOutcome(r: State, r': State, maxSize: int, targets: seq<string>, now: Time, outcome: Outcome) {
      match outcome
      case FetchFailed => r' == r && INDEX_TAG in registry.shaky
      case Unchanged(result) =>
        r' == r && Decided(CurrentIndex(r), maxSize, targets, now, result) && (dryRun || result.evictedKeys == [])
      case PushFailed =>
        INDEX_TAG in registry.shaky && !dryRun && (r' == r || exists result ::
          Decided(CurrentIndex(r), maxSize, targets, now, result) && IsRun(r, r', result, false))
      case Collected(result) =>
        && !dryRun && Decided(CurrentIndex(r), maxSize, targets, now, result)
        && result.evictedKeys != [] && IsRun(r, r', result, physicalSweep)
        && (physicalSweep && WellTagged(r) ==> Gone(r', Elems(result.evictedKeys) - registry.shaky))
    }

    method Decide(index: CacheIndex, maxSize: int, targets: seq<string>, now: Time)
      returns (engine: Engine, result: Result)
      ensures fresh(engine) && engine.index == index
      ensures Decided(index.View(), maxSize, targets, now, result)
      ensures result.evictedCount == |result.evictedKeys|
    {
      engine := new Engine(index, gracePeriod, basePackageName);
      engine.SetKeepVersions(keepVersions);
      if |targets| > 0 {
        result := engine.CascadeEvict(targets);
      } else {
        result := engine.Sweep(now, maxSize);
      }
      assert AccountsFor(index.View().entries, result);
    }

    method Run(maxSize: int, targets: seq<string>, now: Time) returns (outcome: Outcome)
      modifies registry
      ensures IsOutcome(old(registry.state), registry.state, maxSize, targets, now, outcome)
    {
      ghost var r := registry.state;
      var fetched, index := registry.FetchIndex(now);
      if !fetched {
        return FetchFailed;
      }
      var engine, result := Decide(index, maxSize, targets, now);
      if result.evictedCount == 0 {
        return Unchanged(result);
      }
      if dryRun {
        return Unchanged(result);
      }
      var pushed := Commit(engine, result, now);
      outcome := if pushed then Collected(result) else PushFailed;
    }

    /** The index is pushed before any tag is touched. */
    method Commit(engine: Engine, result: Result, now: Time) returns (pushed: bool)
      requires engine.index.View() == CurrentIndex(registry.state)
      modifies registry, engine.index
      ensures pushed ==> IsRun(old(registry.state), registry.state, result, physicalSweep)
      ensures pushed && physicalSweep && WellTagged(old(registry.state)) ==>
        Gone(registry.state, Elems(result.evictedKeys) - registry.shaky)
      ensures !pushed ==> INDEX_TAG in registry.shaky
      ensures !pushed ==>
        registry.state == old(registry.state) || IsRun(old(registry.state), registry.state, result, false)
    {
      engine.Apply(result);
      pushed := registry.PushIndex(engine.index, now);
      if !pushed {
        return;
      }
      if physicalSweep && |result.evictedKeys| > 0 {
        PhysicalDelete(result.evictedKeys);
      }
    }

    /** Every evicted tag is tried once; failures are only reported. */
    method PhysicalDelete(keys: seq<string>)
      modifies registry
      ensures Pruned(old(registry.state), registry.state, Elems(keys))
      ensures WellTagged(old(registry.state)) ==> Gone(registry.state, Elems(keys) - registry.shaky)
    {
      for i := 0 to |keys|
        invariant Pruned(old(registry.state), registry.state, Elems(keys[..i]))
        invariant WellTagged(old(registry.state)) ==>
          WellTagged(registry.state) && Gone(registry.state, Elems(keys[..i]) - registry.shaky)
      {
        assert keys[..i + 1] == keys[..i] + [keys[i]];
        ElemsAppend(keys[..i], keys[i]);
        ghost var before := registry.state;
        var ok := registry.DeleteManifest(keys[i]);
        PruneOneMore(old(registry.state), before, registry.state, Elems(keys[..i]), keys[i]);
        GoneOneMore(before, registry.state, Elems(keys[..i]), registry.shaky, keys[i]);
      }
      assert keys[..|keys|] == keys;
    }
  }

  /** However a run ends, what the index then promises is there. */
  lemma OutcomeKeepsSound(runner: Runner, r: State, r': State, maxSize: int, targets: seq<string>, now: Time,
                          outcome: Outcome)
    requires runner.IsOutcome(r, r', maxSize, targets, now, outcome) && Sound(r)
    ensures Sound(r')
  {
    match outcome {
      case FetchFailed =>
      case Unchanged(_) =>
      case PushFailed =>
        if r' != r {
          var result :| runner.Decided(CurrentIndex(r), maxSize, targets, now, result) && IsRun(r, r', result, false);
          RunKeepsSound(r, r', result, false);
        }
      case Collected(result) =>
        RunKeepsSound(r, r', result, runner.physicalSweep);
    }
  }

  // ----- roots that stay although the run says they go -----

  /** A run without targets that gets all its answers drops the expired roots exactly when there are none, or
      there is something to evict: an unprotected entry, and an index above the limit. */
  lemma ExpiredRootsGoIff(runner: Runner, r: State, r': State, maxSize: int, now: Time, outcome: Outcome)
    requires runner.IsOutcome(r, r', maxSize, [], now, outcome)
    requires !runner.dryRun && (outcome.Unchanged? || outcome.Collected? || INDEX_TAG !in runner.registry.shaky)
    ensures var ix := CurrentIndex(r);
      var pol := Policy(now, maxSize, runner.gracePeriod, runner.keepVersions, runner.basePackageName);
      CurrentIndex(r').roots.Keys == ActiveRoots(ix, now) <==>
        || ix.roots.Keys == ActiveRoots(ix, now)
        || (Unprotected(ix, pol) != {} && !(maxSize > 0 && SumSizes(ix.entries, ix.entries.Keys) <= maxSize))
  {
    var ix := CurrentIndex(r);
    var pol := Policy(now, maxSize, runner.gracePeriod, runner.keepVersions, runner.basePackageName);
    SweepEvictsNothingIff(ix, pol, outcome.result);
    if outcome.Collected? {
      RunPushesApplied(r, r', outcome.result, runner.physicalSweep);
      RetainedRoots(ix, pol, outcome.result);
    }
  }

  /** A targeted run that gets all its answers unpins its targets exactly when none is pinned or at least one
      of them has an entry. */
  lemma TargetsUnpinnedIff(runner: Runner, r: State, r': State, maxSize: int, targets: seq<string>, now: Time,
    outcome: Outcome)
    requires runner.IsOutcome(r, r', maxSize, targets, now, outcome) && targets != []
    requires !runner.dryRun && (outcome.Unchanged? || outcome.Collected? || INDEX_TAG !in runner.registry.shaky)
    ensures CurrentIndex(r').roots.Keys !! Elems(targets) <==>
            CurrentIndex(r).roots.Keys !! Elems(targets) || !(Elems(targets) !! CurrentIndex(r).entries.Keys)
  {
    CascadeEvictsNothingIff(CurrentIndex(r), Elems(targets), outcome.result);
    if outcome.Collected? {
      RunPushesApplied(r, r', outcome.result, runner.physicalSweep);
      CascadeLeavesNothingDangling(CurrentIndex(r), Elems(targets), outcome.result);
    }
  }

  /** An index without entries, and one root, of any hash, that expired a second after it was pinned. */
  function OnlyARoot(h: string): State {
    State({}, map[], [Snapshot(map[], map[h := GCRoot(0, 1)])])
  }

  lemma NothingToEvict(result: Result)
    requires AccountsFor(map[], result)
    ensures result.evictedKeys == []
  {
    EmptyElems(result.evictedKeys);
  }

  /** Neither a sweep, which reports the root as expired, nor an eviction of the pinned path, which reports it
      as dropped, changes anything. */
  lemma RootStays(runner: Runner, h: string, r': State, maxSize: int, targets: seq<string>, now: Time, outcome: Outcome)
    requires runner.IsOutcome(OnlyARoot(h), r', maxSize, targets, now, outcome) && now >= 3 * SECOND
    requires !runner.dryRun && (outcome.Unchanged? || outcome.Collected? || INDEX_TAG !in runner.registry.shaky)
    requires targets == [] || targets == [h]
    ensures outcome.Unchanged? && h in outcome.result.expiredRoots
    ensures h in CurrentIndex(r').roots
  {
    var ix := CurrentIndex(OnlyARoot(h));
    assert ix.entries == map[];
    NothingToEvict(outcome.result);
    assert Expired(ix.roots[h], now);
    assert h in Elems(outcome.result.expiredRoots) by {
      if targets == [] {
        assert h in ix.roots.Keys - ActiveRoots(ix, now);
      } else {
        assert h in Elems(targets);
      }
    }
  }

  // ----- what a run means for whoever reads the index -----

  lemma AppliedAgrees(r: State, r': State, result: Result, physicalSweep: bool, h: string)
    requires IsRun(r, r', result, physicalSweep)
    ensures h in CurrentIndex(r').entries <==> h in CurrentIndex(r).entries && h !in result.evictedKeys
    ensures h !in result.evictedKeys && HasLive(r, h) ==> HasLive(r', h)
  {
    RunPushesApplied(r, r', result, physicalSweep);
    assert h in Elems(result.evictedKeys) <==> h in result.evictedKeys;
  }

  /** Whatever a run comes to, a path that a root leads to while it holds stays in the index, and its manifest
      stays. */
  lemma RunKeepsChain(runner: Runner, r: State, r': State, maxSize: int, now: Time, outcome: Outcome,
                      chain: seq<string>)
    requires runner.IsOutcome(r, r', maxSize, [], now, outcome)
    requires IsChain(CurrentIndex(r).entries, chain)
    requires chain[0] in CurrentIndex(r).roots && Holds(CurrentIndex(r).roots[chain[0]], now)
    ensures var h := chain[|chain| - 1];
      h in CurrentIndex(r').entries && (HasLive(r, h) ==> HasLive(r', h))
  {
    if r' != r {
      var result, physicalSweep := DecidedResult(runner, r, r', maxSize, [], now, outcome);
      RootKeepsChain(CurrentIndex(r), runner.PolicyAt(now, maxSize), result, chain);
      AppliedAgrees(r, r', result, physicalSweep, chain[|chain| - 1]);
    }
  }

  /** And so does one that was uploaded within the grace period. */
  lemma RunKeepsFresh(runner: Runner, r: State, r': State, maxSize: int, now: Time, outcome: Outcome, h: string)
    requires runner.IsOutcome(r, r', maxSize, [], now, outcome)
    requires h in CurrentIndex(r).entries && now - CurrentIndex(r).entries[h].uploadedAt < runner.gracePeriod
    ensures h in CurrentIndex(r').entries && (HasLive(r, h) ==> HasLive(r', h))
  {
    if r' != r {
      var result, physicalSweep := DecidedResult(runner, r, r', maxSize, [], now, outcome);
      FreshStays(CurrentIndex(r), runner.PolicyAt(now, maxSize), result, h);
      AppliedAgrees(r, r', result, physicalSweep, h);
    }
  }

  /** The result by which a run changed the registry. */
  lemma DecidedResult(runner: Runner, r: State, r': State, maxSize: int, targets: seq<string>, now: Time,
                      outcome: Outcome)
    returns (result: Result, physicalSweep: bool)
    requires runner.IsOutcome(r, r', maxSize, targets, now, outcome) && r' != r
    ensures runner.Decided(CurrentIndex(r), maxSize, targets, now, result) && IsRun(r, r', result, physicalSweep)
  {
    if outcome.Collected? {
      result, physicalSweep := outcome.result, runner.physicalSweep;
    } else {
      result :| runner.Decided(CurrentIndex(r), maxSize, targets, now, result) && IsRun(r, r', result, false);
      physicalSweep := false;
    }
  }

  /** A run that gets its answers leaves exactly what is not collectable, when neither bytes nor versions are
      limited; a dry run leaves everything. */
  lemma RunLeavesIff(runner: Runner, r: State, r': State, maxSize: int, now: Time, outcome: Outcome, h: string)
    requires runner.IsOutcome(r, r', maxSize, [], now, outcome)
    requires INDEX_TAG !in runner.registry.shaky && maxSize <= 0 && runner.keepVersions <= 0
    ensures h in CurrentIndex(r').entries <==>
      && h in CurrentIndex(r).entries
      && (runner.dryRun || !Collectable(CurrentIndex(r), runner.PolicyAt(now, maxSize), h))
  {
    UnlimitedSweepTakesIff(CurrentIndex(r), runner.PolicyAt(now, maxSize), outcome.result, h);
    if outcome.Collected? {
      AppliedAgrees(r, r', outcome.result, runner.physicalSweep, h);
    }
  }

  /** A targeted run that gets its answers leaves nothing that refers to a target, directly or through others;
      what neither is a target nor refers to anything that went stays. */
  lemma TargetedRunTakes(runner: Runner, r: State, r': State, maxSize: int, targets: seq<string>, now: Time,
                         outcome: Outcome, chain: seq<string>)
    requires runner.IsOutcome(r, r', maxSize, targets, now, outcome)
    requires INDEX_TAG !in runner.registry.shaky && !runner.dryRun
    requires IsChain(CurrentIndex(r).entries, chain) && chain[|chain| - 1] in targets
    ensures chain[0] !in CurrentIndex(r').entries && chain[0] !in CurrentIndex(r').roots
  {
    DependentsGo(CurrentIndex(r), Elems(targets), outcome.result, chain);
    assert outcome.Collected?;
    AppliedAgrees(r, r', outcome.result, runner.physicalSweep, chain[0]);
    RunPushesApplied(r, r', outcome.result, runner.physicalSweep);
  }

  lemma TargetedRunLeaves(runner: Runner, r: State, r': State, maxSize: int, targets: seq<string>, now: Time,
                          outcome: Outcome, h: string)
    requires runner.IsOutcome(r, r', maxSize, targets, now, outcome) && targets != []
    requires h in CurrentIndex(r).entries && h !in targets
    requires forall e | BeginsWith(CurrentIndex(r).entries[h].references, e) :: e in CurrentIndex(r').entries
    ensures h in CurrentIndex(r').entries && (HasLive(r, h) ==> HasLive(r', h))
  {
    if r' != r {
      var result, physicalSweep := DecidedResult(runner, r, r', maxSize, targets, now, outcome);
      forall e | e in result.evictedKeys ensures !BeginsWith(CurrentIndex(r).entries[h].references, e) {
        AppliedAgrees(r, r', result, physicalSweep, e);
      }
      OthersStay(CurrentIndex(r), Elems(targets), result, h);
      AppliedAgrees(r, r', result, physicalSweep, h);
    }
  }

  /** With pruning on, what a run evicts is gone from index and registry alike, and no repair brings it back,
      unless the registry was shaky about its tag. */
  lemma EvictedStaysGone(runner: Runner, r: State, r': State, maxSize: int, targets: seq<string>, now: Time,
                         outcome: Outcome, h: string, r'': State, shaky: set<string>, dryRun: bool,
                         repair: Repairs.Outcome, unreachable: set<string>, later: Time)
    requires runner.IsOutcome(r, r', maxSize, targets, now, outcome) && outcome.Collected? && WellTagged(r)
    requires runner.physicalSweep && h in outcome.result.evictedKeys && h !in runner.registry.shaky
    requires Repairs.IsRepair(r', r'', shaky, dryRun, repair, unreachable, later)
    ensures h !in CurrentIndex(r').entries && !HasLive(r', h)
    ensures h !in CurrentIndex(r'').entries
  {
    AppliedAgrees(r, r', outcome.result, runner.physicalSweep, h);
    assert h in Elems(outcome.result.evictedKeys) - runner.registry.shaky;
    NotRevived(r', r'', shaky, dryRun, repair, unreachable, later, h);
  }

  lemma NotRevived(r: State, r': State, shaky: set<string>, dryRun: bool, repair: Repairs.Outcome,
                   unreachable: set<string>, later: Time, h: string)
    requires Repairs.IsRepair(r, r', shaky, dryRun, repair, unreachable, later)
    requires h !in CurrentIndex(r).entries && !HasLive(r, h)
    ensures h !in CurrentIndex(r').entries
  {
    if r' != r {
      assert CurrentIndex(r') == Fetched(Repairs.RepairedIndex(r, unreachable, later));
    }
  }
}
