/** Runs of the protocol that lose something, and what it takes for them: a push inside one of a writer's
    two windows, or a collection run beside a writer. */
module ProtocolRuns {
  import opened Wrappers
  import opened StorePaths
  import opened CacheIndexes
  import opened GcSpec
  import opened GcTheorems
  import opened Registries
  import opened Repairs
  import opened Publishers
  import opened Protocols
  import opened ProtocolLosses

  lemma {:induction false} AfterBoth(s: System, first: seq<Action>, second: seq<Action>)
    ensures After(s, first + second) == After(After(s, first), second)
    decreases |first|
  {
    if first == [] {
      assert first + second == second;
    } else {
      assert (first + second)[1..] == first[1..] + second;
      AfterBoth(Next(s, first[0]), first[1..], second);
    }
  }

  lemma AfterStep(s: System, a: Action, rest: seq<Action>)
    ensures After(s, [a] + rest) == After(Next(s, a), rest)
  {
    assert ([a] + rest)[1..] == rest;
  }

  // ----- pieces of runs -----

  /** Writer 1 repairs the entry of `tag`, from start to end. */
  function RepairRun(tag: string, now: Time): seq<Action> {
    [Start(1)] + ([Head(1, true)] + ([Repair(1, tag, now)] + ([EndDiff(1)] + [])))
  }

  /** Writer 1 pins. */
  function PinRun(roots: map<string, GCRoot>): seq<Action> {
    [Start(1)] + ([Pin(1, roots)] + [])
  }

  /** Writer 2 uploads `res`, up to its second look at the index. */
  function UploadRun(res: UploadResult): seq<Action> {
    [EndDiff(2)] + ([Store(2, res)] + ([Tag(2, res)] + ([MergeHead(2, true)] + [])))
  }

  /** What writer 2 does once it has fetched the index. */
  function PublishRun(res: UploadResult, now: Time): seq<Action> {
    [Head(2, true)] + (UploadRun(res) + [Merge(2, now)])
  }

  /** The states differ in their pushes, the tag `tag` and the blobs at most. */
  ghost predicate SameTagsBut(r: State, r': State, tag: string) {
    forall t | t != tag :: HasLive(r', t) <==> HasLive(r, t)
  }

  /** Writer `p` has fetched the index and asked for its digest. */
  function Headed(s: System, p: nat): System {
    var n := |s.server.pushes|;
    SetWriter(s, p, Diffing(CurrentIndex(s.server), n, IndexDigest(s.server), n, false))
  }

  /** And it has rebuilt the entry of `tag`. */
  function Repairing(s: System, p: nat, tag: string, now: Time): System
    requires HasLive(s.server, tag)
  {
    var index, n := CurrentIndex(s.server), |s.server.pushes|;
    var repaired := Snapshot(index.entries[tag := ItemFrom(s.server.manifests[tag], now)], index.roots);
    SetWriter(s, p, Diffing(repaired, n, IndexDigest(s.server), n, true))
  }

  lemma HeadNext(s: System, p: nat)
    requires p !in s.writers && s.collector.Idle?
    ensures Next(Next(s, Start(p)), Head(p, true)) == Headed(s, p)
  {
  }

  lemma AfterHead(s: System, p: nat, rest: seq<Action>)
    requires p !in s.writers && s.collector.Idle?
    ensures After(s, [Start(p)] + ([Head(p, true)] + rest)) == After(Headed(s, p), rest)
  {
    AfterStep(s, Start(p), [Head(p, true)] + rest);
    AfterStep(Next(s, Start(p)), Head(p, true), rest);
    HeadNext(s, p);
  }

  lemma RepairingNext(s: System, p: nat, tag: string, now: Time)
    requires IsNixHash(tag) && HasLive(s.server, tag) && tag !in CurrentIndex(s.server).entries
    ensures Next(Headed(s, p), Repair(p, tag, now)) == Repairing(s, p, tag, now)
  {
  }

  lemma AfterRepairing(s: System, p: nat, tag: string, now: Time, rest: seq<Action>)
    requires p !in s.writers && s.collector.Idle? && Missing(s.server, tag)
    ensures After(s, [Start(p)] + ([Head(p, true)] + ([Repair(p, tag, now)] + rest))) ==
      After(Repairing(s, p, tag, now), rest)
  {
    AfterHead(s, p, [Repair(p, tag, now)] + rest);
    AfterStep(Headed(s, p), Repair(p, tag, now), rest);
    RepairingNext(s, p, tag, now);
  }

  lemma RepairPushes(s: System, tag: string, now: Time)
    requires 1 !in s.writers && HasLive(s.server, tag)
    ensures var repairing := Repairing(s, 1, tag, now); var s' := Next(repairing, EndDiff(1));
      && s'.server == Pushed(s.server, repairing.writers[1].local)
      && s'.writers - {1} == s.writers && s'.collector == s.collector
  {
    assert Next(Repairing(s, 1, tag, now), EndDiff(1)).writers - {1} == s.writers;
  }

  lemma AfterRepairRun(s: System, tag: string, now: Time)
    requires 1 !in s.writers && s.collector.Idle? && Missing(s.server, tag)
    ensures var s' := After(s, RepairRun(tag, now));
      && |s'.server.pushes| == |s.server.pushes| + 1 && s.server.pushes <= s'.server.pushes
      && s'.server.pushes[|s.server.pushes|].entries.Keys == CurrentIndex(s.server).entries.Keys + {tag}
      && s'.server.(pushes := s.server.pushes) == s.server
      && s'.writers - {1} == s.writers && s'.collector == s.collector
  {
    AfterRepairing(s, 1, tag, now, [EndDiff(1)] + []);
    AfterStep(Repairing(s, 1, tag, now), EndDiff(1), []);
    RepairPushes(s, tag, now);
  }

  /** What that means for writer 2. */
  lemma RepairedBeside(s: System, tag: string, now: Time)
    requires 1 !in s.writers && 2 in s.writers && s.collector.Idle? && Missing(s.server, tag)
    ensures var s' := After(s, RepairRun(tag, now));
      && 2 in s'.writers && s'.writers[2] == s.writers[2] && s'.collector.Idle?
      && |s'.server.pushes| == |s.server.pushes| + 1 && tag in CurrentIndex(s'.server).entries
  {
    AfterRepairRun(s, tag, now);
    var s' := After(s, RepairRun(tag, now));
    assert 2 in s'.writers - {1};
    assert tag in s'.server.pushes[|s.server.pushes|].entries;
  }

  lemma AfterPinRun(s: System, roots: map<string, GCRoot>)
    requires 1 !in s.writers && s.collector.Idle?
    ensures var s' := After(s, PinRun(roots));
      && s'.server == Pushed(s.server, Snapshot(CurrentIndex(s.server).entries, CurrentIndex(s.server).roots + roots))
      && s'.writers == s.writers && s'.collector == s.collector
  {
    var s1 := Next(s, Start(1));
    AfterStep(s, Start(1), [Pin(1, roots)] + []);
    AfterStep(s1, Pin(1, roots), []);
    assert Next(s1, Pin(1, roots)).writers == s.writers;
  }

  /** Writer 2 stores and tags one archive. */
  function WithUpload(s: System, res: UploadResult): System {
    Next(Next(s, Store(2, res)), Tag(2, res))
  }

  lemma AfterUpload(s: System, res: UploadResult, rest: seq<Action>)
    ensures After(s, [Store(2, res)] + ([Tag(2, res)] + rest)) == After(WithUpload(s, res), rest)
  {
    AfterStep(s, Store(2, res), [Tag(2, res)] + rest);
    AfterStep(Next(s, Store(2, res)), Tag(2, res), rest);
  }

  function HavingUploaded(w: Writer, res: UploadResult): Writer
    requires w.Uploading?
  {
    Uploading(w.local, w.fetchedAt, w.head, w.headAt, w.repaired, {}, [res])
  }

  lemma FirstUpload(s: System, res: UploadResult)
    requires 2 in s.writers && s.writers[2].Uploading? && s.writers[2].stored == {} && s.writers[2].results == []
    requires Publishable(res)
    ensures var s' := WithUpload(s, res);
      && s'.writers == s.writers[2 := HavingUploaded(s.writers[2], res)]
      && s'.server.pushes == s.server.pushes && s'.collector == s.collector
  {
    var s1 := Next(s, Store(2, res));
    assert s1.writers[2].stored == {res};
    assert {res} - {res} == {} && [] + [res] == [res];
    assert Next(s1, Tag(2, res)).writers[2] == HavingUploaded(s.writers[2], res);
  }

  lemma UploadKeepsTags(s: System, res: UploadResult)
    ensures SameTagsBut(s.server, WithUpload(s, res).server, res.hash)
  {
  }

  lemma AfterUploadRun(s: System, res: UploadResult)
    requires 2 in s.writers && s.writers[2].Diffing? && !s.writers[2].repaired && Publishable(res)
    requires s.writers[2].head.Some? && s.writers[2].head == IndexDigest(s.server)
    ensures var s', w := After(s, UploadRun(res)), s.writers[2];
      && s'.server.pushes == s.server.pushes
      && s'.writers == s.writers[2 := Merging(w.local, [res], true, w.fetchedAt, w.headAt, |s.server.pushes|)]
      && s'.collector == s.collector && SameTagsBut(s.server, s'.server, res.hash)
  {
    var s1 := Next(s, EndDiff(2));
    AfterStep(s, EndDiff(2), [Store(2, res)] + ([Tag(2, res)] + ([MergeHead(2, true)] + [])));
    AfterUpload(s1, res, [MergeHead(2, true)] + []);
    AfterStep(WithUpload(s1, res), MergeHead(2, true), []);
    FirstUpload(s1, res);
    UploadKeepsTags(s1, res);
    assert s1.server == s.server;
    HeadMatches(s, s1, WithUpload(s1, res), res);
  }

  lemma HeadMatches(s: System, s1: System, s2: System, res: UploadResult)
    requires 2 in s.writers && s.writers[2].Diffing? && 2 in s1.writers && s1.writers[2].Uploading?
    requires s.writers[2].head.Some? && s.writers[2].head == IndexDigest(s.server)
    requires s1 == Next(s, EndDiff(2)) && !s.writers[2].repaired
    requires s2.writers == s1.writers[2 := HavingUploaded(s1.writers[2], res)] && s2.server.pushes == s.server.pushes
    ensures var s', w := Next(s2, MergeHead(2, true)), s.writers[2];
      && s'.writers == s.writers[2 := Merging(w.local, [res], true, w.fetchedAt, w.headAt, |s.server.pushes|)]
      && s'.server == s2.server && s'.collector == s2.collector
  {
    var s', w := Next(s2, MergeHead(2, true)), s.writers[2];
    assert s'.writers[2] == Merging(w.local, [res], true, w.fetchedAt, w.headAt, |s.server.pushes|);
  }

  lemma AfterMerge(s: System, res: UploadResult, now: Time)
    requires 2 in s.writers && s.writers[2].Merging? && s.writers[2].results == [res]
    ensures var s' := After(s, [Merge(2, now)]);
      && CurrentIndex(s'.server).entries.Keys == s.writers[2].target.entries.Keys + {res.hash}
      && CurrentIndex(s'.server).roots == s.writers[2].target.roots
      && SameTagsBut(s.server, s'.server, res.hash)
  {
    assert [Merge(2, now)] == [Merge(2, now)] + [];
    AfterStep(s, Merge(2, now), []);
    AddAllKeys(s.writers[2].target.entries, [res], now);
  }

  /** A digest that is asked for later than the index is fetched vouches for an index never seen: whatever
      has been pushed in between, the writer pushes what it fetched. */
  lemma StaleCopyMerged(s: System, res: UploadResult, now: Time)
    requires 2 in s.writers && s.writers[2].Started? && s.server.pushes != [] && Publishable(res)
    ensures var s' := After(s, PublishRun(res, now));
      && CurrentIndex(s'.server).entries.Keys == s.writers[2].local.entries.Keys + {res.hash}
      && CurrentIndex(s'.server).roots == s.writers[2].local.roots
      && SameTagsBut(s.server, s'.server, res.hash)
  {
    var s1 := Next(s, Head(2, true));
    AfterStep(s, Head(2, true), UploadRun(res) + [Merge(2, now)]);
    AfterBoth(s1, UploadRun(res), [Merge(2, now)]);
    AfterUploadRun(s1, res);
    AfterMerge(After(s1, UploadRun(res)), res, now);
  }

  // ----- a push inside a window -----

  /** A registry where the runs can take place: nobody at work and an index there. */
  ghost predicate Quiescent(s: System) {
    s.writers == map[] && s.collector.Idle? && s.server.pushes != []
  }

  /** And one path that was uploaded but is not listed. */
  ghost predicate Ready(s: System, tag: string, res: UploadResult) {
    Quiescent(s) && Missing(s.server, tag) && Publishable(res) && res.hash != tag
  }

  /** Writer 1 pushes after writer 2 has fetched the index but before it asks for its digest: writer 2 takes
      the new digest for that of its old copy, and its merge drops what writer 1 added. */
  lemma LostInFirstWindow(s: System, tag: string, res: UploadResult, now: Time)
    requires Ready(s, tag, res)
    ensures var before := After(s, [Start(2)] + RepairRun(tag, now));
      var end := After(before, PublishRun(res, now));
      tag in CurrentIndex(before.server).entries && tag !in CurrentIndex(end.server).entries
  {
    var s1 := Next(s, Start(2));
    AfterStep(s, Start(2), RepairRun(tag, now));
    RepairedBeside(s1, tag, now);
    StaleCopyMerged(After(s1, RepairRun(tag, now)), res, now);
  }

  /** Writer 1 pushes after writer 2 has compared digests but before it pushes. */
  lemma LostInSecondWindow(s: System, tag: string, res: UploadResult, now: Time)
    requires Ready(s, tag, res)
    ensures var before := After(After(s, [Start(2)] + ([Head(2, true)] + UploadRun(res))), RepairRun(tag, now));
      var end := After(before, [Merge(2, now)]);
      tag in CurrentIndex(before.server).entries && tag !in CurrentIndex(end.server).entries
  {
    SecondWindowOpens(s, res);
    assert CurrentIndex(After(s, [Start(2)] + ([Head(2, true)] + UploadRun(res))).server) == CurrentIndex(s.server);
    var s1 := After(s, [Start(2)] + ([Head(2, true)] + UploadRun(res)));
    RepairedBeside(s1, tag, now);
    AfterMerge(After(s1, RepairRun(tag, now)), res, now);
  }

  lemma SecondWindowOpens(s: System, res: UploadResult)
    requires Quiescent(s) && Publishable(res)
    ensures var s' := After(s, [Start(2)] + ([Head(2, true)] + UploadRun(res)));
      && s'.writers.Keys == {2} && s'.collector.Idle? && SameTagsBut(s.server, s'.server, res.hash)
      && s'.server.pushes == s.server.pushes
      && s'.writers[2].Merging? && s'.writers[2].results == [res] && s'.writers[2].target == CurrentIndex(s.server)
  {
    AfterHead(s, 2, UploadRun(res));
    AfterUploadRun(Headed(s, 2), res);
  }

  // ----- the third window: a push with no digest compared at all -----

  /** Writer 2 fetches the index and rebuilds the entry of `a`, and before it pushes that, writer 1 pushes the
      entry of `b`. */
  function DiffOvertaken(a: string, b: string, now: Time): seq<Action> {
    [Start(2)] + ([Head(2, true)] + ([Repair(2, a, now)] + RepairRun(b, now)))
  }

  lemma AfterOvertaken(s: System, a: string, b: string, now: Time)
    requires Quiescent(s) && Missing(s.server, a) && Missing(s.server, b) && a != b
    ensures var s' := After(s, DiffOvertaken(a, b, now)); var w := Repairing(s, 2, a, now).writers[2];
      && 2 in s'.writers && s'.writers[2] == w && b !in w.local.entries
      && b in CurrentIndex(s'.server).entries && |s'.server.pushes| == |s.server.pushes| + 1
  {
    AfterRepairing(s, 2, a, now, RepairRun(b, now));
    var s1 := Repairing(s, 2, a, now);
    assert Missing(s1.server, b);
    RepairedBeside(s1, b, now);
  }

  /** Then the diff's push drops what writer 1 has pushed. */
  lemma LostInDiff(s: System, a: string, b: string, now: Time)
    requires Quiescent(s) && Missing(s.server, a) && Missing(s.server, b) && a != b
    ensures var before := After(s, DiffOvertaken(a, b, now));
      var end := After(before, [EndDiff(2)]);
      b in CurrentIndex(before.server).entries && b !in CurrentIndex(end.server).entries
  {
    AfterOvertaken(s, a, b, now);
    DiffPushes(After(s, DiffOvertaken(a, b, now)));
  }

  lemma DiffPushes(s: System)
    requires 2 in s.writers && s.writers[2].Diffing? && s.writers[2].repaired
    ensures After(s, [EndDiff(2)]) == Next(s, EndDiff(2))
    ensures CurrentIndex(Next(s, EndDiff(2)).server) == Fetched(s.writers[2].local)
  {
    assert [EndDiff(2)] == [EndDiff(2)] + [];
    AfterStep(s, EndDiff(2), []);
  }

  /** The rest of that run, up to the merge. */
  function LateUploadRun(res: UploadResult): seq<Action> {
    [Store(2, res)] + ([Tag(2, res)] + ([MergeHead(2, true)] + ([Refetch(2)] + [])))
  }

  /** When it merges, the digest has changed and all looks quiet, but `b` is not there to be kept. */
  lemma DiffLossStays(s: System, a: string, b: string, res: UploadResult, now: Time)
    requires Quiescent(s) && Missing(s.server, a) && Missing(s.server, b) && a != b
    requires Publishable(res) && res.hash != b
    ensures var end := After(After(After(s, DiffOvertaken(a, b, now)), [EndDiff(2)]), LateUploadRun(res));
      && IsPush(end, Merge(2, now)) && Quiet(end.server.pushes, end.writers[2])
      && b !in PushedBy(end, Merge(2, now)).entries
  {
    AfterOvertaken(s, a, b, now);
    DiffLossFrom(After(s, DiffOvertaken(a, b, now)), |s.server.pushes|, b, res, now);
  }

  lemma DiffLossFrom(s: System, n: nat, b: string, res: UploadResult, now: Time)
    requires 2 in s.writers && s.writers[2].Diffing? && s.writers[2].repaired && n < |s.server.pushes|
    requires s.writers[2].head == None || s.writers[2].head == Some(n)
    requires b !in s.writers[2].local.entries && Publishable(res) && res.hash != b
    ensures var end := After(After(s, [EndDiff(2)]), LateUploadRun(res));
      && IsPush(end, Merge(2, now)) && Quiet(end.server.pushes, end.writers[2])
      && b !in PushedBy(end, Merge(2, now)).entries
  {
    DiffPushes(s);
    DiffEnded(s, n);
    LateUpload(Next(s, EndDiff(2)), res, now);
  }

  lemma DiffEnded(s: System, n: nat)
    requires 2 in s.writers && s.writers[2].Diffing? && s.writers[2].repaired && n < |s.server.pushes|
    requires s.writers[2].head == None || s.writers[2].head == Some(n)
    ensures var s' := Next(s, EndDiff(2));
      && 2 in s'.writers && s'.writers[2].Uploading? && s'.writers[2].stored == {} && s'.writers[2].results == []
      && s'.writers[2].head != IndexDigest(s'.server)
  {
  }

  lemma LateUpload(s: System, res: UploadResult, now: Time)
    requires 2 in s.writers && s.writers[2].Uploading? && s.writers[2].stored == {} && s.writers[2].results == []
    requires Publishable(res) && s.writers[2].head != IndexDigest(s.server)
    ensures var s' := After(s, LateUploadRun(res));
      && IsPush(s', Merge(2, now)) && Quiet(s'.server.pushes, s'.writers[2])
      && PushedBy(s', Merge(2, now)).entries.Keys == CurrentIndex(s.server).entries.Keys + {res.hash}
  {
    var s1 := WithUpload(s, res);
    AfterLateUpload(s, res);
    FirstUpload(s, res);
    RefetchedAnew(s1, res);
    MergesCurrent(Next(Next(s1, MergeHead(2, true)), Refetch(2)), res, now);
    assert CurrentIndex(s1.server) == CurrentIndex(s.server);
  }

  lemma AfterLateUpload(s: System, res: UploadResult)
    ensures After(s, LateUploadRun(res)) == Next(Next(WithUpload(s, res), MergeHead(2, true)), Refetch(2))
  {
    var s1 := WithUpload(s, res);
    AfterUpload(s, res, [MergeHead(2, true)] + ([Refetch(2)] + []));
    AfterStep(s1, MergeHead(2, true), [Refetch(2)] + []);
    AfterStep(Next(s1, MergeHead(2, true)), Refetch(2), []);
  }

  lemma MergesCurrent(s: System, res: UploadResult, now: Time)
    requires 2 in s.writers && s.writers[2].Merging? && !s.writers[2].fast && s.writers[2].results == [res]
    requires s.writers[2].target == CurrentIndex(s.server) && s.writers[2].mergedAt == |s.server.pushes|
    ensures IsPush(s, Merge(2, now)) && Quiet(s.server.pushes, s.writers[2])
    ensures PushedBy(s, Merge(2, now)).entries.Keys == CurrentIndex(s.server).entries.Keys + {res.hash}
  {
    AddAllKeys(CurrentIndex(s.server).entries, [res], now);
  }

  lemma RefetchedAnew(s: System, res: UploadResult)
    requires 2 in s.writers && s.writers[2].Uploading? && s.writers[2].stored == {} && s.writers[2].results == [res]
    requires s.writers[2].head != IndexDigest(s.server)
    ensures var s', w := Next(Next(s, MergeHead(2, true)), Refetch(2)), s.writers[2];
      && s'.server == s.server && 2 in s'.writers
      && s'.writers[2] == Merging(CurrentIndex(s.server), [res], false, w.fetchedAt, w.headAt, |s.server.pushes|)
  {
  }

  /** Writer 2 fetches the index to pin something, and before it pushes, writer 1 pushes the entry of `b`. */
  lemma LostByPin(s: System, b: string, roots: map<string, GCRoot>, now: Time)
    requires Quiescent(s) && Missing(s.server, b)
    ensures var before := After(s, [Start(2)] + RepairRun(b, now));
      var end := After(before, [Pin(2, roots)]);
      b in CurrentIndex(before.server).entries && b !in CurrentIndex(end.server).entries
  {
    var s1 := Next(s, Start(2));
    AfterStep(s, Start(2), RepairRun(b, now));
    assert Missing(s1.server, b);
    RepairedBeside(s1, b, now);
    PinPushes(After(s1, RepairRun(b, now)), roots);
  }

  lemma PinPushes(s: System, roots: map<string, GCRoot>)
    requires 2 in s.writers && s.writers[2].Started?
    ensures CurrentIndex(After(s, [Pin(2, roots)]).server).entries == UpgradedEntries(s.writers[2].local.entries)
  {
    assert [Pin(2, roots)] == [Pin(2, roots)] + [];
    AfterStep(s, Pin(2, roots), []);
    PinNext(s, roots);
  }

  lemma PinNext(s: System, roots: map<string, GCRoot>)
    requires 2 in s.writers && s.writers[2].Started?
    ensures CurrentIndex(Next(s, Pin(2, roots)).server).entries == UpgradedEntries(s.writers[2].local.entries)
  {
  }

  /** A pin inside the first window is lost in the same way, and if it was the only root then the next sweep
      without limits evicts the path it was to keep. */
  lemma PinLostThenEvicted(s: System, h: string, root: GCRoot, res: UploadResult, now: Time, pol: Policy,
    result: Result)
    requires Quiescent(s) && CurrentIndex(s.server).roots == map[] && h in CurrentIndex(s.server).entries &&
      Publishable(res)
    requires pol.maxSize <= 0 && pol.keepVersions <= 0
    ensures var before := After(s, [Start(2)] + PinRun(map[h := root]));
      var end := After(before, PublishRun(res, now)); var ix := CurrentIndex(end.server);
      && h in CurrentIndex(before.server).roots && ix.roots == map[] && h in ix.entries
      && (IsSweep(ix, pol, result) && pol.now - ix.entries[h].uploadedAt >= pol.gracePeriod ==> h in result.evictedKeys)
  {
    PinLost(s, h, root, res, now);
    var ix := CurrentIndex(After(After(s, [Start(2)] + PinRun(map[h := root])), PublishRun(res, now)).server);
    SweptUnrooted(ix, pol, result, h);
  }

  lemma PinLost(s: System, h: string, root: GCRoot, res: UploadResult, now: Time)
    requires Quiescent(s) && CurrentIndex(s.server).roots == map[] && h in CurrentIndex(s.server).entries &&
      Publishable(res)
    ensures var before := After(s, [Start(2)] + PinRun(map[h := root]));
      var ix := CurrentIndex(After(before, PublishRun(res, now)).server);
      h in CurrentIndex(before.server).roots && ix.roots == map[] && h in ix.entries
  {
    var s1 := Next(s, Start(2));
    AfterStep(s, Start(2), PinRun(map[h := root]));
    AfterPinRun(s1, map[h := root]);
    StaleCopyMerged(After(s1, PinRun(map[h := root])), res, now);
  }

  lemma SweptUnrooted(ix: Snapshot, pol: Policy, result: Result, h: string)
    requires ix.roots == map[] && h in ix.entries && pol.maxSize <= 0 && pol.keepVersions <= 0
    ensures IsSweep(ix, pol, result) && pol.now - ix.entries[h].uploadedAt >= pol.gracePeriod ==>
      h in result.evictedKeys
  {
    if IsSweep(ix, pol, result) && pol.now - ix.entries[h].uploadedAt >= pol.gracePeriod {
      UnrootedIsEvicted(ix, pol, result, h);
    }
  }

  // ----- such registries come about -----

  /** The upload of a path with a hash of one repeated character. */
  function Sample(c: char): UploadResult {
    UploadResult(seq(32, _ => c), "", "", SHA256_PREFIX + seq(64, _ => '0'), 1, [])
  }

  lemma SampleIsPublishable(c: char)
    requires c in NIX_ALPHABET
    ensures Publishable(Sample(c))
  {
    var hex := seq(64, _ => '0');
    assert IsSha256Hex(hex) by {
      assert "0123456789abcdef"[0] == '0';
    }
    DigestIsCanonical(hex);
  }

  /** Writer 2 uploads `a` and `b` and breaks off; writer 1 repairs the entry of `a` and leaves. */
  function Broken(a: UploadResult, b: UploadResult): seq<Action> {
    [Start(2)] + ([Head(2, true)] + ([EndDiff(2)] + ([Store(2, a)] +
      ([Tag(2, a)] + ([Store(2, b)] + ([Tag(2, b)] + ([Leave(2)] + [])))))))
  }

  function Preparation(a: UploadResult, b: UploadResult, now: Time): seq<Action> {
    Broken(a, b) + (RepairRun(a.hash, now) + [Leave(1)])
  }

  lemma AfterBroken(a: UploadResult, b: UploadResult)
    requires Publishable(a) && Publishable(b)
    ensures var s := After(EMPTY, Broken(a, b));
      s.writers == map[] && s.collector.Idle? && s.server.pushes == [] && HasLive(s.server, a.hash) &&
        HasLive(s.server, b.hash)
  {
    var s1 := Next(EMPTY, Start(2));
    var s2 := Next(s1, Head(2, true));
    var s3 := Next(s2, EndDiff(2));
    AfterStep(EMPTY, Start(2), Broken(a, b)[1..]);
    AfterStep(s1, Head(2, true), Broken(a, b)[2..]);
    AfterStep(s2, EndDiff(2), Broken(a, b)[3..]);
    AfterStored(s3, a, b);
  }

  /** One upload later. */
  ghost predicate IsUpload(s: System, s': System, res: UploadResult) {
    && s'.writers.Keys == {2} && s'.writers[2].Uploading? && s'.collector == s.collector
    && s'.server.pushes == s.server.pushes && HasLive(s'.server, res.hash) && Extends(s.server, s'.server)
  }

  lemma UploadFacts(s: System, res: UploadResult)
    requires s.writers.Keys == {2} && s.writers[2].Uploading? && Publishable(res)
    ensures IsUpload(s, WithUpload(s, res), res)
  {
    var s1 := Next(s, Store(2, res));
    assert res in s1.writers[2].stored;
    StoreGrows(s.server, BareHex(res.digest));
    TagServes(s1, res);
    assert Extends(s.server, s1.server);
  }

  lemma TagServes(s: System, res: UploadResult)
    requires s.writers.Keys == {2} && s.writers[2].Uploading? && res in s.writers[2].stored && Publishable(res)
    requires BareHex(res.digest) in s.server.blobs
    ensures IsUpload(s, Next(s, Tag(2, res)), res)
  {
    TagGrows(s.server, res);
  }

  lemma AfterStored(s: System, a: UploadResult, b: UploadResult)
    requires s.writers.Keys == {2} && s.writers[2].Uploading? && s.collector.Idle? && Publishable(a) && Publishable(b)
    ensures var s' := After(s, [Store(2, a)] + ([Tag(2, a)] + ([Store(2, b)] + ([Tag(2, b)] + ([Leave(2)] + [])))));
      s'.writers == map[] && s'.collector.Idle? && s'.server.pushes == s.server.pushes
      && HasLive(s'.server, a.hash) && HasLive(s'.server, b.hash)
  {
    var s1 := WithUpload(s, a);
    AfterUpload(s, a, [Store(2, b)] + ([Tag(2, b)] + ([Leave(2)] + [])));
    AfterUpload(s1, b, [Leave(2)] + []);
    AfterStep(WithUpload(s1, b), Leave(2), []);
    UploadFacts(s, a);
    UploadFacts(s1, b);
    BothUploaded(s, s1, WithUpload(s1, b), a, b);
  }

  lemma BothUploaded(s: System, s1: System, s2: System, a: UploadResult, b: UploadResult)
    requires s.collector.Idle? && IsUpload(s, s1, a) && IsUpload(s1, s2, b)
    ensures var s' := Next(s2, Leave(2));
      s'.writers == map[] && s'.collector.Idle? && s'.server.pushes == s.server.pushes
      && HasLive(s'.server, a.hash) && HasLive(s'.server, b.hash)
  {
    assert Next(s2, Leave(2)).writers == map[];
  }

  /** From an empty registry a run leads to one that is ready for the losses above. */
  lemma ReadyIsReachable(a: UploadResult, b: UploadResult, res: UploadResult, now: Time)
    requires Publishable(a) && Publishable(b) && Publishable(res) && a.hash != b.hash && res.hash != b.hash
    ensures Ready(After(EMPTY, Preparation(a, b, now)), b.hash, res)
  {
    AfterBroken(a, b);
    AfterBoth(EMPTY, Broken(a, b), RepairRun(a.hash, now) + [Leave(1)]);
    OneRepaired(After(EMPTY, Broken(a, b)), a.hash, b.hash, res, now);
  }

  lemma OneRepaired(s: System, a: string, b: string, res: UploadResult, now: Time)
    requires s.writers == map[] && s.collector.Idle? && s.server.pushes == [] && HasLive(s.server, a) &&
      HasLive(s.server, b)
    requires IsNixHash(a) && IsNixHash(b) && Publishable(res) && a != b && res.hash != b
    ensures Ready(After(s, RepairRun(a, now) + [Leave(1)]), b, res)
  {
    AfterRepairRun(s, a, now);
    var s' := After(s, RepairRun(a, now));
    AfterBoth(s, RepairRun(a, now), [Leave(1)]);
    assert [Leave(1)] == [Leave(1)] + [];
    AfterStep(s', Leave(1), []);
    OnlyWriter(s'.writers);
    LeftReady(s, s', a, b, res);
  }

  lemma OnlyWriter(writers: map<nat, Writer>)
    requires writers - {1} == map[]
    ensures writers.Keys <= {1}
  {
    var rest := writers - {1};
    assert forall p | p in writers :: p == 1 || p in rest;
  }

  lemma LeftReady(s: System, s': System, a: string, b: string, res: UploadResult)
    requires HasLive(s.server, b) && s'.server.manifests == s.server.manifests && s'.writers.Keys <= {1} &&
      s'.collector.Idle?
    requires |s'.server.pushes| == 1 && s'.server.pushes[0].entries.Keys == {a}
    requires IsNixHash(b) && Publishable(res) && a != b && res.hash != b
    ensures Ready(Next(s', Leave(1)), b, res)
  {
    LeftAlone(s');
    assert CurrentIndex(s'.server).entries.Keys == {a};
  }

  lemma LeftAlone(s: System)
    requires s.writers.Keys <= {1}
    ensures Next(s, Leave(1)) == s.(writers := map[])
  {
    assert s.writers - {1} == map[];
  }

  /** And there are paths to do it with. */
  lemma LossFromEmpty(now: Time)
    ensures Ready(After(EMPTY, Preparation(Sample('0'), Sample('1'), now)), Sample('1').hash, Sample('2'))
  {
    SampleIsPublishable('0');
    SampleIsPublishable('1');
    SampleIsPublishable('2');
    assert Sample('0').hash[0] == '0' && Sample('1').hash[0] == '1' && Sample('2').hash[0] == '2';
    ReadyIsReachable(Sample('0'), Sample('1'), Sample('2'), now);
  }

  // ----- a collection run beside a writer -----

  /** The steps as the code allows them, with nobody seeing to it that the collector runs alone. */
  function NextUnguarded(s: System, a: Action): System {
    if Possible(s, a) then Perform(s, a) else s
  }

  function AfterUnguarded(s: System, actions: seq<Action>): System
    decreases |actions|
  {
    if actions == [] then s else AfterUnguarded(NextUnguarded(s, actions[0]), actions[1..])
  }

  lemma AfterUnguardedStep(s: System, a: Action, rest: seq<Action>)
    ensures AfterUnguarded(s, [a] + rest) == AfterUnguarded(NextUnguarded(s, a), rest)
  {
    assert ([a] + rest)[1..] == rest;
  }

  /** Only starting is guarded. */
  lemma {:induction false} UnguardedAgrees(s: System, actions: seq<Action>)
    requires forall i | 0 <= i < |actions| :: !actions[i].Start? && !actions[i].GcStart?
    ensures AfterUnguarded(s, actions) == After(s, actions)
    decreases |actions|
  {
    if actions != [] {
      assert NextUnguarded(s, actions[0]) == Next(s, actions[0]);
      UnguardedAgrees(Next(s, actions[0]), actions[1..]);
    }
  }

  /** The collector evicts what `result` says and prunes the tag `h`. */
  function CollectionRun(result: Result, h: string, bury: bool, rest: seq<Action>): seq<Action> {
    [GcStart] + ([GcPush(result)] + ([GcDelete(h, bury)] + ([GcEnd] + rest)))
  }

  function Collected(s: System, result: Result, h: string, bury: bool): System {
    s.(server := WithoutTag(Pushed(s.server, Applied(CurrentIndex(s.server), result)), h, bury),
       collector := Idle,
       deleted := s.deleted + {h})
  }

  lemma AfterCollectionRun(s: System, result: Result, h: string, bury: bool, rest: seq<Action>)
    requires s.collector.Idle? && h in result.evictedKeys
    requires (set k | k in result.evictedKeys) <= CurrentIndex(s.server).entries.Keys
    ensures AfterUnguarded(s, CollectionRun(result, h, bury, rest)) ==
      AfterUnguarded(Collected(s, result, h, bury), rest)
  {
    var s1 := s.(collector := Collecting(CurrentIndex(s.server)));
    AfterUnguardedStep(s, GcStart, [GcPush(result)] + ([GcDelete(h, bury)] + ([GcEnd] + rest)));
    AfterCollecting(s1, result, h, bury, rest);
  }

  lemma AfterCollecting(s: System, result: Result, h: string, bury: bool, rest: seq<Action>)
    requires s.collector == Collecting(CurrentIndex(s.server)) && h in result.evictedKeys
    requires (set k | k in result.evictedKeys) <= CurrentIndex(s.server).entries.Keys
    ensures AfterUnguarded(s, [GcPush(result)] + ([GcDelete(h, bury)] + ([GcEnd] + rest))) ==
      AfterUnguarded(Collected(s, result, h, bury), rest)
  {
    var s1 := s.(server := Pushed(s.server, Applied(CurrentIndex(s.server), result)),
                 collector := Pruning(set k | k in result.evictedKeys));
    AfterUnguardedStep(s, GcPush(result), [GcDelete(h, bury)] + ([GcEnd] + rest));
    assert NextUnguarded(s, GcPush(result)) == s1;
    AfterPruning(s1, h, bury, rest);
  }

  lemma AfterPruning(s: System, h: string, bury: bool, rest: seq<Action>)
    requires s.collector.Pruning? && h in s.collector.evicted
    ensures var pruned := s.(server := WithoutTag(s.server, h, bury), collector := Idle, deleted := s.deleted + {h});
      AfterUnguarded(s, [GcDelete(h, bury)] + ([GcEnd] + rest)) == AfterUnguarded(pruned, rest)
  {
    AfterUnguardedStep(s, GcDelete(h, bury), [GcEnd] + rest);
    AfterUnguardedStep(NextUnguarded(s, GcDelete(h, bury)), GcEnd, rest);
  }

  lemma CollectedIsGone(s: System, result: Result, h: string, bury: bool)
    ensures !HasLive(Collected(s, result, h, bury).server, h)
  {
    DeletionLeaves(Pushed(s.server, Applied(CurrentIndex(s.server), result)), h, bury);
  }

  /** Without that care the invariant breaks: on any sound registry with nobody at work, let a writer fetch the
      index, then let the collector run and prune an entry it evicts, and then let the writer go on.  The
      index it pushes lists the entry, whose manifest is gone. */
  lemma OverlapBreaksSoundness(s: System, result: Result, h: string, bury: bool, res: UploadResult, now: Time)
    requires Safe(s) && s.writers == map[] && s.collector.Idle?
    requires h in result.evictedKeys && (set k | k in result.evictedKeys) <= CurrentIndex(s.server).entries.Keys
    requires Publishable(res) && res.hash != h
    ensures var end := AfterUnguarded(s, [Start(2)] + CollectionRun(result, h, bury, PublishRun(res, now)));
      h in CurrentIndex(end.server).entries && !HasLive(end.server, h) && !Sound(end.server)
  {
    OverlapLeadsTo(s, result, h, bury, res, now);
    var s1 := Collected(NextUnguarded(s, Start(2)), result, h, bury);
    CollectedIsGone(NextUnguarded(s, Start(2)), result, h, bury);
    StaleCopyMerged(s1, res, now);
    NotBacked(After(s1, PublishRun(res, now)).server, h);
  }

  lemma OverlapLeadsTo(s: System, result: Result, h: string, bury: bool, res: UploadResult, now: Time)
    requires s.writers == map[] && s.collector.Idle?
    requires h in result.evictedKeys && (set k | k in result.evictedKeys) <= CurrentIndex(s.server).entries.Keys
    ensures AfterUnguarded(s, [Start(2)] + CollectionRun(result, h, bury, PublishRun(res, now))) ==
            After(Collected(NextUnguarded(s, Start(2)), result, h, bury), PublishRun(res, now))
  {
    var s1 := NextUnguarded(s, Start(2));
    AfterUnguardedStep(s, Start(2), CollectionRun(result, h, bury, PublishRun(res, now)));
    AfterCollectionRun(s1, result, h, bury, PublishRun(res, now));
    PublishRunStartsNothing(res, now);
    UnguardedAgrees(Collected(s1, result, h, bury), PublishRun(res, now));
  }

  lemma PublishRunStartsNothing(res: UploadResult, now: Time)
    ensures forall i | 0 <= i < |PublishRun(res, now)| ::
      !PublishRun(res, now)[i].Start? && !PublishRun(res, now)[i].GcStart?
  {
    assert PublishRun(res, now) == [Head(2, true), EndDiff(2), Store(2, res), Tag(2, res), MergeHead(2, true),
      Merge(2, now)];
  }

  lemma NotBacked(r: State, h: string)
    requires h in CurrentIndex(r).entries && !HasLive(r, h)
    ensures !Sound(r)
  {
    assert !Backed(r, h, CurrentIndex(r).entries[h]);
  }

  // ----- two collection runs at once -----

  /** The collector of the protocol, and another one that has started elsewhere. */
  datatype TwoCollectors = TwoCollectors(system: System, other: Collector)

  datatype TwoAction = First(a: Action) | OtherStart | OtherPush(result: Result)

  function NextOfTwo(t: TwoCollectors, a: TwoAction): TwoCollectors {
    match a
    case First(a) => t.(system := Next(t.system, a))
    case OtherStart => if t.other.Idle? then t.(other := Collecting(CurrentIndex(t.system.server))) else t
    case OtherPush(result) =>
      if t.other.Collecting? && (set k | k in result.evictedKeys) <= t.other.local.entries.Keys
      then TwoCollectors(t.system.(server := Pushed(t.system.server, Applied(t.other.local, result))),
                         Pruning(set k | k in result.evictedKeys))
      else t
  }

  function AfterTwo(t: TwoCollectors, actions: seq<TwoAction>): TwoCollectors
    decreases |actions|
  {
    if actions == [] then t else AfterTwo(NextOfTwo(t, actions[0]), actions[1..])
  }

  lemma AfterTwoStep(t: TwoCollectors, a: TwoAction, rest: seq<TwoAction>)
    ensures AfterTwo(t, [a] + rest) == AfterTwo(NextOfTwo(t, a), rest)
  {
    assert ([a] + rest)[1..] == rest;
  }

  /** The other collector fetches the index, this one evicts and prunes `h`, and the other pushes. */
  function TwoRuns(a: Result, b: Result, h: string, bury: bool): seq<TwoAction> {
    [OtherStart] + ([First(GcStart)] + ([First(GcPush(a))] + ([First(GcDelete(h, bury))] + ([OtherPush(b)] + []))))
  }

  lemma AfterTwoRuns(s: System, a: Result, b: Result, h: string, bury: bool)
    requires s.writers == map[] && s.collector.Idle?
    requires (set k | k in a.evictedKeys) <= CurrentIndex(s.server).entries.Keys && h in a.evictedKeys
    requires (set k | k in b.evictedKeys) <= CurrentIndex(s.server).entries.Keys
    ensures var index := CurrentIndex(s.server);
      AfterTwo(TwoCollectors(s, Idle), TwoRuns(a, b, h, bury)).system.server ==
      Pushed(WithoutTag(Pushed(s.server, Applied(index, a)), h, bury), Applied(index, b))
  {
    var other := Collecting(CurrentIndex(s.server));
    AfterTwoStep(TwoCollectors(s, Idle), OtherStart,
      [First(GcStart)] + ([First(GcPush(a))] + ([First(GcDelete(h, bury))] + ([OtherPush(b)] + []))));
    AfterTwoStep(TwoCollectors(s, other), First(GcStart),
      [First(GcPush(a))] + ([First(GcDelete(h, bury))] + ([OtherPush(b)] + [])));
    AfterTwoPush(s.(collector := other), a, b, h, bury);
  }

  lemma AfterTwoPush(s: System, a: Result, b: Result, h: string, bury: bool)
    requires s.collector == Collecting(CurrentIndex(s.server)) && h in a.evictedKeys
    requires (set k | k in a.evictedKeys) <= CurrentIndex(s.server).entries.Keys
    requires (set k | k in b.evictedKeys) <= CurrentIndex(s.server).entries.Keys
    ensures var index := CurrentIndex(s.server);
      AfterTwo(TwoCollectors(s, s.collector),
        [First(GcPush(a))] + ([First(GcDelete(h, bury))] + ([OtherPush(b)] + []))).system.server ==
      Pushed(WithoutTag(Pushed(s.server, Applied(index, a)), h, bury), Applied(index, b))
  {
    var s1 := s.(server := Pushed(s.server, Applied(CurrentIndex(s.server), a)),
                 collector := Pruning(set k | k in a.evictedKeys));
    assert Next(s, GcPush(a)) == s1;
    AfterTwoStep(TwoCollectors(s, s.collector), First(GcPush(a)), [First(GcDelete(h, bury))] + ([OtherPush(b)] + []));
    AfterTwoPrune(s1, s.collector, b, h, bury);
  }

  lemma AfterTwoPrune(s: System, other: Collector, b: Result, h: string, bury: bool)
    requires s.collector.Pruning? && h in s.collector.evicted
    requires other.Collecting? && (set k | k in b.evictedKeys) <= other.local.entries.Keys
    ensures AfterTwo(TwoCollectors(s, other), [First(GcDelete(h, bury))] + ([OtherPush(b)] + [])).system.server ==
      Pushed(WithoutTag(s.server, h, bury), Applied(other.local, b))
  {
    AfterTwoStep(TwoCollectors(s, other), First(GcDelete(h, bury)), [OtherPush(b)] + []);
    AfterTwoStep(TwoCollectors(Next(s, GcDelete(h, bury)), other), OtherPush(b), []);
  }

  /** On any sound registry: an entry that one collector evicts and prunes, and the other keeps, is listed
      again by the other's push, and is gone. */
  lemma TwoCollectorsBreakSoundness(s: System, a: Result, b: Result, h: string, bury: bool)
    requires Safe(s) && s.writers == map[] && s.collector.Idle?
    requires (set k | k in a.evictedKeys) <= CurrentIndex(s.server).entries.Keys && h in a.evictedKeys
    requires (set k | k in b.evictedKeys) <= CurrentIndex(s.server).entries.Keys && h !in b.evictedKeys
    ensures var end := AfterTwo(TwoCollectors(s, Idle), TwoRuns(a, b, h, bury)).system.server;
      h in CurrentIndex(end).entries && !HasLive(end, h) && !Sound(end)
  {
    AfterTwoRuns(s, a, b, h, bury);
    var index := CurrentIndex(s.server);
    DeadIsListed(Pushed(s.server, Applied(index, a)), h, bury, Applied(index, b));
  }

  lemma DeadIsListed(r: State, h: string, bury: bool, index: Snapshot)
    requires h in index.entries
    ensures var end := Pushed(WithoutTag(r, h, bury), index);
      h in CurrentIndex(end).entries && !HasLive(end, h) && !Sound(end)
  {
    var end := Pushed(WithoutTag(r, h, bury), index);
    assert CurrentIndex(end) == Fetched(index);
    NotBacked(end, h);
  }
}
