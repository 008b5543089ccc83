/** What the commands do by themselves is among the runs of the protocol: the methods of the publisher, of the
    repair command and of the collector, each alone on a registry, end in a state that steps of one writer, or
    of the collector, lead to. */
module ProtocolRefinements {
  import opened Wrappers
  import opened StorePaths
  import opened CacheIndexes
  import opened GcSpec
  import GcRunner
  import opened Registries
  import opened Repairs
  import opened Publishers
  import opened Protocols
  import opened ProtocolRuns

  /** The step is the collector's, or the given writer's. */
  predicate By(actor: Option<nat>, a: Action) {
    if a.GcStart? || a.GcPush? || a.GcDelete? || a.GcEnd? then actor.None? else actor == Some(a.p)
  }

  /** Steps of one actor lead from `s` to `s'`. */
  ghost predicate Leads(s: System, actor: Option<nat>, s': System) {
    exists actions :: (forall a | a in actions :: By(actor, a)) && After(s, actions) == s'
  }

  lemma LeadsNowhere(s: System, actor: Option<nat>)
    ensures Leads(s, actor, s)
  {
    assert After(s, []) == s;
  }

  lemma LeadsBeyond(s: System, actor: Option<nat>, s1: System, s2: System)
    requires Leads(s, actor, s1) && Leads(s1, actor, s2)
    ensures Leads(s, actor, s2)
  {
    var first :| (forall a | a in first :: By(actor, a)) && After(s, first) == s1;
    var second :| (forall a | a in second :: By(actor, a)) && After(s1, second) == s2;
    AfterBoth(s, first, second);
    assert forall a | a in first + second :: By(actor, a);
  }

  lemma LeadsOn(s: System, actor: Option<nat>, s1: System, a: Action)
    requires Leads(s, actor, s1) && By(actor, a)
    ensures Leads(s, actor, Next(s1, a))
  {
    AfterStep(s1, a, []);
    assert After(s1, [a] + []) == Next(s1, a);
    assert forall b | b in [a] + [] :: By(actor, b);
    LeadsBeyond(s, actor, s1, Next(s1, a));
  }

  lemma SafeIfLed(s: System, actor: Option<nat>, s': System)
    requires Safe(s) && Leads(s, actor, s')
    ensures Safe(s')
  {
    var actions :| (forall a | a in actions :: By(actor, a)) && After(s, actions) == s';
    SafeAlways(s, actions);
  }

  /** Only writer `p` and the registry have moved. */
  predicate OthersStay(s: System, p: nat, s': System) {
    s'.writers - {p} == s.writers - {p} && s'.collector == s.collector
  }

  // ----- the diff -----

  /** Writer `p` may go on uploading, having tagged `results`. */
  predicate Uploads(s: System, p: nat, results: seq<UploadResult>) {
    p in s.writers && s.writers[p].Uploading? && s.writers[p].stored == {} && s.writers[p].results == results
  }

  /** Repairing the paths of `todo` makes `index` of the copy. */
  ghost predicate Repairable(r: State, local: Snapshot, index: Snapshot, todo: set<string>, now: Time) {
    && local.roots == index.roots && index.entries.Keys == local.entries.Keys + todo && local.entries.Keys !! todo
    && (forall h | h in local.entries :: local.entries[h] == index.entries[h])
    && forall h | h in todo :: IsNixHash(h) && HasLive(r, h) && index.entries[h] == ItemFrom(r.manifests[h], now)
  }

  ghost predicate MayRepair(s: System, p: nat, index: Snapshot, todo: set<string>, now: Time) {
    p in s.writers && s.writers[p].Diffing? && Repairable(s.server, s.writers[p].local, index, todo, now)
  }

  lemma RepairOneMore(s: System, p: nat, h: string, index: Snapshot, todo: set<string>, now: Time)
    returns (s': System)
    requires MayRepair(s, p, index, todo, now) && h in todo
    ensures Leads(s, Some(p), s') && s'.server == s.server && OthersStay(s, p, s')
    ensures MayRepair(s', p, index, todo - {h}, now) && s'.writers[p].repaired
  {
    var w := s.writers[p];
    LeadsNowhere(s, Some(p));
    LeadsOn(s, Some(p), s, Repair(p, h, now));
    RepairNext(s, p, h, now);
    OneLessToRepair(s.server, w.local, index, todo, h, now);
    s' := SetWriter(s, p, HavingRebuilt(s.server, w, h, now));
  }

  /** The writer with the entry of `h`. */
  function HavingRebuilt(r: State, w: Writer, h: string, now: Time): Writer
    requires w.Diffing? && HasLive(r, h)
  {
    var local := Snapshot(w.local.entries[h := ItemFrom(r.manifests[h], now)], w.local.roots);
    Diffing(local, w.fetchedAt, w.head, w.headAt, true)
  }

  lemma RepairNext(s: System, p: nat, h: string, now: Time)
    requires p in s.writers && s.writers[p].Diffing? && h !in s.writers[p].local.entries
    requires IsNixHash(h) && HasLive(s.server, h)
    ensures Next(s, Repair(p, h, now)) == SetWriter(s, p, HavingRebuilt(s.server, s.writers[p], h, now))
  {
  }

  lemma OneLessToRepair(r: State, local: Snapshot, index: Snapshot, todo: set<string>, h: string, now: Time)
    requires Repairable(r, local, index, todo, now) && h in todo
    ensures HasLive(r, h)
    ensures var local' := Snapshot(local.entries[h := ItemFrom(r.manifests[h], now)], local.roots);
      Repairable(r, local', index, todo - {h}, now)
  {
  }

  lemma {:induction false} RepairsLead(s: System, p: nat, index: Snapshot, todo: set<string>, now: Time)
    returns (s': System)
    requires MayRepair(s, p, index, todo, now)
    ensures Leads(s, Some(p), s') && s'.server == s.server && OthersStay(s, p, s')
    ensures MayRepair(s', p, index, {}, now)
    ensures s'.writers[p].repaired <==> s.writers[p].repaired || todo != {}
    decreases |todo|
  {
    if todo == {} {
      LeadsNowhere(s, Some(p));
      return s;
    }
    var h :| h in todo;
    var s1 := RepairOneMore(s, p, h, index, todo, now);
    s' := RepairsLead(s1, p, index, todo - {h}, now);
    LeadsBeyond(s, Some(p), s1, s');
  }

  lemma NothingToRepair(r: State, local: Snapshot, index: Snapshot, now: Time)
    requires Repairable(r, local, index, {}, now)
    ensures local == index
  {
    assert local.entries == index.entries;
  }

  lemma StartLeads(s: System, p: nat, index: Snapshot, now: Time) returns (s': System)
    requires p !in s.writers && s.collector.Idle? && IsRecovery(s.server, index, now)
    ensures Leads(s, Some(p), s') && s'.server == s.server && OthersStay(s, p, s')
    ensures MayRepair(s', p, index, index.entries.Keys - CurrentIndex(s.server).entries.Keys, now)
    ensures !s'.writers[p].repaired
  {
    LeadsNowhere(s, Some(p));
    LeadsOn(s, Some(p), s, Start(p));
    LeadsOn(s, Some(p), Next(s, Start(p)), Head(p, true));
    HeadNext(s, p);
    s' := Headed(s, p);
  }

  /** From the start of a writer to the end of a diff that finds `index`. */
  lemma DiffLeads(s: System, p: nat, index: Snapshot, now: Time) returns (s': System)
    requires p !in s.writers && s.collector.Idle? && IsRecovery(s.server, index, now)
    ensures Leads(s, Some(p), s') && s'.server == Diffed(s.server, index) && OthersStay(s, p, s')
    ensures Uploads(s', p, [])
  {
    var s2 := StartLeads(s, p, index, now);
    var todo := index.entries.Keys - CurrentIndex(s.server).entries.Keys;
    var s3 := RepairsLead(s2, p, index, todo, now);
    LeadsBeyond(s, Some(p), s2, s3);
    LeadsOn(s, Some(p), s3, EndDiff(p));
    NothingLeft(CurrentIndex(s.server).entries.Keys, index.entries.Keys);
    s' := DiffEnds(s3, p, index, now);
  }

  lemma DiffEnds(s: System, p: nat, index: Snapshot, now: Time) returns (s': System)
    requires MayRepair(s, p, index, {}, now)
    requires s.writers[p].repaired <==> index.entries.Keys != CurrentIndex(s.server).entries.Keys
    ensures s' == Next(s, EndDiff(p)) && s'.server == Diffed(s.server, index) && OthersStay(s, p, s')
    ensures Uploads(s', p, [])
  {
    NothingToRepair(s.server, s.writers[p].local, index, now);
    s' := Next(s, EndDiff(p));
  }

  lemma NothingLeft(a: set<string>, b: set<string>)
    requires a <= b
    ensures b - a == {} <==> b == a
  {
    if b - a == {} {
      forall x | x in b ensures x in a {
        assert x !in b - a;
      }
    }
  }

  // ----- the uploads -----

  lemma SupplyOneMore(s: System, p: nat, results: seq<UploadResult>, res: UploadResult) returns (s': System)
    requires Uploads(s, p, results) && Publishable(res)
    ensures Leads(s, Some(p), s') && s'.server == Supplied(s.server, res) && OthersStay(s, p, s')
    ensures Uploads(s', p, results + [res])
  {
    LeadsNowhere(s, Some(p));
    LeadsOn(s, Some(p), s, Store(p, res));
    LeadsOn(s, Some(p), Next(s, Store(p, res)), Tag(p, res));
    s' := SupplyNext(s, p, results, res);
  }

  lemma SupplyNext(s: System, p: nat, results: seq<UploadResult>, res: UploadResult) returns (s': System)
    requires Uploads(s, p, results) && Publishable(res)
    ensures s' == Next(Next(s, Store(p, res)), Tag(p, res)) && s'.server == Supplied(s.server, res)
    ensures OthersStay(s, p, s') && Uploads(s', p, results + [res])
  {
    var s1 := Next(s, Store(p, res));
    assert s1.writers[p].stored == {res};
    s' := Next(s1, Tag(p, res));
  }

  lemma {:induction false} SuppliesLead(s: System, p: nat, results: seq<UploadResult>) returns (s': System)
    requires Uploads(s, p, []) && forall res | res in results :: Publishable(res)
    ensures Leads(s, Some(p), s') && s'.server == AllSupplied(s.server, results) && OthersStay(s, p, s')
    ensures Uploads(s', p, results)
    decreases |results|
  {
    LeadsNowhere(s, Some(p));
    if results == [] {
      return s;
    }
    var front, last := results[..|results| - 1], results[|results| - 1];
    assert results == front + [last];
    var s1 := SuppliesLead(s, p, front);
    s' := SupplyOneMore(s1, p, front, last);
    LeadsBeyond(s, Some(p), s1, s');
  }

  /** An upload of the archive with the given hash. */
  function Carrier(hex: string): UploadResult {
    Sample('0').(digest := SHA256_PREFIX + hex)
  }

  lemma CarrierIsPublishable(hex: string)
    requires IsSha256Hex(hex)
    ensures Publishable(Carrier(hex)) && BareHex(Carrier(hex).digest) == hex
  {
    assert NIX_ALPHABET[0] == '0';
    SampleIsPublishable('0');
    DigestIsCanonical(hex);
  }

  lemma StoreOneMore(s: System, p: nat, res: UploadResult) returns (s': System)
    requires p in s.writers && s.writers[p].Uploading? && Publishable(res)
    ensures Leads(s, Some(p), s') && s'.server == Stocked(s.server, {BareHex(res.digest)}) && OthersStay(s, p, s')
    ensures p in s'.writers && s'.writers[p].Uploading?
  {
    LeadsNowhere(s, Some(p));
    LeadsOn(s, Some(p), s, Store(p, res));
    s' := Next(s, Store(p, res));
  }

  lemma StockedTwice(r: State, hex: string, hexes: set<string>)
    requires hex in hexes
    ensures Stocked(Stocked(r, {hex}), hexes - {hex}) == Stocked(r, hexes)
  {
    assert (r.blobs + {hex}) + (hexes - {hex}) == r.blobs + hexes;
  }

  lemma {:induction false} ArchivesLead(s: System, p: nat, hexes: set<string>) returns (s': System)
    requires p in s.writers && s.writers[p].Uploading? && forall hex | hex in hexes :: IsSha256Hex(hex)
    ensures Leads(s, Some(p), s') && s'.server == Stocked(s.server, hexes) && OthersStay(s, p, s') && p in s'.writers
    decreases |hexes|
  {
    if hexes == {} {
      LeadsNowhere(s, Some(p));
      return s;
    }
    var hex :| hex in hexes;
    CarrierIsPublishable(hex);
    var s1 := StoreOneMore(s, p, Carrier(hex));
    s' := ArchivesLead(s1, p, hexes - {hex});
    StockedTwice(s.server, hex, hexes);
    LeadsBeyond(s, Some(p), s1, s');
  }

  lemma UploadsLead(s: System, p: nat, r': State, results: seq<UploadResult>, stored: set<string>)
    returns (s': System)
    requires Uploads(s, p, []) && UploadsTo(s.server, r', results, stored)
    ensures Leads(s, Some(p), s') && s'.server == r' && OthersStay(s, p, s') && p in s'.writers
    ensures stored == {} ==> Uploads(s', p, results)
  {
    var s1 := SuppliesLead(s, p, results);
    s' := s1;
    if stored != {} {
      s' := ArchivesLead(s1, p, stored);
      LeadsBeyond(s, Some(p), s1, s');
    }
  }

  // ----- the merge, and the whole -----

  lemma MergeLeads(s: System, p: nat, results: seq<UploadResult>, now: Time) returns (s': System)
    requires Uploads(s, p, results) && results != []
    ensures Leads(s, Some(p), s') && s'.server == Merged(s.server, CurrentIndex(s.server), results, now)
    ensures OthersStay(s, p, s') && p !in s'.writers
  {
    var s1 := Next(s, MergeHead(p, false));
    var s2 := Next(s1, Refetch(p));
    LeadsNowhere(s, Some(p));
    LeadsOn(s, Some(p), s, MergeHead(p, false));
    LeadsOn(s, Some(p), s1, Refetch(p));
    LeadsOn(s, Some(p), s2, Merge(p, now));
    s' := Next(s2, Merge(p, now));
  }

  lemma LeaveLeads(s: System, p: nat, s1: System) returns (s': System)
    requires p !in s.writers && Leads(s, Some(p), s1) && OthersStay(s, p, s1)
    ensures Leads(s, Some(p), s') && s'.server == s1.server && s'.writers == s.writers && s'.collector == s.collector
  {
    LeadsOn(s, Some(p), s1, Leave(p));
    s' := Next(s1, Leave(p));
    assert s'.writers == s1.writers - {p} && s.writers == s.writers - {p};
  }

  /** What `PublishToRegistry` does to a registry that nobody else writes to, successful or not, a writer of
      the protocol can do; so from a state that is safe it leads to one that is. */
  lemma PublicationIsRun(s: System, p: nat, r': State, now: Time) returns (s': System)
    requires p !in s.writers && s.collector.Idle? && IsPublication(s.server, r', now)
    ensures Leads(s, Some(p), s') && s' == s.(server := r', deleted := s'.deleted)
    ensures Safe(s) ==> Safe(s')
  {
    if r' == s.server {
      LeadsNowhere(s, Some(p));
      s' := s;
    } else {
      var index, uploaded, results, stored :| IsRun(s.server, r', index, uploaded, results, stored, now);
      var s1 := DiffLeads(s, p, index, now);
      var s2 := UploadsLead(s1, p, uploaded, results, stored);
      LeadsBeyond(s, Some(p), s1, s2);
      var s3 := s2;
      if r' != uploaded {
        s3 := MergeLeads(s2, p, results, now);
        LeadsBeyond(s, Some(p), s2, s3);
      }
      s' := LeaveLeads(s, p, s3);
    }
    if Safe(s) {
      SafeIfLed(s, Some(p), s');
    }
  }

  // ----- the repair command -----

  lemma RepairedIsRecovery(r: State, skipped: set<string>, now: Time)
    ensures IsRecovery(r, RepairedIndex(r, skipped, now), now)
  {
  }

  /** The same of the repair command, however it ends. */
  lemma RepairIsRun(s: System, p: nat, r': State, shaky: set<string>, dryRun: bool, outcome: Repairs.Outcome,
                    unreachable: set<string>, now: Time)
    returns (s': System)
    requires p !in s.writers && s.collector.Idle? && IsRepair(s.server, r', shaky, dryRun, outcome, unreachable, now)
    ensures Leads(s, Some(p), s') && s' == s.(server := r', deleted := s'.deleted)
    ensures Safe(s) ==> Safe(s')
  {
    assert r' == s.server || r' == WithRepair(s.server, unreachable, now);
    var index := RepairedIndex(s.server, unreachable, now);
    RepairedIsRecovery(s.server, unreachable, now);
    UploadsNothing(r');
    if r' != s.server {
      assert AllMissing(s.server, unreachable) != {};
      assert r' == Diffed(s.server, index);
      assert IsRun(s.server, r', index, r', [], {}, now);
    }
    s' := PublicationIsRun(s, p, r', now);
  }

  // ----- the collector -----

  lemma {:induction false} PruningLeads(s: System, r': State, keys: set<string>) returns (s': System)
    requires s.collector.Pruning? && keys <= s.collector.evicted && GcRunner.Pruned(s.server, r', keys)
    ensures Leads(s, None, s') && s'.server == r' && s'.writers == s.writers && s'.collector == s.collector
    decreases |keys|
  {
    LeadsNowhere(s, None);
    if keys == {} {
      assert r'.manifests == s.server.manifests;
      return s;
    }
    var tag :| tag in keys;
    var s1 := s;
    if tag !in r'.manifests || r'.manifests[tag] == TOMBSTONE {
      var bury := tag in r'.manifests;
      s1 := Next(s, GcDelete(tag, bury));
      LeadsOn(s, None, s, GcDelete(tag, bury));
    }
    s' := PruningLeads(s1, r', keys - {tag});
    LeadsBeyond(s, None, s1, s');
  }

  /** The result a run has pushed. */
  lemma PushedResult(runner: GcRunner.Runner, r: State, r': State, maxSize: int, targets: seq<string>, now: Time,
                     outcome: GcRunner.Outcome)
    returns (result: Result, physicalSweep: bool)
    requires runner.IsOutcome(r, r', maxSize, targets, now, outcome) && r' != r
    ensures (set k | k in result.evictedKeys) <= CurrentIndex(r).entries.Keys
    ensures GcRunner.IsRun(r, r', result, physicalSweep)
  {
    result, physicalSweep := GcRunner.DecidedResult(runner, r, r', maxSize, targets, now, outcome);
    assert AccountsFor(CurrentIndex(r).entries, result);
  }

  /** What a collection run does to a registry without writers, however it ends, the collector of the
      protocol can do. */
  lemma CollectionIsRun(s: System, runner: GcRunner.Runner, r': State, maxSize: int, targets: seq<string>, now: Time,
                        outcome: GcRunner.Outcome)
    returns (s': System)
    requires s.writers == map[] && s.collector.Idle?
    requires runner.IsOutcome(s.server, r', maxSize, targets, now, outcome)
    ensures Leads(s, None, s') && s' == s.(server := r', deleted := s'.deleted)
    ensures Safe(s) ==> Safe(s')
  {
    if r' == s.server {
      LeadsNowhere(s, None);
      s' := s;
    } else {
      var result, physicalSweep := PushedResult(runner, s.server, r', maxSize, targets, now, outcome);
      s' := CollectingLeads(s, r', result, physicalSweep);
    }
    if Safe(s) {
      SafeIfLed(s, None, s');
    }
  }

  lemma CollectingLeads(s: System, r': State, result: Result, physicalSweep: bool) returns (s': System)
    requires s.writers == map[] && s.collector.Idle?
    requires (set k | k in result.evictedKeys) <= CurrentIndex(s.server).entries.Keys
    requires GcRunner.IsRun(s.server, r', result, physicalSweep)
    ensures Leads(s, None, s') && s' == s.(server := r', deleted := s'.deleted)
  {
    var s2 := Committed(s, result);
    CommitLeads(s, result);
    var s3 := PruningLeads(s2, r', if physicalSweep then Elems(result.evictedKeys) else {});
    LeadsBeyond(s, None, s2, s3);
    LeadsOn(s, None, s3, GcEnd);
    s' := Next(s3, GcEnd);
  }

  /** The collector has pushed the index with the result applied. */
  function Committed(s: System, result: Result): System {
    System(Pushed(s.server, Applied(CurrentIndex(s.server), result)), s.writers,
           Pruning(set k | k in result.evictedKeys), s.deleted)
  }

  lemma CommitLeads(s: System, result: Result)
    requires s.writers == map[] && s.collector.Idle?
    requires (set k | k in result.evictedKeys) <= CurrentIndex(s.server).entries.Keys
    ensures Leads(s, None, Committed(s, result))
  {
    LeadsNowhere(s, None);
    LeadsOn(s, None, s, GcStart);
    LeadsOn(s, None, Next(s, GcStart), GcPush(result));
    CommitNext(s, result);
  }

  lemma CommitNext(s: System, result: Result)
    requires s.writers == map[] && s.collector.Idle?
    requires (set k | k in result.evictedKeys) <= CurrentIndex(s.server).entries.Keys
    ensures Next(Next(s, GcStart), GcPush(result)) == Committed(s, result)
  {
  }
}
