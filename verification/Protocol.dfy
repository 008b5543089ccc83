/** Any number of writers and one garbage collector on one registry, interleaved step by step.

    A writer's steps are its requests; a step that is not possible in a state leaves it unchanged, so
    every sequence of actions is an interleaving.  `index repair` is a writer that leaves after the
    diff, and `index pin` one that fetches the index, adds roots and pushes it.  A writer may leave, by
    crashing or otherwise, before any step. */
module Protocols {
  import opened Wrappers
  import opened StorePaths
  import opened CacheIndexes
  import opened GcSpec
  import opened Registries
  import opened Repairs
  import opened Publishers

  /** How far a writer is.  The numbers `fetchedAt`, `headAt` and `mergedAt` are how many indexes had been
      pushed when it fetched the index, asked for its digest, and asked again before merging; no step
      depends on them. */
  datatype Writer =
    | Started(local: Snapshot, fetchedAt: nat)
    | Diffing(local: Snapshot, fetchedAt: nat, head: Option<nat>, headAt: nat, repaired: bool)
    | Uploading(local: Snapshot, fetchedAt: nat, head: Option<nat>, headAt: nat, repaired: bool,
                stored: set<UploadResult>, results: seq<UploadResult>)
    | Refetching(results: seq<UploadResult>, fetchedAt: nat, headAt: nat, mergedAt: nat)
    | Merging(target: Snapshot, results: seq<UploadResult>, fast: bool, fetchedAt: nat, headAt: nat, mergedAt: nat)

  datatype Collector = Idle | Collecting(local: Snapshot) | Pruning(evicted: set<string>)

  /** `deleted` holds the tags the collector has removed or buried and nobody has pushed again since. */
  datatype System = System(server: State, writers: map<nat, Writer>, collector: Collector, deleted: set<string>)

  datatype Action =
    | Start(p: nat)
    | Head(p: nat, reached: bool)
    | Repair(p: nat, tag: string, now: Time)
    | EndDiff(p: nat)
    | Store(p: nat, res: UploadResult)
    | Tag(p: nat, res: UploadResult)
    | MergeHead(p: nat, reached: bool)
    | Refetch(p: nat)
    | Merge(p: nat, now: Time)
    | Pin(p: nat, roots: map<string, GCRoot>)
    | Leave(p: nat)
    | GcStart
    | GcPush(result: Result)
    | GcDelete(tag: string, bury: bool)
    | GcEnd

  /** What the code itself demands before a step. */
  predicate Possible(s: System, a: Action) {
    match a
    case Start(p) => p !in s.writers
    case Head(p, _) => p in s.writers && s.writers[p].Started?
    case Repair(p, tag, _) =>
      && p in s.writers && s.writers[p].Diffing? && tag !in s.writers[p].local.entries
      && IsNixHash(tag) && HasLive(s.server, tag)
    case EndDiff(p) => p in s.writers && s.writers[p].Diffing?
    case Store(p, res) => p in s.writers && s.writers[p].Uploading? && Publishable(res)
    case Tag(p, res) => p in s.writers && s.writers[p].Uploading? && res in s.writers[p].stored
    case MergeHead(p, _) => p in s.writers && s.writers[p].Uploading? && s.writers[p].stored == {} &&
      s.writers[p].results != []
    case Refetch(p) => p in s.writers && s.writers[p].Refetching?
    case Merge(p, _) => p in s.writers && s.writers[p].Merging?
    case Pin(p, _) => p in s.writers && s.writers[p].Started?
    case Leave(p) => p in s.writers
    case GcStart => s.collector.Idle?
    case GcPush(result) => s.collector.Collecting? &&
      (set k | k in result.evictedKeys) <= s.collector.local.entries.Keys
    case GcDelete(tag, _) => s.collector.Pruning? && tag in s.collector.evicted
    case GcEnd => true
  }

  /** And what its users must see to: that no writer runs beside the collector. */
  predicate Enabled(s: System, a: Action) {
    && Possible(s, a)
    && (a.Start? ==> s.collector.Idle?)
    && (a.GcStart? ==> s.writers == map[])
  }

  /** The tag is gone, or overwritten by a tombstone. */
  function WithoutTag(r: State, tag: string, bury: bool): State {
    r.(manifests := if bury then r.manifests[tag := TOMBSTONE] else r.manifests - {tag})
  }

  function SetWriter(s: System, p: nat, w: Writer): System {
    s.(writers := s.writers[p := w])
  }

  function MergedIndex(w: Writer, now: Time): Snapshot
    requires w.Merging?
  {
    Snapshot(AddAll(w.target.entries, w.results, now), w.target.roots)
  }

  function Perform(s: System, a: Action): System
    requires Possible(s, a)
  {
    match a
    case Start(p) => SetWriter(s, p, Started(CurrentIndex(s.server), |s.server.pushes|))
    case Head(p, reached) =>
      var w := s.writers[p];
      SetWriter(s, p, Diffing(w.local, w.fetchedAt, if reached then IndexDigest(s.server) else None,
        |s.server.pushes|, false))
    case Repair(p, tag, now) =>
      var w := s.writers[p];
      var entries := w.local.entries[tag := ItemFrom(s.server.manifests[tag], now)];
      SetWriter(s, p, Diffing(Snapshot(entries, w.local.roots), w.fetchedAt, w.head, w.headAt, true))
    case EndDiff(p) =>
      var w := s.writers[p];
      SetWriter(s.(server := if w.repaired then Pushed(s.server, w.local) else s.server), p,
                Uploading(w.local, w.fetchedAt, w.head, w.headAt, w.repaired, {}, []))
    case Store(p, res) =>
      var w := s.writers[p];
      SetWriter(s.(server := s.server.(blobs := s.server.blobs + {BareHex(res.digest)})), p,
        w.(stored := w.stored + {res}))
    case Tag(p, res) =>
      var w := s.writers[p];
      SetWriter(s.(server := s.server.(manifests := s.server.manifests[res.hash := ManifestOf(res)]),
        deleted := s.deleted - {res.hash}),
                p, w.(stored := w.stored - {res}, results := w.results + [res]))
    case MergeHead(p, reached) =>
      var w := s.writers[p];
      var digest := if reached then IndexDigest(s.server) else None;
      SetWriter(s, p,
                if digest.Some? && digest == w.head
                then Merging(w.local, w.results, true, w.fetchedAt, w.headAt, |s.server.pushes|)
                else Refetching(w.results, w.fetchedAt, w.headAt, |s.server.pushes|))
    case Refetch(p) =>
      var w := s.writers[p];
      SetWriter(s, p, Merging(CurrentIndex(s.server), w.results, false, w.fetchedAt, w.headAt, w.mergedAt))
    case Merge(p, now) =>
      s.(server := Pushed(s.server, MergedIndex(s.writers[p], now)), writers := s.writers - {p})
    case Pin(p, roots) =>
      var local := s.writers[p].local;
      s.(server := Pushed(s.server, Snapshot(local.entries, local.roots + roots)), writers := s.writers - {p})
    case Leave(p) => s.(writers := s.writers - {p})
    case GcStart => s.(collector := Collecting(CurrentIndex(s.server)))
    case GcPush(result) =>
      s.(server := Pushed(s.server, Applied(s.collector.local, result)),
         collector := Pruning(set k | k in result.evictedKeys))
    case GcDelete(tag, bury) =>
      s.(server := WithoutTag(s.server, tag, bury),
         deleted := s.deleted + {tag})
    case GcEnd => s.(collector := Idle)
  }

  function Next(s: System, a: Action): System {
    if Enabled(s, a) then Perform(s, a) else s
  }

  function After(s: System, actions: seq<Action>): System
    decreases |actions|
  {
    if actions == [] then s else After(Next(s, actions[0]), actions[1..])
  }

  // ----- what every interleaving keeps -----

  ghost predicate NixKeys(entries: Entries) {
    forall h | h in entries :: IsNixHash(h)
  }

  /** A copy of the index that may be pushed: every entry can be served. */
  ghost predicate Trusted(r: State, index: Snapshot) {
    AllBacked(r, index.entries) && NixKeys(index.entries)
  }

  ghost predicate ResultsStand(r: State, results: seq<UploadResult>) {
    forall res | res in results :: Publishable(res) && IsUploaded(r, res)
  }

  ghost predicate WriterStands(r: State, w: Writer) {
    match w
    case Started(local, _) => Trusted(r, local)
    case Diffing(local, _, _, _, _) => Trusted(r, local)
    case Uploading(local, _, _, _, _, stored, results) =>
      Trusted(r, local) && ResultsStand(r, results) && forall res | res in stored ::
        Publishable(res) && BareHex(res.digest) in r.blobs
    case Refetching(results, _, _, _) => ResultsStand(r, results)
    case Merging(target, results, _, _, _, _) => Trusted(r, target) && ResultsStand(r, results)
  }

  /** Every path that ever was in a pushed index is still served, unless the collector deleted it. */
  ghost predicate HistoryStands(r: State, deleted: set<string>) {
    && (forall i, h | 0 <= i < |r.pushes| && h in r.pushes[i].entries ::
      IsNixHash(h) && (HasLive(r, h) || h in deleted))
    && (forall t | t in deleted :: !HasLive(r, t))
  }

  ghost predicate CollectorStands(s: System) {
    && (!s.collector.Idle? ==> s.writers == map[])
    && (s.collector.Collecting? ==> s.collector.local == CurrentIndex(s.server))
    && (s.collector.Pruning? ==> CurrentIndex(s.server).entries.Keys !! s.collector.evicted)
    && (s.collector.Pruning? ==> forall t | t in s.collector.evicted :: IsNixHash(t))
  }

  ghost predicate Safe(s: System) {
    && Sound(s.server) && WellTagged(s.server) && NixKeys(CurrentIndex(s.server).entries)
    && HistoryStands(s.server, s.deleted) && CollectorStands(s)
    && forall p | p in s.writers :: WriterStands(s.server, s.writers[p])
  }

  lemma WriterStandsInExtension(r: State, r': State, w: Writer)
    requires Extends(r, r') && WriterStands(r, w)
    ensures WriterStands(r', w)
  {
    match w {
      case Started(local, _) => BackedInExtension(r, r', local.entries);
      case Diffing(local, _, _, _, _) => BackedInExtension(r, r', local.entries);
      case Uploading(local, _, _, _, _, stored, results) => BackedInExtension(r, r', local.entries);
      case Refetching(results, _, _, _) =>
      case Merging(target, results, _, _, _, _) => BackedInExtension(r, r', target.entries);
    }
  }

  lemma FetchIsTrusted(r: State)
    requires Sound(r) && NixKeys(CurrentIndex(r).entries)
    ensures Trusted(r, CurrentIndex(r))
  {
  }

  /** Pushing a trusted index. */
  lemma PushKeeps(s: System, index: Snapshot)
    requires Safe(s) && Trusted(s.server, index)
    ensures var r' := Pushed(s.server, index);
      && Sound(r') && NixKeys(CurrentIndex(r').entries) && HistoryStands(r', s.deleted)
      && forall p | p in s.writers :: WriterStands(r', s.writers[p])
  {
    var r' := Pushed(s.server, index);
    assert AllBacked(r', index.entries);
    FetchedIsBacked(r', index);
    assert CurrentIndex(r') == Fetched(index);
    forall i, h | 0 <= i < |r'.pushes| && h in r'.pushes[i].entries
      ensures IsNixHash(h) && (HasLive(r', h) || h in s.deleted)
    {
      if i == |s.server.pushes| {
        assert Backed(r', h, index.entries[h]);
      } else {
        assert h in s.server.pushes[i].entries;
      }
    }
    forall t | t in s.deleted ensures !HasLive(r', t) {
      assert !HasLive(s.server, t);
    }
    forall p | p in s.writers ensures WriterStands(r', s.writers[p]) {
      WriterStandsInExtension(s.server, r', s.writers[p]);
    }
  }

  /** More archives, or a live manifest for a stored archive. */
  lemma GrowthKeeps(s: System, r': State, deleted: set<string>)
    requires Safe(s) && Grown(s.server, r') && deleted <= s.deleted
    requires forall t | t in deleted :: !HasLive(r', t)
    requires forall t | t in s.deleted - deleted :: HasLive(r', t)
    ensures Sound(r') && NixKeys(CurrentIndex(r').entries) && HistoryStands(r', deleted)
    ensures forall p | p in s.writers :: WriterStands(r', s.writers[p])
  {
    assert CurrentIndex(r') == CurrentIndex(s.server);
    BackedInExtension(s.server, r', CurrentIndex(r').entries);
    forall i, h | 0 <= i < |r'.pushes| && h in r'.pushes[i].entries
      ensures IsNixHash(h) && (HasLive(r', h) || h in deleted)
    {
      assert h in s.server.pushes[i].entries;
    }
    forall p | p in s.writers ensures WriterStands(r', s.writers[p]) {
      WriterStandsInExtension(s.server, r', s.writers[p]);
    }
  }

  /** One writer moves on, and everyone's claims hold of the new server. */
  lemma WriterMoves(s: System, s': System, p: nat, w: Writer)
    requires Safe(s) && p in s.writers
    requires s'.writers == s.writers[p := w] && s'.collector == s.collector
    requires Sound(s'.server) && WellTagged(s'.server) && NixKeys(CurrentIndex(s'.server).entries) &&
      HistoryStands(s'.server, s'.deleted)
    requires WriterStands(s'.server, w) && forall q | q in s.writers :: WriterStands(s'.server, s.writers[q])
    ensures Safe(s')
  {
  }

  lemma RepairStepIsSafe(s: System, p: nat, tag: string, now: Time)
    requires Safe(s) && Enabled(s, Repair(p, tag, now))
    ensures Safe(Perform(s, Repair(p, tag, now)))
  {
    var w, w' := s.writers[p], Perform(s, Repair(p, tag, now)).writers[p];
    var item := ItemFrom(s.server.manifests[tag], now);
    assert item.narDigest == LayerBlob(s.server.manifests[tag]);
    forall h | h in w'.local.entries ensures Backed(s.server, h, w'.local.entries[h]) {
      assert h != tag ==> Backed(s.server, h, w.local.entries[h]);
    }
    assert WriterStands(s.server, w');
  }

  lemma EndDiffStepIsSafe(s: System, p: nat)
    requires Safe(s) && Enabled(s, EndDiff(p))
    ensures Safe(Perform(s, EndDiff(p)))
  {
    var w, s' := s.writers[p], Perform(s, EndDiff(p));
    assert WriterStands(s.server, w);
    if w.repaired {
      PushKeeps(s, w.local);
    }
    WriterStandsInExtension(s.server, s'.server, w);
    WriterMoves(s, s', p, s'.writers[p]);
  }

  lemma MergeStepIsSafe(s: System, p: nat, now: Time)
    requires Safe(s) && Enabled(s, Merge(p, now))
    ensures Safe(Perform(s, Merge(p, now)))
  {
    var w := s.writers[p];
    assert WriterStands(s.server, w);
    MergeIsBacked(s.server, w.target.entries, w.results, now);
    AddAllKeys(w.target.entries, w.results, now);
    PushKeeps(s, MergedIndex(w, now));
  }

  lemma PinStepIsSafe(s: System, p: nat, roots: map<string, GCRoot>)
    requires Safe(s) && Enabled(s, Pin(p, roots))
    ensures Safe(Perform(s, Pin(p, roots)))
  {
    var local := s.writers[p].local;
    assert WriterStands(s.server, s.writers[p]);
    PushKeeps(s, Snapshot(local.entries, local.roots + roots));
  }

  lemma StoreGrows(r: State, hex: string)
    ensures Grown(r, r.(blobs := r.blobs + {hex}))
    ensures forall t :: HasLive(r.(blobs := r.blobs + {hex}), t) == HasLive(r, t)
  {
  }

  lemma StoreStepIsSafe(s: System, p: nat, res: UploadResult)
    requires Safe(s) && Enabled(s, Store(p, res))
    ensures Safe(Perform(s, Store(p, res)))
  {
    var s' := Perform(s, Store(p, res));
    StoreGrows(s.server, BareHex(res.digest));
    GrowthKeeps(s, s'.server, s.deleted);
    StoredStands(s'.server, s.writers[p], res);
    WriterMoves(s, s', p, s'.writers[p]);
  }

  lemma StoredStands(r: State, w: Writer, res: UploadResult)
    requires w.Uploading? && WriterStands(r, w) && Publishable(res) && BareHex(res.digest) in r.blobs
    ensures WriterStands(r, w.(stored := w.stored + {res}))
  {
  }

  lemma TaggedStands(r: State, w: Writer, res: UploadResult)
    requires w.Uploading? && WriterStands(r, w) && Publishable(res) && IsUploaded(r, res)
    ensures WriterStands(r, w.(stored := w.stored - {res}, results := w.results + [res]))
  {
  }

  lemma NewlyTagged(s: System, res: UploadResult, r': State)
    requires HistoryStands(s.server, s.deleted) &&
      r' == s.server.(manifests := s.server.manifests[res.hash := ManifestOf(res)])
    ensures forall t | t in s.deleted - {res.hash} :: !HasLive(r', t)
  {
    forall t | t in s.deleted - {res.hash} ensures !HasLive(r', t) {
      assert !HasLive(s.server, t);
    }
  }

  lemma TagKeepsTags(r: State, res: UploadResult)
    requires WellTagged(r) && IsNixHash(res.hash)
    ensures WellTagged(r.(manifests := r.manifests[res.hash := ManifestOf(res)]))
  {
    NixHashIsCanonical(res.hash);
  }

  lemma TagStepIsSafe(s: System, p: nat, res: UploadResult)
    requires Safe(s) && Enabled(s, Tag(p, res))
    ensures Safe(Perform(s, Tag(p, res)))
  {
    var s' := Perform(s, Tag(p, res));
    assert WriterStands(s.server, s.writers[p]);
    TagGrows(s.server, res);
    TagKeepsTags(s.server, res);
    NewlyTagged(s, res, s'.server);
    GrowthKeeps(s, s'.server, s'.deleted);
    TaggedStands(s'.server, s.writers[p], res);
    WriterMoves(s, s', p, s'.writers[p]);
  }

  lemma GcPushStepIsSafe(s: System, result: Result)
    requires Safe(s) && Enabled(s, GcPush(result))
    ensures Safe(Perform(s, GcPush(result)))
  {
    var index := Applied(s.collector.local, result);
    forall h | h in index.entries ensures Backed(s.server, h, index.entries[h]) {
      assert Backed(s.server, h, CurrentIndex(s.server).entries[h]);
    }
    PushKeeps(s, index);
  }

  lemma DeletionLeaves(r: State, tag: string, bury: bool)
    ensures OnlyTagGone(r, WithoutTag(r, tag, bury), tag)
  {
    assert !IsLive(TOMBSTONE);
  }

  ghost predicate OnlyTagGone(r: State, r': State, tag: string) {
    && r'.blobs == r.blobs && r'.pushes == r.pushes
    && (forall t :: HasLive(r', t) <==> HasLive(r, t) && t != tag)
    && (forall t | HasLive(r', t) :: r'.manifests[t] == r.manifests[t])
  }

  lemma DeletionKeepsSound(r: State, r': State, tag: string)
    requires Sound(r) && OnlyTagGone(r, r', tag) && tag !in CurrentIndex(r).entries
    ensures Sound(r')
  {
    forall h | h in CurrentIndex(r').entries ensures Backed(r', h, CurrentIndex(r').entries[h]) {
      assert Backed(r, h, CurrentIndex(r).entries[h]);
    }
  }

  lemma DeletionKeepsHistory(r: State, r': State, tag: string, deleted: set<string>)
    requires HistoryStands(r, deleted) && OnlyTagGone(r, r', tag)
    ensures HistoryStands(r', deleted + {tag})
  {
    forall i, h | 0 <= i < |r'.pushes| && h in r'.pushes[i].entries
      ensures IsNixHash(h) && (HasLive(r', h) || h in deleted + {tag})
    {
      assert h in r.pushes[i].entries;
    }
  }

  lemma DeletionKeepsTags(r: State, tag: string, bury: bool)
    requires WellTagged(r) && IsNixHash(tag)
    ensures WellTagged(WithoutTag(r, tag, bury))
  {
    NixHashIsCanonical(tag);
  }

  lemma GcDeleteStepIsSafe(s: System, tag: string, bury: bool)
    requires Safe(s) && Enabled(s, GcDelete(tag, bury))
    ensures Safe(Perform(s, GcDelete(tag, bury)))
  {
    var r' := WithoutTag(s.server, tag, bury);
    DeletionLeaves(s.server, tag, bury);
    DeletionKeepsTags(s.server, tag, bury);
    DeletionKeepsSound(s.server, r', tag);
    DeletionKeepsHistory(s.server, r', tag, s.deleted);
    CollectorMoves(s, s.(server := r', deleted := s.deleted + {tag}));
  }

  /** The collector changes tags only, and everything said of the new server holds. */
  lemma CollectorMoves(s: System, s': System)
    requires Safe(s) && !s.collector.Idle? && s'.writers == s.writers && s'.collector == s.collector
    requires CurrentIndex(s'.server) == CurrentIndex(s.server)
    requires Sound(s'.server) && WellTagged(s'.server) && HistoryStands(s'.server, s'.deleted)
    ensures Safe(s')
  {
  }

  lemma LocalStepIsSafe(s: System, a: Action)
    requires Safe(s) && Enabled(s, a)
    requires a.Start? || a.Head? || a.MergeHead? || a.Refetch? || a.Leave? || a.GcStart? || a.GcEnd?
    ensures Safe(Perform(s, a))
  {
    FetchIsTrusted(s.server);
    var s' := Perform(s, a);
    forall p | p in s'.writers ensures WriterStands(s'.server, s'.writers[p]) {
      assert p in s.writers ==> WriterStands(s.server, s.writers[p]);
    }
  }

  lemma StepIsSafe(s: System, a: Action)
    requires Safe(s)
    ensures Safe(Next(s, a))
  {
    if Enabled(s, a) {
      match a {
        case Repair(p, tag, now) => RepairStepIsSafe(s, p, tag, now);
        case EndDiff(p) => EndDiffStepIsSafe(s, p);
        case Merge(p, now) => MergeStepIsSafe(s, p, now);
        case Pin(p, roots) => PinStepIsSafe(s, p, roots);
        case Store(p, res) => StoreStepIsSafe(s, p, res);
        case Tag(p, res) => TagStepIsSafe(s, p, res);
        case GcPush(result) => GcPushStepIsSafe(s, result);
        case GcDelete(tag, bury) => GcDeleteStepIsSafe(s, tag, bury);
        case _ => LocalStepIsSafe(s, a);
      }
    }
  }

  lemma {:induction false} SafeAlways(s: System, actions: seq<Action>)
    requires Safe(s)
    ensures Safe(After(s, actions))
    decreases |actions|
  {
    if actions != [] {
      StepIsSafe(s, actions[0]);
      SafeAlways(Next(s, actions[0]), actions[1..]);
    }
  }

  const EMPTY: System := System(State({}, map[], []), map[], Idle, {})

  /** From an empty registry on, whatever the interleaving and wherever writers and collector break off:
      every entry of the index has a live manifest and a stored archive. */
  lemma EveryEntryIsServed(actions: seq<Action>, h: string)
    requires h in CurrentIndex(After(EMPTY, actions).server).entries
    ensures var r := After(EMPTY, actions).server;
      HasLive(r, h) && CurrentIndex(r).entries[h].narDigest in r.blobs && LayerBlob(r.manifests[h]) in r.blobs
  {
    SafeAlways(EMPTY, actions);
    var r := After(EMPTY, actions).server;
    assert Backed(r, h, CurrentIndex(r).entries[h]);
  }

  // ----- recovery -----

  /** `entries` is all that could be wished for: every path that was in any index ever pushed and was not
      deleted since, and every path that was uploaded; all current entries as they are, nothing deleted, and
      nothing that cannot be served. */
  ghost predicate Recovers(s: System, entries: Entries) {
    && (forall i, h | 0 <= i < |s.server.pushes| && h in s.server.pushes[i].entries && h !in s.deleted :: h in entries)
    && (forall t | IsNixHash(t) && HasLive(s.server, t) :: t in entries)
    && KeepsEntries(CurrentIndex(s.server).entries, entries)
    && entries.Keys !! s.deleted
    && AllBacked(s.server, entries)
  }

  ghost predicate KeepsEntries(before: Entries, after: Entries) {
    forall h | h in before :: h in after && after[h] == before[h]
  }

  /** In every reachable state the index that a repair builds with every manifest within reach is such. */
  lemma RepairRecovers(s: System, actions: seq<Action>, now: Time)
    requires Safe(s)
    ensures Recovers(After(s, actions), RepairedEntries(After(s, actions).server, {}, now))
  {
    SafeAlways(s, actions);
    var end := After(s, actions);
    var r, repaired := end.server, RepairedEntries(end.server, {}, now);
    forall t | IsNixHash(t) && HasLive(r, t) ensures t in repaired {
      assert t !in CurrentIndex(r).entries ==> Missing(r, t);
    }
    forall h | h in repaired ensures Backed(r, h, repaired[h]) && h !in end.deleted {
      if h in AllMissing(r, {}) {
        assert repaired[h] == ItemFrom(r.manifests[h], now) && HasLive(r, h);
      } else {
        assert Backed(r, h, CurrentIndex(r).entries[h]);
      }
    }
    forall i, h | 0 <= i < |r.pushes| && h in r.pushes[i].entries && h !in end.deleted ensures h in repaired {
      assert HasLive(r, h);
    }
  }

  /** What clients fetch afterwards is the same but for what the upgrade adds to rebuilt entries. */
  lemma FetchedRecovers(s: System, repaired: Snapshot)
    requires Recovers(s, repaired.entries)
    ensures Recovers(s, Fetched(repaired).entries)
  {
    FetchedIsBacked(s.server, repaired);
    forall h | h in CurrentIndex(s.server).entries
      ensures Fetched(repaired).entries[h] == CurrentIndex(s.server).entries[h]
    {
      CurrentIsUpgraded(s.server, h);
    }
  }

  lemma CurrentIsUpgraded(r: State, h: string)
    requires h in CurrentIndex(r).entries
    ensures UpgradedItem(CurrentIndex(r).entries[h]) == CurrentIndex(r).entries[h]
  {
  }

  lemma MissingIsCandidate(r: State, t: string)
    ensures Missing(r, t) ==> t in Candidates(r)
  {
    if Missing(r, t) {
      NixHashIsCanonical(t);
      assert ToLower(t) == t;
    }
  }

  /** A repair that restores nothing and skips nothing had nothing to restore. */
  lemma NothingMissing(r: State, outcome: Outcome, shaky: set<string>, now: Time)
    requires IsRepair(r, r, shaky, false, outcome, {}, now) && (outcome.UpToDate? || outcome.AllFailed?)
    ensures RepairedEntries(r, {}, now) == CurrentIndex(r).entries
  {
    if outcome.UpToDate? {
      forall t ensures Missing(r, t) ==> t in Candidates(r) {
        MissingIsCandidate(r, t);
      }
    }
    assert AllMissing(r, {}) == {};
  }

  /** From every reachable state: however the command's requests went, if it skipped nothing, as it reports by
      no failures, then the index is such afterwards. */
  lemma RepairRunRecovers(s: System, actions: seq<Action>, r': State, shaky: set<string>, outcome: Outcome,
                          unreachable: set<string>, now: Time)
    requires Safe(s) && IsRepair(After(s, actions).server, r', shaky, false, outcome, unreachable, now)
    requires outcome.UpToDate? || outcome.AllFailed? || outcome.Repaired?
    requires unreachable == {} || (outcome.Repaired? && outcome.failed == 0)
    ensures Recovers(After(s, actions), CurrentIndex(r').entries)
  {
    var r := After(s, actions).server;
    assert unreachable == {};
    RepairRecovers(s, actions, now);
    if outcome.Repaired? {
      FetchedRecovers(After(s, actions), RepairedIndex(r, {}, now));
      assert CurrentIndex(r') == Fetched(RepairedIndex(r, {}, now));
    } else {
      NothingMissing(r, outcome, shaky, now);
    }
  }

  /** The command itself, run on what any interleaving left behind, with every request answered. */
  method RepairAfterwards(registry: Registry, ghost s: System, ghost actions: seq<Action>, now: Time)
    returns (outcome: Outcome)
    requires Safe(s) && registry.state == After(s, actions).server && registry.shaky == {}
    modifies registry
    ensures Recovers(After(s, actions), CurrentIndex(registry.state).entries)
  {
    SafeAlways(s, actions);
    ghost var unreachable;
    outcome, unreachable := RunRepair(registry, false, now);
    RepairRunRecovers(s, actions, registry.state, {}, outcome, unreachable, now);
  }
}
