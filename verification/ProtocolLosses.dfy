/** What writers can take from one another.  A writer pushes up to three times what it fetched some time
    before: what the diff has repaired, what a pin adds to, and what the merge adds to.  Whatever others
    have pushed in between, it has not seen. */
module ProtocolLosses {
  import opened Wrappers
  import opened CacheIndexes
  import opened GcSpec
  import opened Registries
  import opened Publishers
  import opened Protocols

  /** The index a client fetched when `n` had been pushed. */
  function IndexAt(pushes: seq<Snapshot>, n: nat): Snapshot
    requires n <= |pushes|
  {
    if n == 0 then Snapshot(map[], map[]) else Fetched(pushes[n - 1])
  }

  /** `local` is `index` with entries added. */
  ghost predicate Completes(index: Snapshot, local: Snapshot) {
    KeepsEntries(index.entries, local.entries) && local.roots == index.roots
  }

  /** What a writer's copy of the index is worth. */
  ghost predicate WriterTracks(pushes: seq<Snapshot>, w: Writer) {
    match w
    case Started(local, fetchedAt) => fetchedAt <= |pushes| && local == IndexAt(pushes, fetchedAt)
    case Diffing(local, fetchedAt, head, headAt, repaired) =>
      && fetchedAt <= headAt <= |pushes| && (head.Some? ==> head == Some(headAt))
      && (if repaired then Completes(IndexAt(pushes, fetchedAt), local) else local == IndexAt(pushes, fetchedAt))
    case Uploading(local, fetchedAt, head, headAt, repaired, _, _) =>
      && fetchedAt <= headAt <= |pushes| && (head.Some? ==> head == Some(headAt))
      && (if repaired then headAt < |pushes| else local == IndexAt(pushes, fetchedAt))
    case Refetching(_, fetchedAt, headAt, mergedAt) => fetchedAt <= headAt <= mergedAt <= |pushes|
    case Merging(target, _, fast, fetchedAt, headAt, mergedAt) =>
      && fetchedAt <= headAt <= mergedAt <= |pushes|
      && (if fast then headAt == mergedAt && target == IndexAt(pushes, fetchedAt)
          else exists n | mergedAt <= n <= |pushes| :: target == IndexAt(pushes, n))
  }

  ghost predicate Tracked(s: System) {
    forall p | p in s.writers :: WriterTracks(s.server.pushes, s.writers[p])
  }

  lemma SameHistory(pushes: seq<Snapshot>, index: Snapshot, n: nat)
    requires n <= |pushes|
    ensures IndexAt(pushes + [index], n) == IndexAt(pushes, n)
  {
  }

  lemma TracksAfterPush(pushes: seq<Snapshot>, index: Snapshot, w: Writer)
    requires WriterTracks(pushes, w)
    ensures WriterTracks(pushes + [index], w)
  {
    var pushes' := pushes + [index];
    if w.Merging? && !w.fast {
      var n :| w.mergedAt <= n <= |pushes| && w.target == IndexAt(pushes, n);
      SameHistory(pushes, index, n);
      assert w.target == IndexAt(pushes', n);
    } else {
      SameHistory(pushes, index, w.fetchedAt);
    }
  }

  lemma RepairTracks(s: System, p: nat, tag: string, now: Time)
    requires Enabled(s, Repair(p, tag, now)) && WriterTracks(s.server.pushes, s.writers[p])
    ensures WriterTracks(s.server.pushes, Perform(s, Repair(p, tag, now)).writers[p])
  {
  }

  lemma StepTracksWriter(s: System, a: Action, p: nat)
    requires Enabled(s, a) && !a.Repair? && p in Perform(s, a).writers
    requires p in s.writers ==> WriterTracks(s.server.pushes, s.writers[p])
    requires Perform(s, a).server.pushes == s.server.pushes
    ensures WriterTracks(s.server.pushes, Perform(s, a).writers[p])
  {
    assert CurrentIndex(s.server) == IndexAt(s.server.pushes, |s.server.pushes|);
  }

  lemma PushTracksWriter(s: System, a: Action, p: nat)
    requires Enabled(s, a) && (a.EndDiff? || a.Merge? || a.Pin? || a.GcPush?)
    requires p in s.writers && p in Perform(s, a).writers && WriterTracks(s.server.pushes, s.writers[p])
    ensures WriterTracks(Perform(s, a).server.pushes, Perform(s, a).writers[p])
  {
    var s' := Perform(s, a);
    if s'.server.pushes != s.server.pushes {
      TracksAfterPush(s.server.pushes, s'.server.pushes[|s.server.pushes|], s.writers[p]);
    }
  }

  lemma StepIsTracked(s: System, a: Action)
    requires Tracked(s)
    ensures Tracked(Next(s, a))
  {
    var s' := Next(s, a);
    forall p | p in s'.writers ensures WriterTracks(s'.server.pushes, s'.writers[p]) {
      if !Enabled(s, a) {
      } else if a.EndDiff? || a.Merge? || a.Pin? || a.GcPush? {
        PushTracksWriter(s, a, p);
      } else if a.Repair? && a.p == p {
        RepairTracks(s, p, a.tag, a.now);
      } else if a.Repair? {
        assert s'.writers[p] == s.writers[p];
      } else {
        StepTracksWriter(s, a, p);
      }
    }
  }

  lemma {:induction false} TrackedAlways(s: System, actions: seq<Action>)
    requires Tracked(s)
    ensures Tracked(After(s, actions))
    decreases |actions|
  {
    if actions != [] {
      StepIsTracked(s, actions[0]);
      TrackedAlways(Next(s, actions[0]), actions[1..]);
    }
  }

  // ----- the pushes of a writer -----

  /** The step by which a writer pushes an index. */
  predicate IsPush(s: System, a: Action) {
    Enabled(s, a) && (a.Merge? || a.Pin? || (a.EndDiff? && s.writers[a.p].repaired))
  }

  function PushedBy(s: System, a: Action): Snapshot
    requires IsPush(s, a)
  {
    match a
    case Merge(p, now) => MergedIndex(s.writers[p], now)
    case Pin(p, roots) => Snapshot(s.writers[p].local.entries, s.writers[p].local.roots + roots)
    case EndDiff(p) => s.writers[p].local
  }

  lemma PushIsPushed(s: System, a: Action)
    requires IsPush(s, a)
    ensures Perform(s, a).server == Pushed(s.server, PushedBy(s, a))
  {
  }

  /** The copy that a pushing writer adds to or has completed. */
  function CopyOf(w: Writer): Snapshot
    requires w.Started? || w.Diffing? || w.Merging?
  {
    if w.Merging? then w.target else w.local
  }

  lemma PushHasCopy(s: System, a: Action)
    requires IsPush(s, a)
    ensures var copy, pushed := CopyOf(s.writers[a.p]), PushedBy(s, a);
      copy.entries.Keys <= pushed.entries.Keys && copy.roots.Keys <= pushed.roots.Keys
  {
    if a.Merge? {
      AddAllKeys(s.writers[a.p].target.entries, s.writers[a.p].results, a.now);
    }
  }

  /** The `n`-th push was made while the writer was not looking: for a pin and for the diff, since it fetched
      the index; for a merge, between fetch and digest if it relied on that digest, or since it compared
      digests. */
  predicate InWindow(w: Writer, n: nat) {
    match w
    case Started(_, fetchedAt) => fetchedAt < n
    case Diffing(_, fetchedAt, _, _, _) => fetchedAt < n
    case Merging(_, _, fast, fetchedAt, headAt, mergedAt) => (fast && fetchedAt < n <= headAt) || mergedAt < n
    case _ => false
  }

  predicate Quiet(pushes: seq<Snapshot>, w: Writer) {
    forall n | 0 < n <= |pushes| :: !InWindow(w, n)
  }

  /** With its windows quiet a writer's copy is the current index, or the current one completed. */
  lemma QuietCopy(pushes: seq<Snapshot>, w: Writer)
    requires (w.Started? || w.Diffing? || w.Merging?) && WriterTracks(pushes, w) && Quiet(pushes, w)
    ensures if w.Diffing? then Completes(IndexAt(pushes, |pushes|), w.local) else CopyOf(w) == IndexAt(pushes, |pushes|)
  {
    if !w.Merging? {
      assert w.fetchedAt < |pushes| ==> InWindow(w, |pushes|);
    } else {
      assert w.mergedAt < |pushes| ==> InWindow(w, |pushes|);
      assert w.fast && w.fetchedAt < w.headAt ==> InWindow(w, w.headAt);
    }
  }

  /** What a writer's copy lacks of the current index was pushed inside one of its windows. */
  lemma MissedInWindow(pushes: seq<Snapshot>, w: Writer)
    requires (w.Started? || w.Diffing? || w.Merging?) && WriterTracks(pushes, w) && |pushes| > 0
    requires !(IndexAt(pushes, |pushes|).entries.Keys <= CopyOf(w).entries.Keys)
          || !(IndexAt(pushes, |pushes|).roots.Keys <= CopyOf(w).roots.Keys)
    ensures InWindow(w, |pushes|)
  {
  }

  // ----- one push -----

  /** Some push inside the writer's windows listed the entry. */
  ghost predicate ListedInWindow(pushes: seq<Snapshot>, w: Writer, h: string) {
    exists n | 0 < n <= |pushes| :: InWindow(w, n) && h in pushes[n - 1].entries
  }

  /** Some push inside the writer's windows had the root. */
  ghost predicate PinnedInWindow(pushes: seq<Snapshot>, w: Writer, h: string) {
    exists n | 0 < n <= |pushes| :: InWindow(w, n) && h in pushes[n - 1].roots
  }

  lemma DroppedInWindow(s: System, a: Action, h: string)
    requires IsPush(s, a) && WriterTracks(s.server.pushes, s.writers[a.p])
    ensures h in CurrentIndex(s.server).entries && h !in PushedBy(s, a).entries ==>
      ListedInWindow(s.server.pushes, s.writers[a.p], h)
    ensures h in CurrentIndex(s.server).roots && h !in PushedBy(s, a).roots ==>
      PinnedInWindow(s.server.pushes, s.writers[a.p], h)
  {
    var pushes, w := s.server.pushes, s.writers[a.p];
    PushHasCopy(s, a);
    if pushes != [] {
      LastPush(s.server, h);
      if h in CurrentIndex(s.server).entries && h !in PushedBy(s, a).entries {
        assert h !in CopyOf(w).entries.Keys;
        MissedInWindow(pushes, w);
      }
      if h in CurrentIndex(s.server).roots && h !in PushedBy(s, a).roots {
        assert h !in CopyOf(w).roots.Keys;
        MissedInWindow(pushes, w);
      }
    }
  }

  lemma LastPush(r: State, h: string)
    requires r.pushes != []
    ensures CurrentIndex(r) == IndexAt(r.pushes, |r.pushes|)
    ensures h in CurrentIndex(r).entries <==> h in r.pushes[|r.pushes| - 1].entries
    ensures h in CurrentIndex(r).roots <==> h in r.pushes[|r.pushes| - 1].roots
  {
  }

  /** Whatever a writer's push drops from the index, in a diff, a pin or a merge, was listed by a push inside
      one of its windows. */
  lemma LostOnlyInWindows(s: System, actions: seq<Action>, a: Action, h: string)
    requires Tracked(s) && IsPush(After(s, actions), a)
    requires h in CurrentIndex(After(s, actions).server).entries && h !in PushedBy(After(s, actions), a).entries
    ensures var end := After(s, actions); ListedInWindow(end.server.pushes, end.writers[a.p], h)
  {
    TrackedAlways(s, actions);
    DroppedInWindow(After(s, actions), a, h);
  }

  /** And so were the pins it drops. */
  lemma PinsLostOnlyInWindows(s: System, actions: seq<Action>, a: Action, h: string)
    requires Tracked(s) && IsPush(After(s, actions), a)
    requires h in CurrentIndex(After(s, actions).server).roots && h !in PushedBy(After(s, actions), a).roots
    ensures var end := After(s, actions); PinnedInWindow(end.server.pushes, end.writers[a.p], h)
  {
    TrackedAlways(s, actions);
    DroppedInWindow(After(s, actions), a, h);
  }

  /** What a writer adds: a diff its repairs, a pin its roots, a merge its results. */
  ghost predicate AddsOwn(current: Snapshot, s: System, a: Action)
    requires IsPush(s, a)
  {
    match a
    case EndDiff(_) => Completes(current, PushedBy(s, a))
    case Pin(_, roots) => PushedBy(s, a) == Snapshot(current.entries, current.roots + roots)
    case Merge(p, now) => PushedBy(s, a) == Snapshot(AddAll(current.entries, s.writers[p].results, now), current.roots)
  }

  lemma QuietPush(s: System, a: Action)
    requires IsPush(s, a) && WriterTracks(s.server.pushes, s.writers[a.p]) && Quiet(s.server.pushes, s.writers[a.p])
    ensures AddsOwn(CurrentIndex(s.server), s, a)
  {
    QuietCopy(s.server.pushes, s.writers[a.p]);
    assert CurrentIndex(s.server) == IndexAt(s.server.pushes, |s.server.pushes|);
  }

  /** If nobody pushed inside the writer's windows then its push is the current index with its own work added:
      for a diff and a pin, nobody since it fetched the index; for a merge, nobody since it compared digests
      and, if the digests were equal, nobody between its fetch and its first look at the digest. */
  lemma PushKeepsConcurrentWork(s: System, actions: seq<Action>, a: Action)
    requires Tracked(s) && IsPush(After(s, actions), a)
    requires Quiet(After(s, actions).server.pushes, After(s, actions).writers[a.p])
    ensures AddsOwn(CurrentIndex(After(s, actions).server), After(s, actions), a)
  {
    TrackedAlways(s, actions);
    QuietPush(After(s, actions), a);
  }

  // ----- whole runs -----

  /** The step takes the entry out of the index. */
  predicate Drops(s: System, a: Action, h: string) {
    h in CurrentIndex(s.server).entries && h !in CurrentIndex(Next(s, a).server).entries
  }

  /** The step is a collector's and evicts the entry, or a writer's in whose windows the entry was pushed. */
  ghost predicate MayDrop(s: System, a: Action, h: string) {
    || (a.GcPush? && h in a.result.evictedKeys)
    || (IsPush(s, a) && ListedInWindow(s.server.pushes, s.writers[a.p], h))
  }

  lemma CollectorDrops(s: System, a: Action, h: string)
    requires CollectorStands(s) && Enabled(s, a) && a.GcPush? && Drops(s, a, h)
    ensures MayDrop(s, a, h)
  {
  }

  lemma WriterDrops(s: System, a: Action, h: string)
    requires IsPush(s, a) && WriterTracks(s.server.pushes, s.writers[a.p]) && Drops(s, a, h)
    ensures MayDrop(s, a, h)
  {
    PushIsPushed(s, a);
    DroppedInWindow(s, a, h);
  }

  lemma DropIsAccounted(s: System, a: Action, h: string)
    requires CollectorStands(s) && Tracked(s) && Drops(s, a, h)
    ensures MayDrop(s, a, h)
  {
    if a.GcPush? {
      CollectorDrops(s, a, h);
    } else if IsPush(s, a) {
      WriterDrops(s, a, h);
    } else {
      OthersPushNothing(s, a);
    }
  }

  lemma OthersPushNothing(s: System, a: Action)
    requires !a.GcPush? && !IsPush(s, a)
    ensures Next(s, a).server.pushes == s.server.pushes
  {
  }

  /** The step `i` of the run drops the entry. */
  predicate DropsAt(s: System, actions: seq<Action>, i: nat, h: string) {
    i < |actions| && Drops(After(s, actions[..i]), actions[i], h)
  }

  lemma {:induction false} FirstDrop(s: System, actions: seq<Action>, h: string) returns (i: nat)
    requires h in CurrentIndex(s.server).entries && h !in CurrentIndex(After(s, actions).server).entries
    ensures DropsAt(s, actions, i, h)
    decreases |actions|
  {
    if h !in CurrentIndex(Next(s, actions[0]).server).entries {
      i := 0;
    } else {
      var k := FirstDrop(Next(s, actions[0]), actions[1..], h);
      i := k + 1;
      assert actions[..i][1..] == actions[1..][..k];
    }
  }

  /** An entry that is gone at the end of a run was dropped by some step of it, and every step that drops an
      entry is accounted for. */
  lemma LostInSomeStep(s: System, actions: seq<Action>, h: string) returns (i: nat)
    requires Safe(s) && Tracked(s)
    requires h in CurrentIndex(s.server).entries && h !in CurrentIndex(After(s, actions).server).entries
    ensures DropsAt(s, actions, i, h) && MayDrop(After(s, actions[..i]), actions[i], h)
  {
    i := FirstDrop(s, actions, h);
    SafeAlways(s, actions[..i]);
    TrackedAlways(s, actions[..i]);
    DropIsAccounted(After(s, actions[..i]), actions[i], h);
  }

  /** No step of the run is a collector's eviction of the entry, or a writer's in whose windows it was pushed. */
  ghost predicate NobodyMayDrop(s: System, actions: seq<Action>, h: string) {
    forall i | 0 <= i < |actions| :: !MayDrop(After(s, actions[..i]), actions[i], h)
  }

  /** So an entry survives every run in which all who push have their windows quiet, and nobody evicts it. */
  lemma QuietRunKeeps(s: System, actions: seq<Action>, h: string)
    requires Safe(s) && Tracked(s) && h in CurrentIndex(s.server).entries
    requires NobodyMayDrop(s, actions, h)
    ensures h in CurrentIndex(After(s, actions).server).entries
  {
    if h !in CurrentIndex(After(s, actions).server).entries {
      var i := LostInSomeStep(s, actions, h);
    }
  }
}
