/** The server's copy of the index on disk: two files, each replaced by writing another and renaming it,
    and a crash or a failure possible at every step.

    An index stands for how many had been pushed when it was fetched, and a digest for the push it belongs
    to, or for a state of the server's own. */
module DiskCaches {
  import opened Wrappers

  datatype Digest = Remote(push: nat) | Local

  datatype File<T> = Absent | Torn | Whole(content: T)

  /** What is to be saved; without a digest only the index is. */
  datatype Attempt = Attempt(index: nat, digest: Option<Digest>)

  /** What the two files hold. */
  datatype Disk = Disk(index: Option<nat>, digest: Option<Digest>)

  /** A save that gets as far as its first rename, its second, or neither. */
  function AfterSave(d: Disk, a: Attempt, renames: nat): Disk {
    if renames == 0 then d
    else if renames == 1 || a.digest.None? then d.(index := Some(a.index))
    else Disk(Some(a.index), a.digest)
  }

  class DiskIndexCache {
    var indexFile: File<nat>
    var indexTemp: File<nat>
    var digestFile: File<Digest>
    var digestTemp: File<Digest>
    /** Whether the disk takes whatever is written, and nobody interrupts. */
    const sturdy: bool

    /** The files under their final names are never half-written. */
    ghost predicate Valid()
      reads this
    {
      !indexFile.Torn? && !digestFile.Torn?
    }

    ghost function View(): Disk
      requires Valid()
      reads this
    {
      Disk(if indexFile.Whole? then Some(indexFile.content) else None,
           if digestFile.Whole? then Some(digestFile.content) else None)
    }

    constructor (sturdy: bool)
      ensures Valid() && View() == Disk(None, None) && this.sturdy == sturdy
    {
      indexFile, indexTemp, digestFile, digestTemp := Absent, Absent, Absent, Absent;
      this.sturdy := sturdy;
    }

    /** Whether a step works out. */
    method Works() returns (works: bool)
      ensures sturdy ==> works
    {
      works := *;
      works := works || sturdy;
    }

    /** On a sturdy disk a save comes to its end, and the index and the digest, if there is one, are there. */
    method Save(a: Attempt) returns (ok: bool, ghost renames: nat)
      requires Valid()
      modifies this
      ensures Valid() && renames <= 2 && View() == AfterSave(old(View()), a, renames)
      ensures ok ==> renames > 0
      ensures sturdy ==> ok && View().index == Some(a.index)
      ensures sturdy ==> View().digest == if a.digest.Some? then a.digest else old(View()).digest
    {
      ok, renames := false, 0;
      var started := Works();
      if !started {
        return;
      }
      indexTemp := Torn;
      var written := Works();
      if !written {
        return;
      }
      indexTemp := Whole(a.index);
      var renamed := Works();
      if !renamed {
        var removed: bool := *;
        if removed {
          indexTemp := Absent;
        }
        return;
      }
      indexFile, indexTemp, renames := indexTemp, Absent, 1;
      ok := Works();
      if a.digest.Some? && ok {
        digestTemp := Torn;
        written := Works();
        if written {
          digestTemp := Whole(a.digest.value);
          renamed := Works();
          if renamed {
            digestFile, digestTemp, renames := digestTemp, Absent, 2;
          }
        }
      }
    }

    method Load() returns (disk: Disk)
      requires Valid()
      ensures disk.index == View().index
      ensures disk.digest == if View().index.Some? then View().digest else None
    {
      if indexFile.Absent? {
        return Disk(None, None);
      }
      disk := Disk(Some(indexFile.content), if digestFile.Whole? then Some(digestFile.content) else None);
    }
  }

  /** Saves one after the other, each getting as far as `renames` says. */
  function AfterSaves(attempts: seq<Attempt>, renames: seq<nat>): Disk
    requires |attempts| == |renames|
  {
    if attempts == [] then Disk(None, None)
    else
      var n := |attempts| - 1;
      AfterSave(AfterSaves(attempts[..n], renames[..n]), attempts[n], renames[n])
  }

  /** The digest on disk belongs to a later push than the index. */
  predicate DigestAhead(d: Disk) {
    d.digest.Some? && d.digest.value.Remote? && (d.index.None? || d.digest.value.push > d.index.value)
  }

  /** No save has an index older than the digest of that save or of one before. */
  ghost predicate InOrder(attempts: seq<Attempt>) {
    forall k, j | 0 <= k <= j < |attempts| :: !DigestAhead(Disk(Some(attempts[j].index), attempts[k].digest))
  }

  /** The digest on disk comes from some save, and the index from that save or a later one. */
  lemma {:induction false} WhereFrom(attempts: seq<Attempt>, renames: seq<nat>) returns (k: nat, j: nat)
    requires |attempts| == |renames| && AfterSaves(attempts, renames).digest.Some?
    ensures k <= j < |attempts|
    ensures AfterSaves(attempts, renames) == Disk(Some(attempts[j].index), attempts[k].digest)
    decreases |attempts|
  {
    var n := |attempts| - 1;
    if renames[n] >= 2 && attempts[n].digest.Some? {
      k, j := n, n;
    } else {
      k, j := WhereFrom(attempts[..n], renames[..n]);
      j := if renames[n] == 0 then j else n;
    }
  }

  /** The crashes that leave the digest of save `k` beside the index of save `j`. */
  function Stops(k: nat, j: nat, n: nat): seq<nat> {
    seq(n, i => if i == k then 2 else if i == j then 1 else 0)
  }

  lemma {:induction false} StopsLeave(attempts: seq<Attempt>, k: nat, j: nat, n: nat)
    requires k <= j < |attempts| && n <= |attempts| && attempts[k].digest.Some?
    ensures n > k ==>
      AfterSaves(attempts[..n], Stops(k, j, n)) ==
      Disk(Some(attempts[if n > j then j else k].index), attempts[k].digest)
    ensures n <= k ==> AfterSaves(attempts[..n], Stops(k, j, n)) == Disk(None, None)
  {
    if n > 0 {
      StopsLeave(attempts, k, j, n - 1);
      assert attempts[..n][..n - 1] == attempts[..n - 1];
      assert Stops(k, j, n)[..n - 1] == Stops(k, j, n - 1);
    }
  }

  /** Wherever saves are interrupted the digest on disk is never ahead of the index, exactly when the saves
      come in order. */
  lemma DigestNeverAheadIff(attempts: seq<Attempt>)
    ensures (forall renames: seq<nat> | |renames| == |attempts| :: !DigestAhead(AfterSaves(attempts, renames)))
            <==> InOrder(attempts)
  {
    if InOrder(attempts) {
      forall renames: seq<nat> | |renames| == |attempts| ensures !DigestAhead(AfterSaves(attempts, renames)) {
        if AfterSaves(attempts, renames).digest.Some? {
          var k, j := WhereFrom(attempts, renames);
        }
      }
    } else {
      var k, j :| 0 <= k <= j < |attempts| && DigestAhead(Disk(Some(attempts[j].index), attempts[k].digest));
      StopsLeave(attempts, k, j, |attempts|);
      assert attempts[..|attempts|] == attempts;
      assert DigestAhead(AfterSaves(attempts, Stops(k, j, |attempts|)));
    }
  }

  /** So a server that finds the remote digest on disk has the current index: it need not be fetched. */
  lemma CurrentOnDisk(attempts: seq<Attempt>, renames: seq<nat>, current: nat)
    requires |attempts| == |renames| && InOrder(attempts)
    requires forall i | 0 <= i < |attempts| :: attempts[i].index <= current
    requires AfterSaves(attempts, renames).digest == Some(Remote(current))
    ensures AfterSaves(attempts, renames).index == Some(current)
  {
    var k, j := WhereFrom(attempts, renames);
    assert !DigestAhead(Disk(Some(attempts[j].index), attempts[k].digest));
  }

  // ----- the server's saves -----

  /** A server and what concerns its disk: how many indexes have been pushed, the digest it goes by, the one
      its sync loop has just seen, the refreshes that have fetched and not saved yet, and the saves. */
  datatype Server = Server(
    remote: nat, lastDigest: Option<Digest>, looked: Option<nat>, pending: seq<Attempt>, saved: seq<Attempt>)

  /** What the server does, step by step: it starts with a digest it finds on disk, asks for the remote digest
      at its start and in its sync loop, fetches the index and saves it with the digest it goes by at that
      moment, goes by the digest it saw once a refresh of the loop has succeeded, and deletes a package,
      which pushes an index of its own.  Others push meanwhile. */
  datatype Event =
    | OthersPush
    | Restart(digest: Option<Digest>)
    | LookAtStart
    | LookInLoop
    | Fetch
    | Synced
    | Delete
    | Save(i: nat)

  /** The digest may be the one on disk. */
  ghost predicate OnDisk(saved: seq<Attempt>, digest: Option<Digest>) {
    digest.Some? ==> exists k | 0 <= k < |saved| :: saved[k].digest == digest
  }

  ghost predicate CanHappen(s: Server, e: Event) {
    match e
    case Restart(digest) => OnDisk(s.saved, digest)
    case LookAtStart => s.remote > 0
    case LookInLoop => s.remote > 0
    case Synced => s.looked.Some?
    case Save(i) => i < |s.pending|
    case _ => true
  }

  ghost function Step(s: Server, e: Event): Server {
    if !CanHappen(s, e) then s
    else match e
      case OthersPush => s.(remote := s.remote + 1)
      case Restart(digest) => s.(lastDigest := digest, looked := None, pending := [])
      case LookAtStart => s.(lastDigest := Some(Remote(s.remote)))
      case LookInLoop => s.(looked := Some(s.remote))
      case Fetch => s.(pending := s.pending + [Attempt(s.remote, s.lastDigest)])
      case Synced => s.(lastDigest := Some(Remote(s.looked.value)), looked := None)
      case Delete =>
        s.(remote := s.remote + 1, lastDigest := Some(Local),
           pending := s.pending + [Attempt(s.remote + 1, Some(Local))])
      case Save(i) => s.(pending := s.pending[..i] + s.pending[i + 1..], saved := s.saved + [s.pending[i]])
  }

  ghost function Steps(s: Server, events: seq<Event>): Server
    decreases |events|
  {
    if events == [] then s else Steps(Step(s, events[0]), events[1..])
  }

  /** No refresh or deletion begins before the last one has been saved. */
  ghost predicate OneAtATime(s: Server, events: seq<Event>)
    decreases |events|
  {
    events != [] ==>
      && (events[0].Fetch? || events[0].Delete? ==> s.pending == [])
      && OneAtATime(Step(s, events[0]), events[1..])
  }

  predicate Past(digest: Option<Digest>, remote: nat) {
    digest.Some? && digest.value.Remote? ==> digest.value.push <= remote
  }

  /** Nothing that has been fetched or seen is later than what has been pushed. */
  ghost predicate Timely(s: Server) {
    && Past(s.lastDigest, s.remote) && (s.looked.Some? ==> s.looked.value <= s.remote)
    && (forall i | 0 <= i < |s.saved + s.pending| ::
          (s.saved + s.pending)[i].index <= s.remote && Past((s.saved + s.pending)[i].digest, s.remote))
  }

  ghost predicate Orderly(s: Server) {
    Timely(s) && |s.pending| <= 1 && InOrder(s.saved + s.pending)
  }

  lemma NewestInOrder(attempts: seq<Attempt>, a: Attempt)
    requires InOrder(attempts) && Past(a.digest, a.index)
    requires forall i | 0 <= i < |attempts| :: Past(attempts[i].digest, a.index)
    ensures InOrder(attempts + [a])
  {
  }

  lemma FetchIsOrderly(s: Server, remote: nat, digest: Option<Digest>)
    requires Orderly(s) && s.pending == [] && s.remote <= remote && Past(digest, remote)
    ensures Orderly(s.(remote := remote, lastDigest := digest, pending := [Attempt(remote, digest)]))
  {
    assert s.saved + s.pending == s.saved;
    forall i | 0 <= i < |s.saved| ensures s.saved[i].index <= remote && Past(s.saved[i].digest, remote) {
      assert (s.saved + s.pending)[i] == s.saved[i];
    }
    NewestInOrder(s.saved, Attempt(remote, digest));
  }

  lemma RestartIsOrderly(s: Server, digest: Option<Digest>)
    requires Orderly(s) && OnDisk(s.saved, digest)
    ensures Orderly(s.(lastDigest := digest, looked := None, pending := []))
  {
    assert s.saved + [] == s.saved;
    forall i | 0 <= i < |s.saved| ensures (s.saved + s.pending)[i] == s.saved[i] {
    }
  }

  lemma StepIsOrderly(s: Server, e: Event)
    requires Orderly(s) && (e.Fetch? || e.Delete? ==> s.pending == [])
    ensures Orderly(Step(s, e))
  {
    if CanHappen(s, e) {
      match e {
        case Fetch =>
          assert s.pending + [Attempt(s.remote, s.lastDigest)] == [Attempt(s.remote, s.lastDigest)];
          FetchIsOrderly(s, s.remote, s.lastDigest);
        case Delete =>
          assert s.pending + [Attempt(s.remote + 1, Some(Local))] == [Attempt(s.remote + 1, Some(Local))];
          FetchIsOrderly(s, s.remote + 1, Some(Local));
        case Restart(digest) => RestartIsOrderly(s, digest);
        case Save(i) => assert Step(s, e).saved + Step(s, e).pending == s.saved + s.pending;
        case _ =>
      }
    }
  }

  /** Whatever others push and however often it restarts: a server whose refreshes do not overlap saves in
      order, so that its digest on disk is never ahead of its index on disk. */
  lemma {:induction false} SavesInOrder(s: Server, events: seq<Event>)
    requires Orderly(s) && OneAtATime(s, events)
    ensures Orderly(Steps(s, events)) && InOrder(Steps(s, events).saved)
    decreases |events|
  {
    if events == [] {
      forall k, j | 0 <= k <= j < |s.saved| ensures !DigestAhead(Disk(Some(s.saved[j].index), s.saved[k].digest)) {
        assert (s.saved + s.pending)[j] == s.saved[j] && (s.saved + s.pending)[k] == s.saved[k];
      }
    } else {
      StepIsOrderly(s, events[0]);
      SavesInOrder(Step(s, events[0]), events[1..]);
    }
  }

  /** A server that has just started without a copy on disk. */
  const FIRST: Server := Server(1, None, None, [], [])

  const STARTED: seq<Event> := [Fetch] + ([OthersPush] + ([LookInLoop] + ([Fetch] + ([Synced] + []))))
  const SYNCED: seq<Event> := [OthersPush] + ([LookInLoop] + ([Fetch] + ([Save(2)] + ([Save(0)] + []))))

  /** So whatever its saves got to, when such a server finds the remote digest on disk the index there is the
      remote one, and need not be fetched. */
  lemma DiskIsTrusted(s: Server, events: seq<Event>, renames: seq<nat>)
    requires Orderly(s) && OneAtATime(s, events)
    requires var end := Steps(s, events);
      |end.saved| == |renames| && AfterSaves(end.saved, renames).digest == Some(Remote(end.remote))
    ensures var end := Steps(s, events); AfterSaves(end.saved, renames).index == Some(end.remote)
  {
    var end := Steps(s, events);
    SavesInOrder(s, events);
    forall i | 0 <= i < |end.saved| ensures end.saved[i].index <= end.remote {
      assert (end.saved + end.pending)[i] == end.saved[i];
    }
    CurrentOnDisk(end.saved, renames, end.remote);
  }

  /** With refreshes that overlap it may be: what the server fetched at its start, when it had no digest yet,
      is saved after what its sync loop has fetched twice since. */
  lemma OverlapPutsDigestAhead()
    ensures var s := Steps(Steps(FIRST, STARTED), SYNCED);
      s.saved == [Attempt(3, Some(Remote(2))), Attempt(1, None)] && DigestAhead(AfterSaves(s.saved, [2, 1]))
  {
    var s1 := Server(2, Some(Remote(2)), None, [Attempt(1, None), Attempt(2, None)], []);
    FirstSync();
    assert Steps(FIRST, STARTED) == s1;
    SecondSync(s1);
    var saved := [Attempt(3, Some(Remote(2))), Attempt(1, None)];
    assert saved[..1] == [Attempt(3, Some(Remote(2)))] && [2, 1][..1] == [2];
    assert AfterSaves(saved[..1], [2]) == Disk(Some(3), Some(Remote(2)));
  }

  lemma FirstSync()
    ensures Steps(FIRST, STARTED) == Server(2, Some(Remote(2)), None, [Attempt(1, None), Attempt(2, None)], [])
  {
    var a := Attempt(1, None);
    var s1 := Server(1, None, None, [a], []);
    var s2 := Server(2, None, None, [a], []);
    var s3 := Server(2, None, Some(2), [a], []);
    var s4 := Server(2, None, Some(2), [a, Attempt(2, None)], []);
    assert Step(FIRST, Fetch) == s1 && Step(s1, OthersPush) == s2 && Step(s2, LookInLoop) == s3;
    assert Step(s3, Fetch) == s4;
    OneStep(FIRST, Fetch, [OthersPush] + ([LookInLoop] + ([Fetch] + ([Synced] + []))));
    OneStep(s1, OthersPush, [LookInLoop] + ([Fetch] + ([Synced] + [])));
    OneStep(s2, LookInLoop, [Fetch] + ([Synced] + []));
    OneStep(s3, Fetch, [Synced] + []);
    OneStep(s4, Synced, []);
  }

  lemma SecondSync(s: Server)
    requires s == Server(2, Some(Remote(2)), None, [Attempt(1, None), Attempt(2, None)], [])
    ensures Steps(s, SYNCED).saved == [Attempt(3, Some(Remote(2))), Attempt(1, None)]
  {
    var a, b, c := Attempt(1, None), Attempt(2, None), Attempt(3, Some(Remote(2)));
    var s1 := s.(remote := 3);
    var s2 := s1.(looked := Some(3));
    var s3 := s2.(pending := [a, b, c]);
    var s4 := s2.(pending := [a, b], saved := [c]);
    assert Step(s, OthersPush) == s1 && Step(s1, LookInLoop) == s2 && Step(s2, Fetch) == s3 && Step(s3, Save(2)) == s4;
    OneStep(s, OthersPush, [LookInLoop] + ([Fetch] + ([Save(2)] + ([Save(0)] + []))));
    OneStep(s1, LookInLoop, [Fetch] + ([Save(2)] + ([Save(0)] + [])));
    OneStep(s2, Fetch, [Save(2)] + ([Save(0)] + []));
    OneStep(s3, Save(2), [Save(0)] + []);
    OneStep(s4, Save(0), []);
  }

  lemma OneStep(s: Server, e: Event, rest: seq<Event>)
    ensures Steps(s, [e] + rest) == Steps(Step(s, e), rest)
  {
    assert ([e] + rest)[1..] == rest;
  }
}
