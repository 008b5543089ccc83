/** The export cache: concurrent callers that want the same store path share one export.

    A caller's steps are the stretches of `GetOrCreate` between points where others can run: the
    critical section, the start and the end of the export, the wait, and the return.  An action that is
    not possible in a state leaves it unchanged, so every sequence of actions is an interleaving. */
module SingleFlight {

  /** What an export yields: a compressed file, or an error. */
  datatype Export = Exported(tempFile: string) | ExportFailed(error: string)

  /** The shared progress record of one path. */
  datatype Progress = Running(owner: nat) | Done(outcome: Export)

  datatype Caller =
    | Calling(path: string)
    | Owning(path: string)
    | Exporting(path: string)
    | Waiting(path: string)
    | Returned(path: string, outcome: Export)
    | Cancelled(path: string)

  datatype Cleanup = NotStarted | Removing(todo: set<string>)

  datatype State = State(
    paths: map<string, Progress>,
    callers: map<nat, Caller>,
    exportRuns: map<string, nat>,
    created: set<string>,
    removed: seq<string>,
    cleanup: Cleanup)

  datatype Action =
    | Call(c: nat, path: string)
    | Enter(c: nat)
    | BeginExport(c: nat)
    | EndExport(c: nat, outcome: Export)
    | Wake(c: nat)
    | Cancel(c: nat)
    | StartCleanup
    | RemoveOne(path: string)

  const INITIAL: State := State(map[], map[], map[], {}, [], NotStarted)

  predicate Finished(c: Caller) {
    c.Returned? || c.Cancelled?
  }

  function Runs(s: State, path: string): nat {
    if path in s.exportRuns then s.exportRuns[path] else 0
  }

  predicate Enabled(s: State, a: Action) {
    match a
    case Call(c, path) => c !in s.callers && s.cleanup.NotStarted?
    case Enter(c) => c in s.callers && s.callers[c].Calling?
    case BeginExport(c) => c in s.callers && s.callers[c].Owning?
    case EndExport(c, outcome) =>
      // a temporary file gets a name that is not in use
      && c in s.callers && s.callers[c].Exporting?
      && (outcome.Exported? ==> outcome.tempFile != "" && outcome.tempFile !in s.created)
    case Wake(c) =>
      && c in s.callers && s.callers[c].Waiting?
      && s.callers[c].path in s.paths && s.paths[s.callers[c].path].Done?
    case Cancel(c) => c in s.callers && s.callers[c].Waiting?
    case StartCleanup => s.cleanup.NotStarted? && forall c | c in s.callers :: Finished(s.callers[c])
    case RemoveOne(path) => s.cleanup.Removing? && path in s.cleanup.todo && path in s.paths && s.paths[path].Done?
  }

  function Perform(s: State, a: Action): State
    requires Enabled(s, a)
  {
    match a
    case Call(c, path) => s.(callers := s.callers[c := Calling(path)])
    case Enter(c) =>
      var path := s.callers[c].path;
      if path in s.paths then s.(callers := s.callers[c := Waiting(path)])
      else s.(callers := s.callers[c := Owning(path)], paths := s.paths[path := Running(c)])
    case BeginExport(c) =>
      var path := s.callers[c].path;
      s.(callers := s.callers[c := Exporting(path)], exportRuns := s.exportRuns[path := Runs(s, path) + 1])
    case EndExport(c, outcome) =>
      var path := s.callers[c].path;
      s.(callers := s.callers[c := Returned(path, outcome)],
         paths := s.paths[path := Done(outcome)],
         created := if outcome.Exported? then s.created + {outcome.tempFile} else s.created)
    case Wake(c) =>
      var path := s.callers[c].path;
      s.(callers := s.callers[c := Returned(path, s.paths[path].outcome)])
    case Cancel(c) => s.(callers := s.callers[c := Cancelled(s.callers[c].path)])
    case StartCleanup => s.(cleanup := Removing(s.paths.Keys))
    case RemoveOne(path) =>
      var outcome := s.paths[path].outcome;
      s.(cleanup := Removing(s.cleanup.todo - {path}),
         removed := if outcome.Exported? && outcome.tempFile != "" then s.removed + [outcome.tempFile] else s.removed)
  }

  function Next(s: State, a: Action): State {
    if Enabled(s, a) then Perform(s, a) else s
  }

  function After(actions: seq<Action>): State {
    if actions == [] then INITIAL else Next(After(actions[..|actions| - 1]), actions[|actions| - 1])
  }

  // ----- what every interleaving keeps -----

  /** The caller responsible for finishing a path that is not done. */
  ghost predicate Owns(s: State, c: nat, path: string) {
    c in s.callers && (s.callers[c] == Owning(path) || s.callers[c] == Exporting(path))
  }

  ghost predicate OwnersMatch(s: State) {
    && (forall p | p in s.paths && s.paths[p].Running? :: Owns(s, s.paths[p].owner, p))
    && (forall c | c in s.callers && (s.callers[c].Owning? || s.callers[c].Exporting?) ::
          s.callers[c].path in s.paths && s.paths[s.callers[c].path] == Running(c))
  }

  ghost predicate RunsMatch(s: State) {
    forall p :: Runs(s, p) ==
      if p !in s.paths then 0
      else match s.paths[p]
        case Running(o) => if o in s.callers && s.callers[o].Exporting? then 1 else 0
        case Done(_) => 1
  }

  ghost predicate ReturnsMatch(s: State) {
    && (forall c | c in s.callers && s.callers[c].Waiting? :: s.callers[c].path in s.paths)
    && (forall c | c in s.callers && s.callers[c].Returned? ::
          s.callers[c].path in s.paths && s.paths[s.callers[c].path] == Done(s.callers[c].outcome))
  }

  ghost predicate HasFile(s: State, p: string, f: string) {
    p in s.paths && s.paths[p] == Done(Exported(f))
  }

  ghost predicate FilesMatch(s: State) {
    && (forall f | f in s.created :: f != "" && exists p :: HasFile(s, p, f))
    && (forall p, f | HasFile(s, p, f) :: f in s.created)
    && (forall p, q, f | HasFile(s, p, f) && HasFile(s, q, f) :: p == q)
  }

  ghost predicate RemovedMatch(s: State) {
    && (s.cleanup.NotStarted? ==> s.removed == [])
    && (s.cleanup.Removing? ==>
          && (forall c | c in s.callers :: Finished(s.callers[c]))
          && (forall i, j | 0 <= i < j < |s.removed| :: s.removed[i] != s.removed[j])
          && (forall p, f | HasFile(s, p, f) :: f in s.removed <==> p !in s.cleanup.todo)
          && (forall f | f in s.removed :: f in s.created))
  }

  ghost predicate Inv(s: State) {
    OwnersMatch(s) && RunsMatch(s) && ReturnsMatch(s) && FilesMatch(s) && RemovedMatch(s)
  }

  lemma StepKeepsOwners(s: State, a: Action)
    requires OwnersMatch(s) && Enabled(s, a)
    ensures OwnersMatch(Perform(s, a))
  {
  }

  lemma StepKeepsReturns(s: State, a: Action)
    requires OwnersMatch(s) && ReturnsMatch(s) && Enabled(s, a)
    ensures ReturnsMatch(Perform(s, a))
  {
  }

  lemma StepKeepsRuns(s: State, a: Action)
    requires Inv(s) && Enabled(s, a)
    ensures RunsMatch(Perform(s, a))
  {
  }

  lemma StepKeepsFiles(s: State, a: Action)
    requires Inv(s) && Enabled(s, a)
    ensures FilesMatch(Perform(s, a))
  {
    var s' := Perform(s, a);
    forall f | f in s'.created ensures f != "" && exists p :: HasFile(s', p, f) {
      if f in s.created {
        var p :| HasFile(s, p, f);
        assert HasFile(s', p, f);
      } else {
        assert HasFile(s', s.callers[a.c].path, f);
      }
    }
    forall p, f | HasFile(s', p, f) ensures f in s'.created {
      assert HasFile(s, p, f) || f !in s.created;
    }
    forall p, q, f | HasFile(s', p, f) && HasFile(s', q, f) ensures p == q {
      assert HasFile(s, p, f) ==> f in s.created;
      assert HasFile(s, q, f) ==> f in s.created;
    }
  }

  lemma StepKeepsRemoved(s: State, a: Action)
    requires Inv(s) && Enabled(s, a)
    ensures RemovedMatch(Perform(s, a))
  {
    if a.RemoveOne? {
      RemoveOneKeepsRemoved(s, a.path);
    } else if a.StartCleanup? {
      assert forall p, f :: HasFile(Perform(s, a), p, f) == HasFile(s, p, f);
    } else if s.cleanup.Removing? {
      assert false;
    }
  }

  lemma RemoveOneKeepsRemoved(s: State, path: string)
    requires Inv(s) && Enabled(s, RemoveOne(path))
    ensures RemovedMatch(Perform(s, RemoveOne(path)))
  {
    var s' := Perform(s, RemoveOne(path));
    assert forall p, f :: HasFile(s', p, f) == HasFile(s, p, f);
    if s'.removed != s.removed {
      var f := s.paths[path].outcome.tempFile;
      assert HasFile(s, path, f);
      assert s'.removed == s.removed + [f] && f !in s.removed;
    }
  }

  lemma {:induction false} InvAlways(actions: seq<Action>)
    ensures Inv(After(actions))
    decreases |actions|
  {
    if actions != [] {
      var before, a := actions[..|actions| - 1], actions[|actions| - 1];
      InvAlways(before);
      var s := After(before);
      if Enabled(s, a) {
        StepKeepsOwners(s, a);
        StepKeepsReturns(s, a);
        StepKeepsRuns(s, a);
        StepKeepsFiles(s, a);
        StepKeepsRemoved(s, a);
      }
    }
  }

  /** In every interleaving the export of a path runs at most once, and whoever returns for that path
      returns the outcome of that one export. */
  lemma ExportedOnce(actions: seq<Action>, path: string)
    ensures var s := After(actions);
      && Runs(s, path) <= 1
      && forall c | c in s.callers && s.callers[c].Returned? && s.callers[c].path == path ::
           Runs(s, path) == 1 && path in s.paths && s.paths[path] == Done(s.callers[c].outcome)
  {
    InvAlways(actions);
  }

  /** An outcome, once there, never changes. */
  lemma OutcomeIsFinal(actions: seq<Action>, a: Action, path: string)
    requires path in After(actions).paths && After(actions).paths[path].Done?
    ensures path in After(actions + [a]).paths && After(actions + [a]).paths[path] == After(actions).paths[path]
  {
    InvAlways(actions);
    assert (actions + [a])[..|actions + [a]| - 1] == actions;
  }

  /** Nobody waits in vain: behind every waiting caller there is either an outcome to return or another
      caller that can take a step towards it. */
  lemma NobodyStuck(actions: seq<Action>, c: nat, outcome: Export)
    requires c in After(actions).callers && After(actions).callers[c].Waiting?
    requires outcome.ExportFailed?
    ensures var s := After(actions);
      || Enabled(s, Wake(c))
      || exists o :: Enabled(s, BeginExport(o)) || Enabled(s, EndExport(o, outcome))
  {
    InvAlways(actions);
    var s := After(actions);
    var path := s.callers[c].path;
    if s.paths[path].Running? {
      var o := s.paths[path].owner;
      assert Owns(s, o, path);
      assert Enabled(s, BeginExport(o)) || Enabled(s, EndExport(o, outcome));
    }
  }

  /** A cleanup that has gone through all paths has removed every file that was created, each once. */
  lemma CleanupRemovesEachOnce(actions: seq<Action>)
    requires After(actions).cleanup == Removing({})
    ensures var s := After(actions);
      && (forall i, j | 0 <= i < j < |s.removed| :: s.removed[i] != s.removed[j])
      && (set f | f in s.removed) == s.created
  {
    InvAlways(actions);
    var s := After(actions);
    forall f | f in s.created ensures f in s.removed {
      var p :| HasFile(s, p, f);
    }
  }

  /** And it always gets that far: while a path is left, it can be dealt with. */
  lemma CleanupProgress(actions: seq<Action>, path: string)
    requires After(actions).cleanup.Removing? && path in After(actions).cleanup.todo && path in After(actions).paths
    ensures Enabled(After(actions), RemoveOne(path))
  {
    InvAlways(actions);
    var s := After(actions);
    assert s.paths[path].Running? ==> Owns(s, s.paths[path].owner, path);
  }
}
