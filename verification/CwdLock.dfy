/**
 `withRootCwd` of packages/waku/src/source.ts and packages/sveltekit/src/source.ts: callers that
 switch the process's working directory, one at a time, under one permit.
 */
module CwdLock {
  import opened Options
  import opened Paths

  /**
   Where a caller stands: `previous` is the directory it will go back to, `at` the one its body has
   put the process in, by itself if `moved`.
   */
  datatype Phase =
    | Waiting
    | Holding
    | Running(previous: string, at: string, moved: bool)
    | Finished(previous: string, at: string)
    | Leaving
    | Done

  datatype Caller = Caller(root: string, phase: Phase)

  datatype Process = Process(cwd: string, holder: Option<nat>, callers: seq<Caller>)

  datatype Event =
    | Call(rootDir: Option<string>)       // `rootDirOf` is evaluated before the permit is asked for
    | Acquire(i: nat)
    | Enter(i: nat, found: bool)          // `process.chdir(rootDir)`, which throws if there is no such directory
    | Move(i: nat, dir: string)           // a body that changes the directory itself
    | Finish(i: nat)                      // with a result, a failure or an interruption
    | Restore(i: nat)
    | Release(i: nat)
    | Cancel(i: nat)                      // interrupted while waiting

  function Set(p: Process, i: nat, phase: Phase): Process
    requires i < |p.callers|
  {
    p.(callers := p.callers[i := p.callers[i].(phase := phase)])
  }

  /** `rootDirOf`: a given root is resolved against the working directory, a missing one is that directory. */
  function RootOf(cwd: string, rootDir: Option<string>): string {
    if rootDir.Some? then Resolve(cwd, rootDir.value) else cwd
  }

  predicate Enabled(p: Process, e: Event) {
    match e
    case Call(_) => true
    case Acquire(i) => i < |p.callers| && p.callers[i].phase.Waiting? && p.holder.None?
    case Enter(i, _) => i < |p.callers| && p.callers[i].phase.Holding?
    case Move(i, _) => i < |p.callers| && p.callers[i].phase.Running?
    case Finish(i) => i < |p.callers| && p.callers[i].phase.Running?
    case Restore(i) => i < |p.callers| && p.callers[i].phase.Finished?
    case Release(i) => i < |p.callers| && p.callers[i].phase.Leaving?
    case Cancel(i) => i < |p.callers| && p.callers[i].phase.Waiting?
  }

  function Next(p: Process, e: Event): Process {
    if !Enabled(p, e) then p
    else
      match e
      case Call(rootDir) => p.(callers := p.callers + [Caller(RootOf(p.cwd, rootDir), Waiting)])
      case Acquire(i) => Set(p, i, Holding).(holder := Some(i))
      case Enter(i, ok) =>
        var root := p.callers[i].root;
        if ok then Set(p, i, Running(p.cwd, root, false)).(cwd := root) else Set(p, i, Leaving)
      case Move(i, dir) => Set(p, i, Running(p.callers[i].phase.previous, dir, true)).(cwd := dir)
      case Finish(i) => Set(p, i, Finished(p.callers[i].phase.previous, p.callers[i].phase.at))
      case Restore(i) => Set(p, i, Leaving).(cwd := p.callers[i].phase.previous)
      case Release(i) => Set(p, i, Done).(holder := None)
      case Cancel(i) => Set(p, i, Done)
  }

  function Run(p: Process, events: seq<Event>): Process
    decreases |events|
  {
    if events == [] then p else Run(Next(p, events[0]), events[1..])
  }

  function Start(original: string): Process {
    Process(original, None, [])
  }

  predicate HasPermit(phase: Phase) {
    !phase.Waiting? && !phase.Done?
  }

  /** The permit's holder is the one caller past waiting; what the directory is follows from its phase. */
  predicate Sound(original: string, p: Process) {
    && (forall i :: 0 <= i < |p.callers| ==> (HasPermit(p.callers[i].phase) <==> p.holder == Some(i)))
    && (p.holder.Some? ==> p.holder.value < |p.callers|)
    && match p.holder {
         case None => p.cwd == original
         case Some(i) =>
           match p.callers[i].phase {
             case Running(previous, at, moved) => previous == original && p.cwd == at && (!moved ==> at == p.callers[i].root)
             case Finished(previous, at) => previous == original && p.cwd == at
             case _ => p.cwd == original
           }
       }
  }

  lemma StepKeepsSound(original: string, p: Process, e: Event)
    requires Sound(original, p)
    ensures Sound(original, Next(p, e))
  {
  }

  lemma {:induction false} RunKeepsSound(original: string, p: Process, events: seq<Event>)
    requires Sound(original, p)
    ensures Sound(original, Run(p, events))
    decreases |events|
  {
    if events != [] {
      StepKeepsSound(original, p, events[0]);
      RunKeepsSound(original, Next(p, events[0]), events[1..]);
    }
  }

  /**
   In every interleaving, bodies that fail included: at most one body runs; it runs in its own root
   for as long as it does not leave it itself; and whenever the permit is free the working directory
   is the original one.
   */
  lemma BodiesRunInTheirRoots(original: string, events: seq<Event>, i: nat, j: nat)
    ensures
      var p := Run(Start(original), events);
      && (i < |p.callers| && p.callers[i].phase.Running? && !p.callers[i].phase.moved ==> p.cwd == p.callers[i].root)
      && (i < |p.callers| && j < |p.callers| && p.callers[i].phase.Running? && p.callers[j].phase.Running? ==> i == j)
      && (p.holder.None? ==> p.cwd == original)
  {
    RunKeepsSound(original, Start(original), events);
  }

  // ----- how the permit comes free -----

  /** What is left to do for the permit's holder: end the body, go back, give the permit back. */
  function Ending(i: nat, phase: Phase): seq<Event> {
    match phase
    case Holding => [Enter(i, false), Release(i)]
    case Running(_, _, _) => [Finish(i), Restore(i), Release(i)]
    case Finished(_, _) => [Restore(i), Release(i)]
    case Leaving => [Release(i)]
    case _ => []
  }

  /** The permit is free, the process is back, this caller is done, and the others stand where they stood. */
  predicate IsFreed(original: string, before: Process, i: nat, after: Process) {
    && after.holder.None? && after.cwd == original
    && |after.callers| == |before.callers|
    && forall j :: 0 <= j < |after.callers| ==>
         after.callers[j] == if j == i then before.callers[j].(phase := Done) else before.callers[j]
  }

  lemma ReleaseFrees(original: string, p: Process, i: nat)
    requires i < |p.callers| && p.callers[i].phase.Leaving? && p.cwd == original
    ensures IsFreed(original, p, i, Run(p, [Release(i)]))
  {
    assert [Release(i)][1..] == [];
    assert Run(p, [Release(i)]) == Next(p, Release(i));
  }

  lemma RestoreFrees(original: string, p: Process, i: nat)
    requires i < |p.callers| && p.callers[i].phase.Finished? && p.callers[i].phase.previous == original
    ensures IsFreed(original, p, i, Run(p, [Restore(i), Release(i)]))
  {
    assert [Restore(i), Release(i)][1..] == [Release(i)];
    ReleaseFrees(original, Next(p, Restore(i)), i);
  }

  lemma HolderIsFreed(original: string, p: Process, i: nat)
    requires Sound(original, p) && p.holder == Some(i)
    ensures IsFreed(original, p, i, Run(p, Ending(i, p.callers[i].phase)))
  {
    match p.callers[i].phase
    case Holding =>
      assert [Enter(i, false), Release(i)][1..] == [Release(i)];
      ReleaseFrees(original, Next(p, Enter(i, false)), i);
    case Running(_, _, _) =>
      assert [Finish(i), Restore(i), Release(i)][1..] == [Restore(i), Release(i)];
      RestoreFrees(original, Next(p, Finish(i)), i);
    case Finished(_, _) =>
      RestoreFrees(original, p, i);
    case Leaving =>
      ReleaseFrees(original, p, i);
  }

  lemma FreeIsTaken(original: string, p: Process, j: nat)
    requires p.holder.None? && p.cwd == original && j < |p.callers| && p.callers[j].phase.Waiting?
    ensures
      var q := Run(p, [Acquire(j), Enter(j, true)]);
      && q.cwd == p.callers[j].root && q.holder == Some(j)
      && j < |q.callers| && q.callers[j] == Caller(p.callers[j].root, Running(original, p.callers[j].root, false))
  {
    var q := Next(p, Acquire(j));
    assert [Acquire(j), Enter(j, true)][1..] == [Enter(j, true)] && [Enter(j, true)][1..] == [];
    assert Run(q, [Enter(j, true)]) == Next(q, Enter(j, true));
  }

  /**
   However far the permit's holder has come, when its body ends, its directory is undone and the permit
   is given back, the process is where it was, and any caller that waits can begin in its own root.
   */
  lemma NextCallerCanBegin(original: string, events: seq<Event>, i: nat, j: nat)
    requires
      var p := Run(Start(original), events);
      p.holder == Some(i) && i < |p.callers| && j < |p.callers| && p.callers[j].phase.Waiting?
    ensures
      var p := Run(Start(original), events);
      var freed := Run(p, Ending(i, p.callers[i].phase));
      var begun := Run(freed, [Acquire(j), Enter(j, true)]);
      && IsFreed(original, p, i, freed)
      && begun.cwd == p.callers[j].root && begun.holder == Some(j)
      && j < |begun.callers| && begun.callers[j] == Caller(p.callers[j].root, Running(original, p.callers[j].root, false))
  {
    var p := Run(Start(original), events);
    RunKeepsSound(original, Start(original), events);
    HolderIsFreed(original, p, i);
    FreeIsTaken(original, Run(p, Ending(i, p.callers[i].phase)), j);
  }

  /** The caller's body runs, or has ended without being undone yet. */
  predicate IsInside(phase: Phase) {
    phase.Running? || phase.Finished?
  }

  /**
   The root a new caller gets is the one it would get in the original directory exactly when that can
   be said of the directory of every body that runs or is still to be undone.
   */
  lemma CallerGetsIntendedRoot(original: string, events: seq<Event>, rootDir: Option<string>)
    ensures
      var p := Run(Start(original), events);
      var q := Next(p, Call(rootDir));
      q.callers[|p.callers|].root == RootOf(original, rootDir)
      <==> forall i :: 0 <= i < |p.callers| && IsInside(p.callers[i].phase) ==>
             RootOf(p.callers[i].phase.at, rootDir) == RootOf(original, rootDir)
  {
    var p := Run(Start(original), events);
    RunKeepsSound(original, Start(original), events);
    assert p.holder.Some? ==> HasPermit(p.callers[p.holder.value].phase);
  }

  /** Without a root of its own it gets the original directory exactly when every such body is there. */
  lemma DefaultRootIsOriginal(original: string, events: seq<Event>)
    ensures
      var p := Run(Start(original), events);
      var q := Next(p, Call(None));
      q.callers[|p.callers|].root == original
      <==> forall i :: 0 <= i < |p.callers| && IsInside(p.callers[i].phase) ==> p.callers[i].phase.at == original
  {
    CallerGetsIntendedRoot(original, events, None);
  }

  /** An absolute root is what it is, whoever runs. */
  lemma AbsoluteRootIsIntended(original: string, events: seq<Event>, rootDir: string)
    requires IsAbsolute(rootDir)
    ensures
      var p := Run(Start(original), events);
      Next(p, Call(Some(rootDir))).callers[|p.callers|].root == AbsolutePath(SegmentsOf(rootDir))
  {
  }

  /** So the second of two callers can end up building in the first one's root. */
  lemma DefaultRootCanBeAnothers(original: string, other: string) returns (events: seq<Event>)
    ensures
      var p, root := Run(Start(original), events), Resolve(original, other);
      |p.callers| == 2 && p.callers[1] == Caller(root, Waiting) && p.callers[0] == Caller(root, Running(original, root, false))
  {
    var root := Resolve(original, other);
    events := [Call(Some(other)), Acquire(0), Enter(0, true), Call(None)];
    RunFour(Start(original), events);
    var p1 := Next(Start(original), events[0]);
    assert p1.callers == [Caller(root, Waiting)];
    var p2 := Next(p1, events[1]);
    assert p2 == Process(original, Some(0), [Caller(root, Holding)]);
    var p3 := Next(p2, events[2]);
    assert p3 == Process(root, Some(0), [Caller(root, Running(original, root, false))]);
  }

  lemma RunFour(p: Process, es: seq<Event>)
    requires |es| == 4
    ensures Run(p, es) == Next(Next(Next(Next(p, es[0]), es[1]), es[2]), es[3])
  {
    var es1 := es[1..];
    var es2 := es1[1..];
    var es3 := es2[1..];
    assert es1[0] == es[1] && es2[0] == es[2] && es3[0] == es[3] && es3[1..] == [];
    var p3 := Next(Next(Next(p, es[0]), es[1]), es[2]);
    assert Run(p3, es3) == Next(p3, es[3]);
    assert Run(Next(Next(p, es[0]), es[1]), es2) == Run(p3, es3);
  }
}
