/**
 The runtime restarts of one `configureServer` call in packages/cloudflare-vite-plugin/src/dev-plugin.ts.
 Workers report export types at any moment; every report that changes them puts a restart on a
 promise chain; each restart awaits the closing, the start and the connection of a runtime.
 */
module Restart {
  import opened Options
  import opened ExportTypes

  /** The await at which a restart failed. */
  datatype Stage = AtClose | AtStart | AtConnect

  /** A restart on the chain: waiting for its predecessor, at one of its three awaits, or settled. */
  datatype Link =
    | Waiting
    | Closing
    | Starting(types: Exports)
    | Connecting
    | Succeeded
    | Failed(stage: Stage)
  {
    predicate Settled() {
      Succeeded? || Failed?
    }

    predicate InFlight() {
      Closing? || Starting? || Connecting?
    }
  }

  /** A started runtime: its serial number, the types it was generated for, and its address. */
  datatype Handle = Handle(serial: nat, generatedFor: Exports, address: string)

  /** The closure's variables, the chain, and the runtimes that are up. */
  datatype State = State(
    configured: Exports,
    exportTypes: Exports,
    handle: Handle,
    address: string,
    socketAddress: string,
    chain: seq<Link>,
    running: set<nat>)

  datatype Event =
    | Report(detected: Exports)
    | Begin(link: nat)
    | CloseDone(link: nat) | CloseFailed(link: nat)
    | StartDone(link: nat, address: string) | StartFailed(link: nat)
    | ConnectDone(link: nat) | ConnectFailed(link: nat)

  /** When the interpreter can take the step. A link begins once its predecessor has settled. */
  predicate Enabled(s: State, e: Event) {
    match e
    case Report(_) => true
    case Begin(i) => i < |s.chain| && s.chain[i].Waiting? && (i == 0 || s.chain[i - 1].Settled())
    case CloseDone(i) => i < |s.chain| && s.chain[i].Closing?
    case CloseFailed(i) => i < |s.chain| && s.chain[i].Closing?
    case StartDone(i, _) => i < |s.chain| && s.chain[i].Starting?
    case StartFailed(i) => i < |s.chain| && s.chain[i].Starting?
    case ConnectDone(i) => i < |s.chain| && s.chain[i].Connecting?
    case ConnectFailed(i) => i < |s.chain| && s.chain[i].Connecting?
  }

  function Next(s: State, e: Event): State
    requires Enabled(s, e)
  {
    match e
    case Report(detected) =>
      var next := Merge(s.configured, detected);
      if HaveChanged(s.exportTypes, next) then s.(exportTypes := next, chain := s.chain + [Waiting]) else s
    case Begin(i) => s.(chain := s.chain[i := Closing])
    case CloseDone(i) =>
      // The continuation reads the export types of this moment.
      s.(chain := s.chain[i := Starting(s.exportTypes)], running := s.running - {s.handle.serial})
    case StartDone(i, address) =>
      s.(handle := Handle(i + 1, s.chain[i].types, address), chain := s.chain[i := Connecting], running := s.running + {i + 1})
    case ConnectDone(i) =>
      s.(address := s.handle.address, socketAddress := s.handle.address, chain := s.chain[i := Succeeded])
    case CloseFailed(i) => s.(chain := s.chain[i := Failed(AtClose)])
    case StartFailed(i) => s.(chain := s.chain[i := Failed(AtStart)])
    case ConnectFailed(i) => s.(chain := s.chain[i := Failed(AtConnect)])
  }

  /** After the first start and connection, before any report of this call. */
  predicate Initial(s: State) {
    && s.chain == [] && s.handle.serial == 0 && s.running == {0}
    && s.handle.generatedFor == s.exportTypes && s.address == s.socketAddress == s.handle.address
    && forall k :: k in s.configured ==> k in s.exportTypes && s.exportTypes[k] == s.configured[k]
  }

  // ----- runs -----

  predicate IsRun(s: State, events: seq<Event>)
    decreases |events|
  {
    events == [] || (Enabled(s, events[0]) && IsRun(Next(s, events[0]), events[1..]))
  }

  function After(s: State, events: seq<Event>): State
    requires IsRun(s, events)
    decreases |events|
  {
    if events == [] then s else After(Next(s, events[0]), events[1..])
  }

  // ----- invariant -----

  /** Settled links, then at most one in flight, then waiting ones. */
  predicate Ordered(chain: seq<Link>) {
    forall i, j :: 0 <= i < j < |chain| ==> chain[i].Settled() || chain[j].Waiting?
  }

  predicate Drained(s: State) {
    forall i :: 0 <= i < |s.chain| ==> s.chain[i].Settled()
  }

  ghost predicate Invariant(s: State) {
    && Ordered(s.chain)
    && Submap(s.configured, s.exportTypes)
    && s.handle.serial <= |s.chain|
    && s.running <= {s.handle.serial}
    && (forall i :: 0 <= i < |s.chain| && s.chain[i].Starting? ==> s.running == {} && s.handle.serial <= i)
    && (forall i :: 0 <= i < |s.chain| && s.chain[i].Connecting? ==> s.running == {s.handle.serial} && s.handle.serial == i + 1)
    && (forall i :: 0 <= i < |s.chain| && (s.chain[i].Waiting? || s.chain[i].Closing?) ==> s.handle.serial <= i)
    && DownMatches(s)
    && UpToDate(s)
  }

  /** No runtime is up exactly when some link has left it so. */
  ghost predicate DownMatches(s: State) {
    s.running == {} <==> exists i :: 0 <= i < |s.chain| && IsDownSince(s.chain, i)
  }

  /** Link `i` closed the old runtime and has not, or not yet, started another; none after it got that far. */
  predicate IsDownSince(chain: seq<Link>, i: nat)
    requires i < |chain|
  {
    && (chain[i].Starting? || chain[i] == Failed(AtStart))
    && (forall j :: i < j < |chain| ==> chain[j].Waiting? || chain[j].Closing? || chain[j] == Failed(AtClose))
  }

  /** What holds of the last restart once it has read the export types. */
  ghost predicate UpToDate(s: State) {
    if s.chain == [] then Serving(s)
    else
      var last := s.chain[|s.chain| - 1];
      && (last.Starting? ==> last.types == s.exportTypes)
      && (last.Connecting? ==> s.handle.generatedFor == s.exportTypes)
      && (last.Succeeded? ==> Serving(s))
  }

  /** The live handle was generated for the current types, and requests go to its address. */
  ghost predicate Serving(s: State) {
    && s.handle.generatedFor == s.exportTypes
    && s.running == {s.handle.serial}
    && s.address == s.socketAddress == s.handle.address
  }

  lemma StepKeeps(s: State, e: Event)
    requires Invariant(s) && Enabled(s, e) && !e.Report?
    ensures Invariant(Next(s, e))
  {
    var i, t := e.link, Next(s, e);
    OthersStand(s, e);
    StepKeepsDown(s, e);
    assert forall k :: 0 <= k < |s.chain| && k != i ==> t.chain[k] == s.chain[k];
  }

  /** When a restart takes a step, those before it have settled and those behind it wait. */
  lemma OthersStand(s: State, e: Event)
    requires Invariant(s) && Enabled(s, e) && !e.Report?
    ensures forall k :: 0 <= k < e.link ==> s.chain[k].Settled()
    ensures forall k :: e.link < k < |s.chain| ==> s.chain[k].Waiting?
  {
    var i := e.link;
    forall k | 0 <= k < i
      ensures s.chain[k].Settled()
    {
      if e.Begin? && k < i - 1 {
        assert s.chain[i - 1].Settled();
      }
    }
  }

  lemma StepKeepsDown(s: State, e: Event)
    requires Invariant(s) && Enabled(s, e) && !e.Report?
    ensures DownMatches(Next(s, e))
  {
    var i, t := e.link, Next(s, e);
    OthersStand(s, e);
    assert forall k :: 0 <= k < |s.chain| && k != i ==> t.chain[k] == s.chain[k];
    match e
    case CloseDone(_) =>
      assert IsDownSince(t.chain, i);
    case StartDone(_, _) =>
      NoneDown(t.chain, i);
    case ConnectDone(_) =>
      NoneDown(t.chain, i);
    case ConnectFailed(_) =>
      NoneDown(t.chain, i);
    case Begin(_) =>
      SameDown(s.chain, t.chain, i);
    case CloseFailed(_) =>
      SameDown(s.chain, t.chain, i);
    case StartFailed(_) =>
      SameDown(s.chain, t.chain, i);
    case Report(_) =>
  }

  lemma SameDown(before: seq<Link>, after: seq<Link>, i: nat)
    requires i < |before| == |after| && after == before[i := after[i]]
    requires if before[i].Starting? then after[i] == Failed(AtStart)
             else (before[i].Waiting? || before[i].Closing?) && (after[i].Closing? || after[i] == Failed(AtClose))
    ensures forall k :: 0 <= k < |before| ==> (IsDownSince(after, k) <==> IsDownSince(before, k))
  {
    forall k | 0 <= k < |before|
      ensures IsDownSince(after, k) <==> IsDownSince(before, k)
    {
      assert forall j :: 0 <= j < |before| && j != i ==> after[j] == before[j];
    }
  }

  lemma NoneDown(chain: seq<Link>, i: nat)
    requires i < |chain| && (chain[i].Connecting? || chain[i].Succeeded? || chain[i] == Failed(AtConnect))
    requires forall k :: i < k < |chain| ==> chain[k].Waiting?
    ensures forall k :: 0 <= k < |chain| ==> !IsDownSince(chain, k)
  {
  }

  lemma ReportKeeps(s: State, detected: Exports)
    requires Invariant(s)
    ensures Invariant(Next(s, Report(detected)))
  {
    var t := Next(s, Report(detected));
    ChangedMeansDifferent(s.exportTypes, Merge(s.configured, detected));
    if t != s {
      assert forall k :: 0 <= k < |s.chain| ==> t.chain[k] == s.chain[k];
      DownStays(s.chain, t.chain);
    }
  }

  /** A link that has only begun to wait changes nothing about what is up. */
  lemma DownStays(before: seq<Link>, after: seq<Link>)
    requires after == before + [Waiting]
    ensures (exists i :: 0 <= i < |before| && IsDownSince(before, i)) <==> (exists i :: 0 <= i < |after| && IsDownSince(after, i))
  {
    forall i | 0 <= i < |before|
      ensures IsDownSince(before, i) <==> IsDownSince(after, i)
    {
      assert forall j :: 0 <= j < |before| ==> after[j] == before[j];
    }
  }

  lemma {:induction false} RunKeeps(s: State, events: seq<Event>)
    requires Invariant(s) && IsRun(s, events)
    ensures Invariant(After(s, events))
    decreases |events|
  {
    if events != [] {
      if events[0].Report? {
        ReportKeeps(s, events[0].detected);
      } else {
        StepKeeps(s, events[0]);
      }
      RunKeeps(Next(s, events[0]), events[1..]);
    }
  }

  // ----- what every run guarantees -----

  ghost predicate Reaches(s: State, events: seq<Event>, t: State) {
    Initial(s) && IsRun(s, events) && t == After(s, events)
  }

  /** In every reachable state at most one restart is in flight. */
  lemma OneRestartInFlight(s: State, events: seq<Event>, t: State, i: nat, j: nat)
    requires Reaches(s, events, t) && i < j < |t.chain|
    ensures !(t.chain[i].InFlight() && t.chain[j].InFlight())
  {
    RunKeeps(s, events);
  }

  /** A runtime only ever starts when none is up, so there is never more than one. */
  lemma NoStartBeforeClose(s: State, events: seq<Event>, t: State, i: nat)
    requires Reaches(s, events, t)
    ensures |t.running| <= 1
    ensures i < |t.chain| && t.chain[i].Starting? ==> t.running == {}
  {
    RunKeeps(s, events);
    assert t.running == {} || t.running == {t.handle.serial};
  }

  /**
   Once the chain has drained with the last restart successful (or none was needed), the one live
   runtime was generated for the current export types, which extend the configured ones, and both
   requests and sockets go to its address.
   */
  lemma DrainedMeansServing(s: State, events: seq<Event>, t: State)
    requires Reaches(s, events, t) && Drained(t)
    requires t.chain == [] || t.chain[|t.chain| - 1].Succeeded?
    ensures Serving(t) && Submap(t.configured, t.exportTypes)
  {
    InvariantReached(s, events, t);
    DrainedServes(t);
  }

  lemma DrainedServes(t: State)
    requires Invariant(t) && Drained(t) && (t.chain == [] || t.chain[|t.chain| - 1].Succeeded?)
    ensures Serving(t) && Submap(t.configured, t.exportTypes)
  {
    forall i | 0 <= i < |t.chain|
      ensures !IsDownSince(t.chain, i)
    {
      assert t.chain[|t.chain| - 1].Succeeded?;
    }
  }

  lemma InvariantReached(s: State, events: seq<Event>, t: State)
    requires Reaches(s, events, t)
    ensures Invariant(t)
  {
    RunKeeps(s, events);
  }

  // ----- what a failure leaves -----

  /**
   When the chain has drained, no runtime is up exactly when, of the restarts that closed the runtime
   before them, the last one could not start another; those after it failed to close anything.
   */
  lemma DrainedDownExactly(s: State, events: seq<Event>, t: State)
    requires Reaches(s, events, t) && Drained(t)
    ensures t.running == {}
       <==> exists i :: 0 <= i < |t.chain| && t.chain[i] == Failed(AtStart)
                        && forall j :: i < j < |t.chain| ==> t.chain[j] == Failed(AtClose)
  {
    RunKeeps(s, events);
    if t.running == {} {
      var i :| 0 <= i < |t.chain| && IsDownSince(t.chain, i);
      assert t.chain[i].Settled();
      assert forall j :: i < j < |t.chain| ==> t.chain[j].Settled();
    }
    if i :| 0 <= i < |t.chain| && t.chain[i] == Failed(AtStart) && forall j :: i < j < |t.chain| ==> t.chain[j] == Failed(AtClose) {
      assert IsDownSince(t.chain, i);
    }
  }

  lemma RunFirst(s: State, e: Event, rest: seq<Event>)
    requires Enabled(s, e) && IsRun(Next(s, e), rest)
    ensures IsRun(s, [e] + rest) && After(s, [e] + rest) == After(Next(s, e), rest)
  {
    assert ([e] + rest)[1..] == rest;
  }

  lemma RunOfTwo(s: State, t: State, e: Event, f: Event, rest: seq<Event>)
    requires Enabled(s, e) && Enabled(Next(s, e), f) && t == Next(Next(s, e), f) && IsRun(t, rest)
    ensures IsRun(s, [e, f] + rest) && After(s, [e, f] + rest) == After(t, rest)
  {
    RunFirst(Next(s, e), f, rest);
    RunFirst(s, e, [f] + rest);
    assert [e, f] + rest == [e] + ([f] + rest);
  }

  /** One report and a runtime that cannot be started lead there. */
  lemma FailedStartLeavesNothing(s: State, detected: Exports) returns (events: seq<Event>, t: State)
    requires Initial(s) && !AreTypesFor(s.exportTypes, s.configured, detected)
    ensures Reaches(s, events, t) && Drained(t)
    ensures t.running == {} && t.chain == [Failed(AtStart)] && AreTypesFor(t.exportTypes, s.configured, detected)
  {
    OnlyMerge(s.exportTypes, s.configured, detected);
    ChangedMeansDifferent(s.exportTypes, Merge(s.configured, detected));
    var begun := Next(Next(s, Report(detected)), Begin(0));
    assert Next(s, Report(detected)).chain == [Waiting];
    assert begun.chain == [Closing];
    t := CloseAndFail(begun);
    RunOfTwo(s, begun, Report(detected), Begin(0), [CloseDone(0), StartFailed(0)]);
    events := [Report(detected), Begin(0)] + [CloseDone(0), StartFailed(0)];
  }

  lemma CloseAndFail(s: State) returns (t: State)
    requires s.chain == [Closing]
    ensures var events := [CloseDone(0), StartFailed(0)]; IsRun(s, events) && After(s, events) == t
    ensures t == s.(chain := [Failed(AtStart)], running := s.running - {s.handle.serial})
  {
    var closed := Next(s, CloseDone(0));
    assert closed.chain == [Starting(s.exportTypes)];
    t := Next(closed, StartFailed(0));
    RunOfTwo(s, t, CloseDone(0), StartFailed(0), []);
    assert [CloseDone(0), StartFailed(0)] + [] == [CloseDone(0), StartFailed(0)];
  }

  /** No report in the run brings other types than the current ones. */
  predicate Unchanging(s: State, events: seq<Event>) {
    forall i :: 0 <= i < |events| && events[i].Report? ==> AreTypesFor(s.exportTypes, s.configured, events[i].detected)
  }

  /**
   A failed restart is not tried again: once the chain has drained with no runtime up, no run brings
   one up, whatever is reported, until a report changes the types.
   */
  lemma {:induction false} FailureIsNotRetried(t: State, events: seq<Event>)
    requires Drained(t) && t.running == {} && IsRun(t, events) && Unchanging(t, events)
    ensures After(t, events) == t && !Serving(After(t, events))
    decreases |events|
  {
    if events != [] {
      if events[0].Report? {
        OnlyMerge(t.exportTypes, t.configured, events[0].detected);
        ChangedMeansDifferent(t.exportTypes, Merge(t.configured, events[0].detected));
      }
      assert Next(t, events[0]) == t;
      FailureIsNotRetried(t, events[1..]);
    }
  }

  /** Such a report does queue another restart. */
  lemma ChangeIsTried(t: State, detected: Exports)
    requires Drained(t) && !AreTypesFor(t.exportTypes, t.configured, detected)
    ensures Next(t, Report(detected)).chain == t.chain + [Waiting]
    ensures Enabled(Next(t, Report(detected)), Begin(|t.chain|))
  {
    OnlyMerge(t.exportTypes, t.configured, detected);
    ChangedMeansDifferent(t.exportTypes, Merge(t.configured, detected));
  }

  lemma TypesAfter(t: State, e: Event)
    requires Enabled(t, e)
    ensures Next(t, e).configured == t.configured
    ensures Next(t, e).exportTypes == if e.Report? then Merge(t.configured, e.detected) else t.exportTypes
  {
    if e.Report? {
      ChangedMeansDifferent(t.exportTypes, Merge(t.configured, e.detected));
    }
  }

  predicate Quiet(events: seq<Event>) {
    forall i :: 0 <= i < |events| ==> !events[i].Report?
  }

  lemma {:induction false} QuietKeepsTypes(s: State, events: seq<Event>)
    requires IsRun(s, events) && Quiet(events)
    ensures After(s, events).exportTypes == s.exportTypes
    decreases |events|
  {
    if events != [] {
      TypesAfter(s, events[0]);
      QuietKeepsTypes(Next(s, events[0]), events[1..]);
    }
  }

  /** The export types are those of the latest report, with the configuration on top. */
  lemma {:induction false} TypesAreLatest(s: State, before: seq<Event>, detected: Exports, after: seq<Event>)
    requires IsRun(s, before + ([Report(detected)] + after)) && Quiet(after)
    ensures AreTypesFor(After(s, before + ([Report(detected)] + after)).exportTypes, s.configured, detected)
    decreases |before|
  {
    var rest := [Report(detected)] + after;
    if before == [] {
      assert before + rest == rest && rest[1..] == after;
      TypesAfter(s, rest[0]);
      QuietKeepsTypes(Next(s, rest[0]), after);
    } else {
      assert (before + rest)[0] == before[0] && (before + rest)[1..] == before[1..] + rest;
      TypesAfter(s, before[0]);
      TypesAreLatest(Next(s, before[0]), before[1..], detected, after);
    }
  }

  // ----- the closure itself -----

  class DevRuntime {
    const configured: Exports
    var exportTypes: Exports
    var handle: Handle
    var address: string
    var socketAddress: string
    var chain: seq<Link>
    ghost var running: set<nat>

    /** The first `startServer` and `connect`; `kept` are the types an earlier call left behind. */
    constructor (configured: Exports, kept: Exports, address: string)
      requires Submap(configured, kept)
      ensures Valid() && Initial(View()) && this.configured == configured && exportTypes == kept
    {
      this.configured := configured;
      exportTypes := kept;
      handle := Handle(0, kept, address);
      this.address := address;
      socketAddress := address;
      chain := [];
      running := {0};
    }

    ghost function View(): State
      reads this
    {
      State(configured, exportTypes, handle, address, socketAddress, chain, running)
    }

    ghost predicate Valid()
      reads this
    {
      Invariant(View())
    }

    /** Queues a restart, and says so, exactly when the merged types differ from the current ones. */
    method ApplyExportTypes(detected: Exports) returns (queued: bool)
      requires Valid()
      modifies this`exportTypes, this`chain
      ensures Valid() && View() == Next(old(View()), Report(detected))
      ensures AreTypesFor(exportTypes, configured, detected)
      ensures queued <==> !AreTypesFor(old(exportTypes), configured, detected)
      ensures chain == old(chain) + (if queued then [Waiting] else [])
    {
      var next := Merge(configured, detected);
      OnlyMerge(exportTypes, configured, detected);
      ChangedMeansDifferent(exportTypes, next);
      if !HaveChanged(exportTypes, next) {
        return false;
      }
      ReportKeeps(View(), detected);
      exportTypes := next;
      chain := chain + [Waiting];
      return true;
    }

    /** `restartRuntime` up to its first await: whatever was queued before has settled. */
    method RestartBegins(i: nat)
      requires Valid() && Enabled(View(), Begin(i))
      modifies this`chain
      ensures Valid() && View() == Next(old(View()), Begin(i))
      ensures forall j :: 0 <= j < i ==> chain[j].Settled()
      ensures forall j :: i < j < |chain| ==> chain[j].Waiting?
    {
      StepKeeps(View(), Begin(i));
      chain := chain[i := Closing];
    }

    /**
     From the first await to the second: the old runtime is closed, and with it every runtime, and the
     next one is to be started for the types of this moment (or closing failed and nothing changed).
     */
    method RuntimeClosed(i: nat, failed: bool)
      requires Valid() && Enabled(View(), CloseDone(i))
      modifies this`chain, this`running
      ensures Valid() && View() == Next(old(View()), if failed then CloseFailed(i) else CloseDone(i))
      ensures if failed then running == old(running) else running == {} && chain[i] == Starting(exportTypes)
    {
      StepKeeps(View(), if failed then CloseFailed(i) else CloseDone(i));
      if failed {
        chain := chain[i := Failed(AtClose)];
        return;
      }
      running := running - {handle.serial};
      chain := chain[i := Starting(exportTypes)];
    }

    /** From the second await to the third: `startServer` returned a handle, now the only one up (or none is). */
    method ServerStarted(i: nat, result: Option<string>)
      requires Valid() && Enabled(View(), StartDone(i, ""))
      modifies this`chain, this`handle, this`running
      ensures Valid() && View() == Next(old(View()), if result.Some? then StartDone(i, result.value) else StartFailed(i))
      ensures result.Some? ==> running == {handle.serial} && handle == Handle(handle.serial, old(chain[i].types), result.value)
      ensures result.None? ==> running == {}
      ensures result.Some? && i == |chain| - 1 ==> handle.generatedFor == exportTypes
    {
      StepKeeps(View(), if result.Some? then StartDone(i, result.value) else StartFailed(i));
      match result
      case None =>
        chain := chain[i := Failed(AtStart)];
      case Some(at) =>
        handle := Handle(i + 1, chain[i].types, at);
        running := running + {i + 1};
        chain := chain[i := Connecting];
    }

    /**
     After the last await: requests and sockets go to the live runtime, and if nothing was reported
     meanwhile it serves the current types (or connecting failed and they still go where they went).
     */
    method Connected(i: nat, failed: bool)
      requires Valid() && Enabled(View(), ConnectDone(i))
      modifies this`chain, this`address, this`socketAddress
      ensures Valid() && View() == Next(old(View()), if failed then ConnectFailed(i) else ConnectDone(i))
      ensures running == {handle.serial}
      ensures if failed then address == old(address) else address == socketAddress == handle.address
      ensures !failed && i == |chain| - 1 ==> Serving(View())
    {
      StepKeeps(View(), if failed then ConnectFailed(i) else ConnectDone(i));
      if failed {
        chain := chain[i := Failed(AtConnect)];
        return;
      }
      address := handle.address;
      socketAddress := address;
      chain := chain[i := Succeeded];
    }
  }
}
