/**
 `requestExportTypes` and the listener bookkeeping it relies on, in
 packages/cloudflare-vite-plugin/src/dev-environment.ts. Requests, replies and timeouts interleave freely.
 */
module ExportRequests {
  import opened Options
  import opened ExportTypes

  /** A call of `resolve`: which request, and with what. */
  datatype Answer = Answer(request: nat, value: Option<Exports>)

  /** Requests made so far, registered listeners in order, armed timers, and resolutions in order. */
  datatype State = State(asked: nat, listeners: seq<nat>, timers: set<nat>, answers: seq<Answer>)

  /** A reply carries export types, or nothing where the data were of another shape. */
  datatype Event = Ask | Reply(data: Option<Exports>) | Timeout(request: nat)

  const NEW := State(0, [], {}, [])

  predicate Enabled(s: State, e: Event) {
    e.Timeout? ==> e.request in s.timers
  }

  function Off(listeners: seq<nat>, l: nat): seq<nat> {
    if listeners == [] then []
    else if listeners[0] == l then listeners[1..] else [listeners[0]] + Off(listeners[1..], l)
  }

  /** One listener, or one timer, fires: it disarms, unregisters and resolves its own request. */
  function Resolve(s: State, l: nat, value: Option<Exports>): State {
    s.(timers := s.timers - {l}, listeners := Off(s.listeners, l), answers := s.answers + [Answer(l, value)])
  }

  /** The dispatch calls the registered listeners in order. */
  function ResolveAll(s: State, ls: seq<nat>, value: Option<Exports>): State
    decreases |ls|
  {
    if ls == [] then s else ResolveAll(Resolve(s, ls[0], value), ls[1..], value)
  }

  function Next(s: State, e: Event): State
    requires Enabled(s, e)
  {
    match e
    case Ask => s.(asked := s.asked + 1, listeners := s.listeners + [s.asked], timers := s.timers + {s.asked})
    case Reply(data) => ResolveAll(s, s.listeners, data)
    case Timeout(l) => Resolve(s, l, None)
  }

  predicate IsRun(s: State, events: seq<Event>)
    decreases |events|
  {
    events == [] || (Enabled(s, events[0]) && IsRun(Next(s, events[0]), events[1..]))
  }

  function Run(s: State, events: seq<Event>): State
    requires IsRun(s, events)
    decreases |events|
  {
    if events == [] then s else Run(Next(s, events[0]), events[1..])
  }

  function Resolutions(answers: seq<Answer>, request: nat): nat {
    if answers == [] then 0
    else Resolutions(answers[..|answers| - 1], request) + (if answers[|answers| - 1].request == request then 1 else 0)
  }

  lemma ResolutionsSnoc(answers: seq<Answer>, a: Answer, request: nat)
    ensures Resolutions(answers + [a], request) == Resolutions(answers, request) + (if a.request == request then 1 else 0)
  {
    assert (answers + [a])[..|answers|] == answers;
  }

  /** Each request is either unanswered, with its listener and timer, or resolved exactly once. */
  ghost predicate Invariant(s: State) {
    && (forall i, j :: 0 <= i < j < |s.listeners| ==> s.listeners[i] != s.listeners[j])
    && (forall l :: l in s.listeners <==> l in s.timers)
    && (forall l :: l in s.listeners ==> l < s.asked)
    && (forall r: nat :: Resolutions(s.answers, r) == if r < s.asked && r !in s.listeners then 1 else 0)
  }

  lemma {:induction false} OffRemoves(ls: seq<nat>, l: nat)
    requires forall i, j :: 0 <= i < j < |ls| ==> ls[i] != ls[j]
    ensures forall k :: k in Off(ls, l) <==> k in ls && k != l
    ensures forall i, j :: 0 <= i < j < |Off(ls, l)| ==> Off(ls, l)[i] != Off(ls, l)[j]
  {
    if ls != [] {
      OffRemoves(ls[1..], l);
      assert forall k :: k in ls <==> k == ls[0] || k in ls[1..];
      var r := Off(ls[1..], l);
      assert forall i :: 0 <= i < |r| ==> r[i] in ls[1..];
    }
  }

  lemma ResolveKeeps(s: State, l: nat, value: Option<Exports>)
    requires Invariant(s) && l in s.listeners
    ensures Invariant(Resolve(s, l, value))
    ensures forall k :: k in Resolve(s, l, value).listeners <==> k in s.listeners && k != l
  {
    OffRemoves(s.listeners, l);
    forall r: nat {
      ResolutionsSnoc(s.answers, Answer(l, value), r);
    }
  }

  lemma EmptyOrMember(ls: seq<nat>)
    ensures ls == [] || exists l :: l in ls
  {
    if ls != [] {
      assert ls[0] in ls;
    }
  }

  lemma {:induction false} ResolveAllKeeps(s: State, ls: seq<nat>, value: Option<Exports>)
    requires Invariant(s)
    requires forall i, j :: 0 <= i < j < |ls| ==> ls[i] != ls[j]
    requires forall l :: l in ls <==> l in s.listeners
    ensures Invariant(ResolveAll(s, ls, value)) && ResolveAll(s, ls, value).listeners == []
    ensures ResolveAll(s, ls, value).asked == s.asked
    ensures ResolveAll(s, ls, value).answers == s.answers + AnswersTo(ls, value)
    decreases |ls|
  {
    if ls != [] {
      ResolveKeeps(s, ls[0], value);
      forall l
        ensures l in ls[1..] <==> l in Resolve(s, ls[0], value).listeners
      {
        assert l in ls <==> l == ls[0] || l in ls[1..];
      }
      ResolveAllKeeps(Resolve(s, ls[0], value), ls[1..], value);
    } else {
      EmptyOrMember(s.listeners);
    }
  }

  function AnswersTo(ls: seq<nat>, value: Option<Exports>): seq<Answer> {
    if ls == [] then [] else [Answer(ls[0], value)] + AnswersTo(ls[1..], value)
  }

  lemma StepKeeps(s: State, e: Event)
    requires Invariant(s) && Enabled(s, e)
    ensures Invariant(Next(s, e))
  {
    match e
    case Ask =>
    case Reply(data) => ResolveAllKeeps(s, s.listeners, data);
    case Timeout(l) => ResolveKeeps(s, l, None);
  }

  lemma {:induction false} RunKeeps(s: State, events: seq<Event>)
    requires Invariant(s) && IsRun(s, events)
    ensures Invariant(Run(s, events))
    decreases |events|
  {
    if events != [] {
      StepKeeps(s, events[0]);
      RunKeeps(Next(s, events[0]), events[1..]);
    }
  }

  /**
   In every reachable state the listeners are exactly those of the unanswered requests, and every
   other request has been resolved exactly once.
   */
  lemma EachRequestResolvesOnce(events: seq<Event>, request: nat)
    requires IsRun(NEW, events)
    ensures
      var s := Run(NEW, events);
      && Resolutions(s.answers, request) == (if request < s.asked && request !in s.listeners then 1 else 0)
      && (request in s.listeners <==> request in s.timers)
  {
    RunKeeps(NEW, events);
  }

  /** A reply answers all open requests at once, in the order they were made. */
  lemma ReplyAnswersAll(events: seq<Event>, data: Option<Exports>)
    requires IsRun(NEW, events)
    ensures
      var s := Run(NEW, events);
      var t := Next(s, Reply(data));
      && t.listeners == [] && t.timers == {}
      && |t.answers| == |s.answers| + |s.listeners| && s.answers <= t.answers
      && forall i :: 0 <= i < |s.listeners| ==> t.answers[|s.answers| + i] == Answer(s.listeners[i], data)
  {
    RunKeeps(NEW, events);
    var s := Run(NEW, events);
    ResolveAllKeeps(s, s.listeners, data);
    AnswersAt(s.listeners, data);
  }

  lemma {:induction false} AnswersAt(ls: seq<nat>, data: Option<Exports>)
    ensures |AnswersTo(ls, data)| == |ls| && forall i :: 0 <= i < |ls| ==> AnswersTo(ls, data)[i] == Answer(ls[i], data)
  {
    if ls != [] {
      AnswersAt(ls[1..], data);
    }
  }

  // ----- the listener set, as JavaScript keeps it -----

  /** A `Set` is a list of slots; deleting empties a slot, so that a running iteration keeps its place. */
  function Present(slots: seq<Option<nat>>): seq<nat> {
    if slots == [] then []
    else (if slots[0].Some? then [slots[0].value] else []) + Present(slots[1..])
  }

  function Deleted(slots: seq<Option<nat>>, l: nat): (r: seq<Option<nat>>)
    ensures |r| == |slots|
  {
    if slots == [] then []
    else if slots[0] == Some(l) then [None] + slots[1..] else [slots[0]] + Deleted(slots[1..], l)
  }

  lemma {:induction false} DeletedIsOff(slots: seq<Option<nat>>, l: nat)
    ensures Present(Deleted(slots, l)) == Off(Present(slots), l)
  {
    if slots != [] && slots[0] != Some(l) {
      DeletedIsOff(slots[1..], l);
      var r := Deleted(slots, l);
      assert r[1..] == Deleted(slots[1..], l);
      if slots[0].Some? {
        assert Present(slots)[1..] == Present(slots[1..]);
      } else {
        assert Present(slots) == Present(slots[1..]) && Present(r) == Present(r[1..]);
      }
    } else if slots != [] {
      assert Present(slots)[1..] == Present(slots[1..]);
    }
  }

  lemma {:induction false} PresentConcat(a: seq<Option<nat>>, b: seq<Option<nat>>)
    ensures Present(a + b) == Present(a) + Present(b)
  {
    if a == [] {
      assert a + b == b;
    } else {
      assert (a + b)[0] == a[0] && (a + b)[1..] == a[1..] + b;
      PresentConcat(a[1..], b);
      var first := if a[0].Some? then [a[0].value] else [];
      assert first + (Present(a[1..]) + Present(b)) == (first + Present(a[1..])) + Present(b);
    }
  }

  /** Behind emptied slots, the first member is deleted in its own slot. */
  lemma {:induction false} DeletedInPlace(slots: seq<Option<nat>>, k: nat, l: nat)
    requires k < |slots| && slots[k] == Some(l) && forall i :: 0 <= i < k ==> slots[i].None?
    ensures Deleted(slots, l) == slots[k := None]
    ensures Present(slots) == [l] + Present(slots[k + 1..])
    decreases k
  {
    if k > 0 {
      DeletedInPlace(slots[1..], k - 1, l);
      assert slots[1..][k..] == slots[k + 1..];
    }
  }

  lemma {:induction false} NonePresent(slots: seq<Option<nat>>, k: nat)
    requires k <= |slots| && forall i :: 0 <= i < k ==> slots[i].None?
    ensures Present(slots) == Present(slots[k..])
    decreases k
  {
    if k > 0 {
      NonePresent(slots[1..], k - 1);
      assert slots[1..][k - 1..] == slots[k..];
    } else {
      assert slots[0..] == slots;
    }
  }

  class DevEnvironment {
    var asked: nat
    var slots: seq<Option<nat>>
    var timers: set<nat>
    ghost var answers: seq<Answer>

    constructor ()
      ensures Valid() && View() == NEW
    {
      asked, slots, timers, answers := 0, [], {}, [];
    }

    ghost function View(): State
      reads this
    {
      State(asked, Present(slots), timers, answers)
    }

    ghost predicate Valid()
      reads this
    {
      Invariant(View())
    }

    /** Arms a timer, registers a listener and asks the Worker; the request is open and unanswered. */
    method RequestExportTypes() returns (request: nat)
      requires Valid()
      modifies this`asked, this`timers, this`slots
      ensures Valid() && View() == Next(old(View()), Ask)
      ensures request in timers && Resolutions(answers, request) == 0
    {
      StepKeeps(View(), Ask);
      PresentConcat(slots, [Some(asked)]);
      assert Present([Some(asked)]) == [asked] by {
        assert [Some(asked)][1..] == [];
      }
      request := asked;
      asked := asked + 1;
      timers := timers + {request};
      slots := slots + [Some(request)];
    }

    /** A timer fires: its request is answered, this once, with nothing, and no reply will answer it again. */
    method TimesOut(request: nat)
      requires Valid() && request in timers
      modifies this`timers, this`slots, this`answers
      ensures Valid() && View() == Next(old(View()), Timeout(request))
      ensures Resolutions(answers, request) == 1 && answers == old(answers) + [Answer(request, None)]
      ensures request !in timers && request !in Present(slots)
    {
      StepKeeps(View(), Timeout(request));
      ResolveKeeps(View(), request, None);
      DeletedIsOff(slots, request);
      timers := timers - {request};
      slots := Deleted(slots, request);
      answers := answers + [Answer(request, None)];
    }

    /** The listener of a request: disarms its timer, takes itself out of the set and resolves. */
    method Listener(request: nat, data: Option<Exports>)
      modifies this`timers, this`slots, this`answers
      ensures View() == Resolve(old(View()), request, data) && slots == Deleted(old(slots), request)
    {
      DeletedIsOff(slots, request);
      timers := timers - {request};
      slots := Deleted(slots, request);
      answers := answers + [Answer(request, data)];
    }

    /**
     `dispatch`: goes through the live set and calls each listener, which takes itself out meanwhile.
     None is skipped, none called twice: every open request is answered exactly once.
     */
    method Dispatch(data: Option<Exports>)
      requires Valid()
      modifies this`timers, this`slots, this`answers
      ensures Valid() && View() == Next(old(View()), Reply(data))
      ensures Present(slots) == [] && timers == {} && forall r: nat :: r < asked ==> Resolutions(answers, r) == 1
    {
      StepKeeps(View(), Reply(data));
      ResolveAllKeeps(View(), Present(slots), data);
      ghost var all := Present(slots);
      var k := 0;
      while k < |slots|
        invariant k <= |slots| && forall i :: 0 <= i < k ==> slots[i].None?
        invariant ResolveAll(View(), Present(slots), data) == ResolveAll(old(View()), all, data)
        invariant asked == old(asked)
        decreases |slots| - k
      {
        if slots[k].Some? {
          var listener := slots[k].value;
          DeletedInPlace(slots, k, listener);
          ghost var rest := slots[k + 1..];
          Listener(listener, data);
          NonePresent(slots, k + 1);
          assert slots[k + 1..] == rest;
          assert ([listener] + Present(rest))[1..] == Present(rest);
        }
        k := k + 1;
      }
      NonePresent(slots, |slots|);
    }
  }
}
