/** `HotChannel` of packages/cloudflare-vite-plugin/src/dev-environment.ts. */
module HotChannels {
  import opened Options
  import opened Text

  /** A message handed to the `socket`-th of the sockets attached so far. */
  datatype Handed = Handed(socket: nat, message: string)

  /** The channel's state: whether a socket is attached, the queue, what was handed over, and to how many sockets. */
  datatype Channel = Channel(attached: bool, queue: Option<seq<string>>, handed: seq<Handed>, sockets: nat)

  datatype Event = Send(message: string) | Attach | Close

  const NEW := Channel(false, None, [], 0)

  function Flushed(queue: Option<seq<string>>): seq<string> {
    if queue.Some? then queue.value else []
  }

  function HandAll(socket: nat, messages: seq<string>): seq<Handed> {
    if messages == [] then [] else [Handed(socket, messages[0])] + HandAll(socket, messages[1..])
  }

  function Next(c: Channel, e: Event): Channel {
    match e
    case Send(m) =>
      if c.attached && c.sockets > 0 then c.(handed := c.handed + [Handed(c.sockets - 1, m)])
      else c.(queue := Some(Flushed(c.queue) + [m]))
    case Attach =>
      Channel(true, None, c.handed + HandAll(c.sockets, Flushed(c.queue)), c.sockets + 1)
    case Close =>
      c.(attached := false)
  }

  function Run(c: Channel, events: seq<Event>): Channel
    decreases |events|
  {
    if events == [] then c else Run(Next(c, events[0]), events[1..])
  }

  // ----- what every run keeps -----

  function Payloads(events: seq<Event>): seq<string> {
    if events == [] then []
    else (if events[0].Send? then [events[0].message] else []) + Payloads(events[1..])
  }

  function Messages(handed: seq<Handed>): seq<string> {
    if handed == [] then [] else [handed[0].message] + Messages(handed[1..])
  }

  lemma {:induction false} MessagesConcat(a: seq<Handed>, b: seq<Handed>)
    ensures Messages(a + b) == Messages(a) + Messages(b)
  {
    if a == [] {
      assert a + b == b;
    } else {
      assert (a + b)[1..] == a[1..] + b;
      MessagesConcat(a[1..], b);
    }
  }

  lemma {:induction false} MessagesOfHandAll(socket: nat, messages: seq<string>)
    ensures Messages(HandAll(socket, messages)) == messages
    ensures forall h :: h in HandAll(socket, messages) ==> h.socket == socket
  {
    if messages != [] {
      MessagesOfHandAll(socket, messages[1..]);
      assert HandAll(socket, messages)[1..] == HandAll(socket, messages[1..]);
    }
  }

  /** No queue while a socket is attached; sockets are served one after the other. */
  predicate Sound(c: Channel) {
    && (c.attached ==> c.sockets > 0 && c.queue.None?)
    && (forall i :: 0 <= i < |c.handed| ==> c.handed[i].socket < c.sockets)
    && (forall i, j :: 0 <= i < j < |c.handed| ==> c.handed[i].socket <= c.handed[j].socket)
  }

  lemma StepKeepsSound(c: Channel, e: Event)
    requires Sound(c)
    ensures Sound(Next(c, e))
  {
    if e.Attach? {
      var flushed := HandAll(c.sockets, Flushed(c.queue));
      MessagesOfHandAll(c.sockets, Flushed(c.queue));
      assert forall i :: 0 <= i < |flushed| ==> flushed[i] in flushed;
    }
  }

  /** Whatever a step hands over goes to the socket that is attached then, the last one. */
  lemma StepHandsToCurrent(c: Channel, e: Event, i: nat)
    requires Sound(c) && |c.handed| <= i < |Next(c, e).handed|
    ensures Next(c, e).attached && Next(c, e).handed[i].socket == Next(c, e).sockets - 1
    ensures Next(c, e).handed[..|c.handed|] == c.handed
  {
    var flushed := HandAll(c.sockets, Flushed(c.queue));
    MessagesOfHandAll(c.sockets, Flushed(c.queue));
    assert forall j :: 0 <= j < |flushed| ==> flushed[j] in flushed;
  }

  lemma StepKeepsPayloads(c: Channel, e: Event)
    requires Sound(c)
    ensures Messages(Next(c, e).handed) + Flushed(Next(c, e).queue)
         == Messages(c.handed) + Flushed(c.queue) + Payloads([e])
  {
    assert [e][1..] == [];
    match e
    case Send(m) =>
      if c.attached {
        MessagesConcat(c.handed, [Handed(c.sockets - 1, m)]);
        assert [Handed(c.sockets - 1, m)][1..] == [];
      }
    case Attach =>
      MessagesConcat(c.handed, HandAll(c.sockets, Flushed(c.queue)));
      MessagesOfHandAll(c.sockets, Flushed(c.queue));
    case Close =>
  }

  lemma PayloadsSplit(events: seq<Event>, before: seq<string>)
    requires events != []
    ensures before + Payloads([events[0]]) + Payloads(events[1..]) == before + Payloads(events)
  {
    var head, tail := Payloads([events[0]]), Payloads(events[1..]);
    assert head == if events[0].Send? then [events[0].message] else [] by {
      assert [events[0]][1..] == [];
    }
    Reassociate(before, head, tail);
  }

  lemma {:induction false} RunKeeps(c: Channel, events: seq<Event>)
    requires Sound(c)
    ensures Sound(Run(c, events))
    ensures Messages(Run(c, events).handed) + Flushed(Run(c, events).queue)
         == Messages(c.handed) + Flushed(c.queue) + Payloads(events)
    decreases |events|
  {
    if events != [] {
      StepKeepsSound(c, events[0]);
      StepKeepsPayloads(c, events[0]);
      RunKeeps(Next(c, events[0]), events[1..]);
      PayloadsSplit(events, Messages(c.handed) + Flushed(c.queue));
    }
  }

  lemma EmptyInFront(before: seq<string>, after: seq<string>)
    requires before == []
    ensures before + after == after
  {
  }

  /**
   Over any run of sends, socket replacements and closings, the payloads sent are, in order and
   without loss or duplication, those handed to the successive sockets followed by the queue.
   */
  lemma NothingLostOrDuplicated(events: seq<Event>)
    ensures Sound(Run(NEW, events))
    ensures Messages(Run(NEW, events).handed) + Flushed(Run(NEW, events).queue) == Payloads(events)
  {
    RunKeeps(NEW, events);
    EmptyInFront(Messages(NEW.handed) + Flushed(NEW.queue), Payloads(events));
  }

  /** In particular, while a socket is attached everything sent so far has been handed over. */
  lemma AttachedMeansDelivered(events: seq<Event>)
    requires Run(NEW, events).attached
    ensures Messages(Run(NEW, events).handed) == Payloads(events)
  {
    NothingLostOrDuplicated(events);
    assert Messages(Run(NEW, events).handed) + [] == Messages(Run(NEW, events).handed);
  }

  // ----- the classes -----

  class WebSocket {
    var outbox: seq<string>
    var listening: bool
    var open: bool

    constructor ()
      ensures outbox == [] && !listening && open
    {
      outbox, listening, open := [], false, true;
    }

    method Send(message: string)
      modifies this`outbox
      ensures outbox == old(outbox) + [message]
    {
      outbox := outbox + [message];
    }
  }

  /** What the `i`-th socket was handed. */
  function Received(handed: seq<Handed>, i: nat): seq<string> {
    if handed == [] then []
    else
      var before := Received(handed[..|handed| - 1], i);
      var last := handed[|handed| - 1];
      if last.socket == i then before + [last.message] else before
  }

  lemma ReceivedSnoc(handed: seq<Handed>, h: Handed, i: nat)
    ensures Received(handed + [h], i) == Received(handed, i) + (if h.socket == i then [h.message] else [])
  {
    assert (handed + [h])[..|handed|] == handed;
  }

  class HotChannel {
    var ws: WebSocket?
    var queue: Option<seq<string>>
    ghost var handed: seq<Handed>
    ghost var sockets: seq<WebSocket>

    constructor ()
      ensures Valid() && View() == NEW && fresh(sockets)
    {
      ws, queue, handed, sockets := null, None, [], [];
    }

    ghost predicate Valid()
      reads this, sockets
    {
      Linked() && Sound(View())
    }

    /**
     The attached socket is the latest one, every socket holds what it was handed, and the dispatch
     listener is on exactly the attached socket.
     */
    ghost predicate Linked()
      reads this`ws, this`handed, this`sockets, sockets
    {
      && (forall i, j :: 0 <= i < j < |sockets| ==> sockets[i] != sockets[j])
      && (ws != null ==> sockets != [] && ws == sockets[|sockets| - 1])
      && (forall i :: 0 <= i < |sockets| ==> sockets[i].outbox == Received(handed, i))
      && (forall i :: 0 <= i < |sockets| ==> (sockets[i].listening <==> ws == sockets[i]))
    }

    ghost function View(): Channel
      reads this, sockets
    {
      Channel(ws != null, queue, handed, |sockets|)
    }

    /** The `ws` setter; it is only ever given a socket that was just opened. */
    method SetWs(socket: WebSocket)
      requires Valid() && socket !in sockets && socket.outbox == [] && !socket.listening
      modifies this, sockets, socket
      ensures Valid() && View() == Next(old(View()), Attach)
      ensures ws == socket && sockets == old(sockets) + [socket]
    {
      ghost var before := View();
      StepKeepsSound(before, Attach);
      Replace(socket);
      if queue.Some? {
        Flush();
        queue := None;
      } else {
        assert handed + HandAll(before.sockets, []) == handed;
      }
    }

    /** Moves the dispatch listener from the old socket to the new one. */
    method Replace(socket: WebSocket)
      requires Valid() && socket !in sockets && socket.outbox == [] && !socket.listening
      modifies this`ws, this`sockets, sockets, socket
      ensures Linked() && ws == socket && sockets == old(sockets) + [socket]
    {
      NothingReceivedYet(handed, |sockets|);
      if ws != null {
        ws.listening := false;
      }
      ws := socket;
      socket.listening := true;
      sockets := sockets + [socket];
    }

    /** `ws.send`. */
    method Hand(message: string)
      requires ws != null && Linked()
      modifies this`handed, ws`outbox
      ensures handed == old(handed) + [Handed(|sockets| - 1, message)]
      ensures Linked()
    {
      ws.Send(message);
      forall i {
        ReceivedSnoc(handed, Handed(|sockets| - 1, message), i);
      }
      handed := handed + [Handed(|sockets| - 1, message)];
    }

    /** Hands the queued messages to the socket just attached. */
    method Flush()
      requires queue.Some? && ws != null && Linked()
      modifies this`handed, ws`outbox
      ensures handed == old(handed) + HandAll(|sockets| - 1, queue.value)
      ensures Linked()
    {
      ghost var messages, n := queue.value, |sockets| - 1;
      for k := 0 to |queue.value|
        invariant handed == old(handed) + HandAll(n, messages[..k])
        invariant Linked()
      {
        Hand(queue.value[k]);
        HandAllSnoc(n, messages, k);
      }
      assert messages[..|messages|] == messages;
    }

    method Send(message: string)
      requires Valid()
      modifies this, sockets
      ensures Valid() && View() == Next(old(View()), Event.Send(message))
      ensures ws == old(ws) && sockets == old(sockets)
    {
      ghost var before := View();
      StepKeepsSound(before, Event.Send(message));
      if ws != null {
        Hand(message);
      } else {
        if queue.None? {
          queue := Some([]);
        }
        queue := Some(queue.value + [message]);
      }
    }

    method Close()
      requires Valid()
      modifies this, sockets
      ensures Valid() && View() == Next(old(View()), Event.Close)
      ensures ws == null && sockets == old(sockets)
    {
      StepKeepsSound(View(), Event.Close);
      if ws == null {
        return;
      }
      ws.listening := false;
      ws.open := false;
      ws := null;
    }
  }

  lemma {:induction false} HandAllSnoc(socket: nat, messages: seq<string>, k: nat)
    requires k < |messages|
    ensures HandAll(socket, messages[..k + 1]) == HandAll(socket, messages[..k]) + [Handed(socket, messages[k])]
    decreases k
  {
    if k == 0 {
      assert messages[..1] == [messages[0]] && messages[..0] == [];
    } else {
      HandAllSnoc(socket, messages[1..], k - 1);
      assert messages[..k + 1][1..] == messages[1..][..k] && messages[..k][1..] == messages[1..][..k - 1];
    }
  }

  lemma {:induction false} NothingReceivedYet(handed: seq<Handed>, n: nat)
    requires forall i :: 0 <= i < |handed| ==> handed[i].socket < n
    ensures Received(handed, n) == []
  {
    if handed != [] {
      NothingReceivedYet(handed[..|handed| - 1], n);
    }
  }
}
