/**
 Any number of connections in front of one UDS loop: the shared bounded queue of server.rs, the one-shot
 reply channel each request carries (connection.rs), and the receive, handle, reply, check-for-reset
 loop of the boot and app binaries. A run interleaves the steps of all tasks in any order.
 */
module RequestLoop {
  import opened Wrappers
  import opened Octets
  import opened Connection
  import opened Resets

  const QUEUE_CAPACITY: nat := 32

  type Response = seq<byte>

  /** What handling a request leaves behind: the server, its answer and the reset the handler asked for. */
  datatype Outcome<S> = Outcome(server: S, response: Response, reset: Reset)

  /** `server.handle` and `tick` with all they call: an arbitrary function of state, request and clock reading. */
  type Handle<!S> = (S, UdsRequest, nat) -> Outcome<S>

  /** Where a connection task is: it can end only while it has no request under way. */
  datatype Phase = Idle | Sending(request: UdsRequest) | Waiting | Closed

  /** A connection, its one-slot reply channel, and what it has forwarded and got back so far. */
  datatype Conn = Conn(phase: Phase, slot: Option<Response>, forwarded: seq<UdsRequest>, delivered: seq<Response>)

  /** Where the UDS loop is; once Down it has taken a reset and receives nothing more. */
  datatype Loop =
    | Receiving
    | Handling(conn: nat, request: UdsRequest)
    | Replying(conn: nat, response: Response)
    | CheckingReset
    | Down(reset: Reset)

  datatype Record = Record(conn: nat, request: UdsRequest, now: nat, response: Response, reset: Reset)

  /** All tasks, with a record of what was put into the queue and of what was handled. */
  datatype System<S> = System(
    conns: map<nat, Conn>,
    queue: seq<(nat, UdsRequest)>,
    loop: Loop,
    server: S,
    pendingReset: Reset,
    arrivals: seq<(nat, UdsRequest)>,
    handled: seq<Record>)

  datatype Step =
    | Accept(conn: nat)
    | Close(conn: nat)
    | Forward(conn: nat, request: UdsRequest)
    | Enqueue(conn: nat)
    | Deliver(conn: nat)
    | Receive
    | HandleRequest(now: nat)
    | Reply
    | CheckReset

  function Initial<S>(server: S): System<S> {
    System(map[], [], Receiving, server, NoReset, [], [])
  }

  predicate Enabled<S>(s: System<S>, step: Step) {
    match step
    case Accept(c) => c !in s.conns
    case Close(c) => c in s.conns && s.conns[c].phase.Idle?
    case Forward(c, _) => c in s.conns && s.conns[c].phase.Idle?
    case Enqueue(c) => c in s.conns && s.conns[c].phase.Sending? && |s.queue| < QUEUE_CAPACITY
    case Deliver(c) => c in s.conns && s.conns[c].phase.Waiting? && s.conns[c].slot.Some?
    case Receive => s.loop.Receiving? && s.queue != []
    case HandleRequest(_) => s.loop.Handling?
    case Reply => s.loop.Replying? && s.loop.conn in s.conns && s.conns[s.loop.conn].slot.None?
    case CheckReset => s.loop.CheckingReset?
  }

  function Apply<S>(handle: Handle<S>, s: System<S>, step: Step): System<S>
    requires Enabled(s, step)
  {
    match step
    case Accept(c) => s.(conns := s.conns[c := Conn(Idle, None, [], [])])
    case Close(c) => s.(conns := s.conns[c := s.conns[c].(phase := Closed)])
    case Forward(c, request) =>
      var k := s.conns[c];
      s.(conns := s.conns[c := k.(phase := Sending(request), forwarded := k.forwarded + [request])])
    case Enqueue(c) =>
      var entry := (c, s.conns[c].phase.request);
      s.(conns := s.conns[c := s.conns[c].(phase := Waiting)],
         queue := s.queue + [entry],
         arrivals := s.arrivals + [entry])
    case Deliver(c) =>
      var k := s.conns[c];
      s.(conns := s.conns[c := k.(phase := Idle, slot := None, delivered := k.delivered + [k.slot.value])])
    case Receive => s.(queue := s.queue[1..], loop := Handling(s.queue[0].0, s.queue[0].1))
    case HandleRequest(now) =>
      var o := handle(s.server, s.loop.request, now);
      s.(server := o.server,
         loop := Replying(s.loop.conn, o.response),
         pendingReset := if o.reset.NoReset? then s.pendingReset else o.reset,
         handled := s.handled + [Record(s.loop.conn, s.loop.request, now, o.response, o.reset)])
    case Reply =>
      var c := s.loop.conn;
      s.(conns := s.conns[c := s.conns[c].(slot := Some(s.loop.response))], loop := CheckingReset)
    case CheckReset =>
      s.(loop := if s.pendingReset.NoReset? then Receiving else Down(s.pendingReset), pendingReset := NoReset)
  }

  /** The state after a schedule, if each of its steps was enabled in turn. */
  function Run<S>(handle: Handle<S>, server: S, steps: seq<Step>): Option<System<S>> {
    if steps == [] then Some(Initial(server))
    else
      var before := Run(handle, server, steps[..|steps| - 1]);
      if before.Some? && Enabled(before.value, steps[|steps| - 1])
      then Some(Apply(handle, before.value, steps[|steps| - 1])) else None
  }

  // ---------------------------------------------------------------------------------------------
  // Projections to one connection

  function Of<T>(items: seq<(nat, T)>, c: nat): seq<T> {
    if items == [] then [] else (if items[0].0 == c then [items[0].1] else []) + Of(items[1..], c)
  }

  lemma {:induction false} OfAppend<T>(a: seq<(nat, T)>, b: seq<(nat, T)>, c: nat)
    ensures Of(a + b, c) == Of(a, c) + Of(b, c)
  {
    if a == [] {
      assert a + b == b;
    } else {
      hide Of;
      var first, rest := a[0], a[1..];
      assert [first] + rest == a && [first] + (rest + b) == a + b;
      OfAppend(rest, b, c);
      OfFirst(first, rest, c);
      OfFirst(first, rest + b, c);
    }
  }

  lemma OfFirst<T>(first: (nat, T), rest: seq<(nat, T)>, c: nat)
    ensures Of([first] + rest, c) == if first.0 == c then [first.1] + Of(rest, c) else Of(rest, c)
  {
    assert ([first] + rest)[1..] == rest;
  }

  lemma OfOne<T>(item: (nat, T), c: nat)
    ensures Of([item], c) == if item.0 == c then [item.1] else []
  {
    assert [item] == [item] + [] && Of<T>([], c) == [];
    OfFirst(item, [], c);
  }

  lemma OfNone<T>(c: nat)
    ensures Of<T>([], c) == []
  {
  }

  function Requests(handled: seq<Record>): seq<(nat, UdsRequest)> {
    seq(|handled|, i requires 0 <= i < |handled| => (handled[i].conn, handled[i].request))
  }

  function Responses(handled: seq<Record>): seq<(nat, Response)> {
    seq(|handled|, i requires 0 <= i < |handled| => (handled[i].conn, handled[i].response))
  }

  // ---------------------------------------------------------------------------------------------
  // Invariant: what happens to requests and responses

  /** Requests accepted into the queue and not handled yet, oldest first. */
  function Unhandled<S>(s: System<S>): seq<(nat, UdsRequest)> {
    (if s.loop.Handling? then [(s.loop.conn, s.loop.request)] else []) + s.queue
  }

  /** The response of a handled request that is not in its reply channel yet. */
  function Unsent<S>(s: System<S>): seq<(nat, Response)> {
    if s.loop.Replying? then [(s.loop.conn, s.loop.response)] else []
  }

  function InSlot(k: Conn): seq<Response> {
    if k.slot.Some? then [k.slot.value] else []
  }

  function NotQueued(k: Conn): seq<UdsRequest> {
    if k.phase.Sending? then [k.phase.request] else []
  }

  /** One connection's books, given everything handled, answered, unhandled and unsent in the system. */
  ghost predicate Balances(k: Conn, handled: seq<UdsRequest>, answered: seq<Response>,
                           unhandled: seq<UdsRequest>, unsent: seq<Response>) {
    // no request is lost, duplicated or reordered
    && k.forwarded == handled + unhandled + NotQueued(k)
    // no response is lost, duplicated, reordered or given to another connection
    && answered == k.delivered + InSlot(k) + unsent
    // a waiting connection has exactly one request or response under way, any other has none
    && |unhandled| + |unsent| + |InSlot(k)| == if k.phase.Waiting? then 1 else 0
  }

  ghost predicate ConnIsSound<S>(s: System<S>, c: nat)
    requires c in s.conns
  {
    Balances(s.conns[c], Of(Requests(s.handled), c), Of(Responses(s.handled), c), Of(Unhandled(s), c), Of(Unsent(s), c))
  }

  ghost predicate AreKnown<S, T>(s: System<S>, items: seq<(nat, T)>) {
    forall i :: 0 <= i < |items| ==> items[i].0 in s.conns
  }

  ghost predicate Sound<S>(s: System<S>) {
    && |s.queue| <= 32
    && AreKnown(s, Unhandled(s)) && AreKnown(s, Unsent(s)) && AreKnown(s, Requests(s.handled))
    && forall c :: c in s.conns ==> ConnIsSound(s, c)
  }

  lemma {:induction false} UnknownHasNone<S, T>(s: System<S>, items: seq<(nat, T)>, c: nat)
    requires AreKnown(s, items) && c !in s.conns
    ensures Of(items, c) == []
  {
    if items != [] {
      assert items[0].0 in s.conns;
      assert forall i :: 0 <= i < |items[1..]| ==> items[1..][i] == items[i + 1];
      UnknownHasNone(s, items[1..], c);
    }
  }

  lemma ResponsesAreKnown<S>(s: System<S>)
    requires AreKnown(s, Requests(s.handled))
    ensures AreKnown(s, Responses(s.handled))
  {
    forall i | 0 <= i < |s.handled| ensures Responses(s.handled)[i].0 in s.conns {
      assert Requests(s.handled)[i].0 in s.conns;
    }
  }

  // How each step changes the books of the connection it concerns

  lemma ForwardBalances(k: Conn, handled: seq<UdsRequest>, answered: seq<Response>,
                        unhandled: seq<UdsRequest>, unsent: seq<Response>, request: UdsRequest)
    requires Balances(k, handled, answered, unhandled, unsent) && k.phase.Idle?
    ensures var after := k.(phase := Sending(request), forwarded := k.forwarded + [request]);
            Balances(after, handled, answered, unhandled, unsent)
  {
    assert handled + unhandled + [] == handled + unhandled;
  }

  lemma EnqueueBalances(k: Conn, handled: seq<UdsRequest>, answered: seq<Response>,
                        unhandled: seq<UdsRequest>, unsent: seq<Response>)
    requires Balances(k, handled, answered, unhandled, unsent) && k.phase.Sending?
    ensures Balances(k.(phase := Waiting), handled, answered, unhandled + [k.phase.request], unsent)
  {
    assert handled + unhandled + [k.phase.request] == handled + (unhandled + [k.phase.request]) + [];
  }

  lemma HandleBalances(k: Conn, handled: seq<UdsRequest>, answered: seq<Response>,
                       unhandled: seq<UdsRequest>, request: UdsRequest, response: Response)
    requires Balances(k, handled, answered, [request] + unhandled, [])
    ensures Balances(k, handled + [request], answered + [response], unhandled, [response])
  {
    assert handled + ([request] + unhandled) == handled + [request] + unhandled;
    assert answered == k.delivered + InSlot(k);
  }

  lemma ReplyBalances(k: Conn, handled: seq<UdsRequest>, answered: seq<Response>,
                      unhandled: seq<UdsRequest>, response: Response)
    requires Balances(k, handled, answered, unhandled, [response])
    ensures Balances(k.(slot := Some(response)), handled, answered, unhandled, [])
  {
    assert InSlot(k) == [];
    assert k.delivered + [] + [response] == k.delivered + [response] + [];
  }

  lemma DeliverBalances(k: Conn, handled: seq<UdsRequest>, answered: seq<Response>,
                        unhandled: seq<UdsRequest>, unsent: seq<Response>)
    requires Balances(k, handled, answered, unhandled, unsent) && k.slot.Some?
    ensures var after := k.(phase := Idle, slot := None, delivered := k.delivered + [k.slot.value]);
            Balances(after, handled, answered, unhandled, unsent)
  {
    assert k.delivered + [k.slot.value] + unsent == (k.delivered + [k.slot.value]) + [] + unsent;
  }

  lemma AcceptIsSound<S>(handle: Handle<S>, s: System<S>, c: nat)
    requires Sound(s) && Enabled(s, Accept(c))
    ensures Sound(Apply(handle, s, Accept(c)))
  {
    var t := Apply(handle, s, Accept(c));
    ResponsesAreKnown(s);
    UnknownHasNone(s, Unhandled(s), c);
    UnknownHasNone(s, Unsent(s), c);
    UnknownHasNone(s, Requests(s.handled), c);
    UnknownHasNone(s, Responses(s.handled), c);
    forall d | d in t.conns ensures ConnIsSound(t, d) {
      assert d != c ==> ConnIsSound(s, d);
    }
  }

  lemma TaskStepIsSound<S>(handle: Handle<S>, s: System<S>, step: Step)
    requires Sound(s) && Enabled(s, step) && (step.Close? || step.Forward? || step.Deliver?)
    ensures Sound(Apply(handle, s, step))
  {
    hide Of, Requests, Responses, Unhandled, Unsent;
    var t, c := Apply(handle, s, step), step.conn;
    assert ConnIsSound(s, c);
    var handled, answered, unhandled, unsent :=
      Of(Requests(s.handled), c), Of(Responses(s.handled), c), Of(Unhandled(s), c), Of(Unsent(s), c);
    if step.Forward? {
      ForwardBalances(s.conns[c], handled, answered, unhandled, unsent, step.request);
    } else if step.Deliver? {
      DeliverBalances(s.conns[c], handled, answered, unhandled, unsent);
    }
    OneConnChanges(s, c, t.conns[c]);
  }

  lemma OneConnChanges<S>(s: System<S>, c: nat, k: Conn)
    requires Sound(s) && c in s.conns
    requires Balances(k, Of(Requests(s.handled), c), Of(Responses(s.handled), c), Of(Unhandled(s), c), Of(Unsent(s), c))
    ensures Sound(s.(conns := s.conns[c := k]))
  {
    hide Of, Requests, Responses, Balances;
    var t := s.(conns := s.conns[c := k]);
    assert Unhandled(t) == Unhandled(s) && Unsent(t) == Unsent(s);
    OthersStaySound(s, t, c);
  }

  lemma EnqueueIsSound<S>(handle: Handle<S>, s: System<S>, c: nat)
    requires Sound(s) && Enabled(s, Enqueue(c))
    ensures Sound(Apply(handle, s, Enqueue(c)))
  {
    hide Of, Requests, Responses, Balances;
    var t := Apply(handle, s, Enqueue(c));
    var entry := (c, s.conns[c].phase.request);
    assert Unhandled(t) == Unhandled(s) + [entry];
    forall d ensures Of(Unhandled(t), d) == Of(Unhandled(s), d) + if d == c then [entry.1] else [] {
      OfAppend(Unhandled(s), [entry], d);
      OfOne(entry, d);
    }
    assert ConnIsSound(s, c);
    EnqueueBalances(s.conns[c], Of(Requests(s.handled), c), Of(Responses(s.handled), c),
                    Of(Unhandled(s), c), Of(Unsent(s), c));
    OthersStaySound(s, t, c);
  }

  lemma HandleIsSound<S>(handle: Handle<S>, s: System<S>, now: nat)
    requires Sound(s) && Enabled(s, HandleRequest(now))
    ensures Sound(Apply(handle, s, HandleRequest(now)))
  {
    hide Of, Balances;
    var t, c := Apply(handle, s, HandleRequest(now)), s.loop.conn;
    var request, response := (c, s.loop.request), (c, t.loop.response);
    assert Requests(t.handled) == Requests(s.handled) + [request] && Unhandled(s) == [request] + Unhandled(t);
    assert Responses(t.handled) == Responses(s.handled) + [response] && Unsent(t) == [response];
    assert Unhandled(s)[0].0 in s.conns;
    assert AreKnown(t, Unhandled(t)) by {
      assert forall i :: 0 <= i < |Unhandled(t)| ==> Unhandled(t)[i] == Unhandled(s)[i + 1];
    }
    hide Requests, Responses;
    forall d
      ensures Of(Requests(t.handled), d) == Of(Requests(s.handled), d) + if d == c then [request.1] else []
      ensures Of(Responses(t.handled), d) == Of(Responses(s.handled), d) + if d == c then [response.1] else []
      ensures Of(Unhandled(s), d) == (if d == c then [request.1] else []) + Of(Unhandled(t), d)
      ensures Of(Unsent(s), d) == [] && Of(Unsent(t), d) == if d == c then [response.1] else []
    {
      OfAppend(Requests(s.handled), [request], d);
      OfAppend([request], Unhandled(t), d);
      OfAppend(Responses(s.handled), [response], d);
      OfOne(request, d);
      OfOne(response, d);
      OfNone<Response>(d);
    }
    assert ConnIsSound(s, c);
    HandleBalances(s.conns[c], Of(Requests(s.handled), c), Of(Responses(s.handled), c),
                   Of(Unhandled(t), c), request.1, response.1);
    OthersStaySound(s, t, c);
  }

  lemma ReplyIsSound<S>(handle: Handle<S>, s: System<S>)
    requires Sound(s) && Enabled(s, Reply)
    ensures Sound(Apply(handle, s, Reply))
  {
    hide Of, Requests, Responses, Balances;
    var t, c := Apply(handle, s, Reply), s.loop.conn;
    assert Unhandled(t) == Unhandled(s);
    forall d ensures Of(Unsent(s), d) == (if d == c then [s.loop.response] else []) && Of(Unsent(t), d) == [] {
      OfOne((c, s.loop.response), d);
      OfNone<Response>(d);
    }
    assert ConnIsSound(s, c);
    ReplyBalances(s.conns[c], Of(Requests(s.handled), c), Of(Responses(s.handled), c),
                  Of(Unhandled(s), c), s.loop.response);
    OthersStaySound(s, t, c);
  }

  /** Taking a request from the queue, or looking at the pending reset, moves nothing. */
  lemma LoopStepIsSound<S>(handle: Handle<S>, s: System<S>, step: Step)
    requires Sound(s) && Enabled(s, step) && (step.Receive? || step.CheckReset?)
    ensures Sound(Apply(handle, s, step))
  {
    hide Of, Requests, Responses, Balances;
    var t := Apply(handle, s, step);
    assert Unhandled(t) == Unhandled(s) && Unsent(t) == Unsent(s);
    forall d | d in t.conns ensures ConnIsSound(t, d) {
      assert ConnIsSound(s, d);
    }
  }

  /** A connection whose own share of the system is unchanged keeps its books. */
  lemma OthersStaySound<S>(s: System<S>, t: System<S>, c: nat)
    requires Sound(s) && c in s.conns && s.conns.Keys == t.conns.Keys && ConnIsSound(t, c)
    requires forall d :: d in s.conns && d != c ==> t.conns[d] == s.conns[d]
    requires forall d :: d != c ==> Of(Requests(t.handled), d) == Of(Requests(s.handled), d)
    requires forall d :: d != c ==> Of(Responses(t.handled), d) == Of(Responses(s.handled), d)
    requires forall d :: d != c ==> Of(Unhandled(t), d) == Of(Unhandled(s), d)
    requires forall d :: d != c ==> Of(Unsent(t), d) == Of(Unsent(s), d)
    ensures forall d :: d in t.conns ==> ConnIsSound(t, d)
  {
    hide Of, Requests, Responses, Unhandled, Unsent, Balances;
    forall d | d in t.conns ensures ConnIsSound(t, d) {
      assert ConnIsSound(s, d);
    }
  }

  lemma StepIsSound<S>(handle: Handle<S>, s: System<S>, step: Step)
    requires Sound(s) && Enabled(s, step)
    ensures Sound(Apply(handle, s, step))
  {
    hide Sound, Apply, Enabled;
    match step
    case Accept(c) => AcceptIsSound(handle, s, c);
    case Close(_) => TaskStepIsSound(handle, s, step);
    case Forward(_, _) => TaskStepIsSound(handle, s, step);
    case Deliver(_) => TaskStepIsSound(handle, s, step);
    case Enqueue(c) => EnqueueIsSound(handle, s, c);
    case Receive => LoopStepIsSound(handle, s, step);
    case HandleRequest(now) => HandleIsSound(handle, s, now);
    case Reply => ReplyIsSound(handle, s);
    case CheckReset => LoopStepIsSound(handle, s, step);
  }

  /**
   In every reachable state the queue is within its capacity, and for every connection what it forwarded is
   what was handled for it, then what is queued, then what it is still sending, in order; what was
   answered for it is what it got, then what is on its way; and at most one of these is under way.
   */
  lemma {:induction false} RunsAreSound<S>(handle: Handle<S>, server: S, steps: seq<Step>)
    requires Run(handle, server, steps).Some?
    ensures Sound(Run(handle, server, steps).value)
  {
    if steps != [] {
      var before := Run(handle, server, steps[..|steps| - 1]);
      RunsAreSound(handle, server, steps[..|steps| - 1]);
      StepIsSound(handle, before.value, steps[|steps| - 1]);
    }
  }

  /** A connection with nothing under way has had every request handled and every response delivered. */
  lemma IdleConnectionsAreServed<S>(handle: Handle<S>, server: S, steps: seq<Step>, c: nat)
    requires Run(handle, server, steps).Some? && c in Run(handle, server, steps).value.conns
    requires var k := Run(handle, server, steps).value.conns[c]; k.phase.Idle? || k.phase.Closed?
    ensures var s := Run(handle, server, steps).value;
            s.conns[c].forwarded == Of(Requests(s.handled), c) && s.conns[c].delivered == Of(Responses(s.handled), c)
  {
    RunsAreSound(handle, server, steps);
    assert ConnIsSound(Run(handle, server, steps).value, c);
  }

  /**
   At any time, what was handled for a connection is the first of what it forwarded, what it got is the first of
   what was answered, and it has one request outstanding while it sends or waits and else none.
   */
  lemma ServedInOrder<S>(handle: Handle<S>, server: S, steps: seq<Step>, c: nat)
    requires Run(handle, server, steps).Some? && c in Run(handle, server, steps).value.conns
    ensures var s := Run(handle, server, steps).value;
            && Of(Requests(s.handled), c) <= s.conns[c].forwarded
            && s.conns[c].delivered <= Of(Responses(s.handled), c)
            && |Of(Requests(s.handled), c)| == |Of(Responses(s.handled), c)|
            && |s.conns[c].forwarded|
               == |s.conns[c].delivered| + if s.conns[c].phase.Sending? || s.conns[c].phase.Waiting? then 1 else 0
  {
    RunsAreSound(handle, server, steps);
    assert ConnIsSound(Run(handle, server, steps).value, c);
    OneResponseEach(Run(handle, server, steps).value.handled, c);
  }

  lemma {:induction false} OneResponseEach(handled: seq<Record>, c: nat)
    ensures |Of(Requests(handled), c)| == |Of(Responses(handled), c)|
  {
    if handled != [] {
      assert Requests(handled)[1..] == Requests(handled[1..]) && Responses(handled)[1..] == Responses(handled[1..]);
      OneResponseEach(handled[1..], c);
    }
  }

  /** Once its task has ended, a connection never changes again: nothing is forwarded, sent or delivered for it. */
  lemma {:induction false} ClosedIsFinal<S>(handle: Handle<S>, server: S, steps: seq<Step>, c: nat, more: seq<Step>)
    requires Run(handle, server, steps + [Close(c)] + more).Some?
    ensures Run(handle, server, steps).Some? && c in Run(handle, server, steps).value.conns
    ensures var s, t := Run(handle, server, steps).value, Run(handle, server, steps + [Close(c)] + more).value;
            c in t.conns && t.conns[c] == s.conns[c].(phase := Closed)
  {
    var all := steps + [Close(c)] + more;
    if more == [] {
      assert all[..|all| - 1] == steps;
    } else {
      var front := more[..|more| - 1];
      assert all[..|all| - 1] == steps + [Close(c)] + front;
      ClosedIsFinal(handle, server, steps, c, front);
      hide Apply, Enabled;
      var before := steps + [Close(c)] + front;
      var s := Run(handle, server, before).value;
      if s.loop.Replying? {
        ReplyNeverBlocks(handle, server, before);
      }
      ClosedStays(handle, s, c, more[|more| - 1]);
    }
  }

  lemma ClosedStays<S>(handle: Handle<S>, s: System<S>, c: nat, step: Step)
    requires Enabled(s, step) && c in s.conns && s.conns[c].phase.Closed?
    requires s.loop.Replying? ==> s.loop.conn != c
    ensures var t := Apply(handle, s, step); c in t.conns && t.conns[c] == s.conns[c]
  {
  }

  /** The loop's send into a reply channel never blocks: whoever is owed the response is there, its slot free. */
  lemma ReplyNeverBlocks<S>(handle: Handle<S>, server: S, steps: seq<Step>)
    requires Run(handle, server, steps).Some? && Run(handle, server, steps).value.loop.Replying?
    ensures Enabled(Run(handle, server, steps).value, Reply)
    ensures var s := Run(handle, server, steps).value; s.conns[s.loop.conn].phase.Waiting?
  {
    RunsAreSound(handle, server, steps);
    var s := Run(handle, server, steps).value;
    assert Unsent(s)[0].0 in s.conns;
    assert ConnIsSound(s, s.loop.conn);
    assert Of(Unsent(s), s.loop.conn) == [s.loop.response] by { assert Unsent(s)[1..] == []; }
  }

  /** The steps that bring a forwarded request closer to its answer. */
  predicate Advances(step: Step) {
    !step.Accept? && !step.Close? && !step.Forward?
  }

  /** Unless a reset was taken, some step that brings an unanswered request closer to its answer is enabled. */
  lemma NoDeadlock<S>(handle: Handle<S>, server: S, steps: seq<Step>, c: nat)
    requires Run(handle, server, steps).Some? && !Run(handle, server, steps).value.loop.Down?
    requires c in Run(handle, server, steps).value.conns
    requires var k := Run(handle, server, steps).value.conns[c]; k.phase.Sending? || k.phase.Waiting?
    ensures exists step :: Enabled(Run(handle, server, steps).value, step) && Advances(step)
  {
    var s := Run(handle, server, steps).value;
    RunsAreSound(handle, server, steps);
    assert ConnIsSound(s, c);
    match s.loop {
      case Handling(_, _) => assert Enabled(s, HandleRequest(0));
      case Replying(_, _) =>
        ReplyNeverBlocks(handle, server, steps);
        assert Enabled(s, Reply);
      case CheckingReset => assert Enabled(s, CheckReset);
      case Receiving =>
        if s.queue != [] {
          assert Enabled(s, Receive);
        } else if s.conns[c].phase.Sending? {
          assert Enabled(s, Enqueue(c));
        } else {
          assert Unhandled(s) == [] && Unsent(s) == [];
          assert Enabled(s, Deliver(c));
        }
    }
  }

  // ---------------------------------------------------------------------------------------------
  // Requests are served in the order of their arrival

  /** What was handled, then what is in hand, then the queue: all that ever arrived, in order. */
  predicate ServesInTurn<S>(s: System<S>) {
    Requests(s.handled) + Unhandled(s) == s.arrivals
  }

  lemma StepServesInTurn<S>(handle: Handle<S>, s: System<S>, step: Step)
    requires Enabled(s, step) && ServesInTurn(s)
    ensures ServesInTurn(Apply(handle, s, step))
  {
    var t := Apply(handle, s, step);
    match step
    case Enqueue(c) =>
      var entry := (c, s.conns[c].phase.request);
      assert Requests(s.handled) + (Unhandled(s) + [entry]) == s.arrivals + [entry];
      assert Unhandled(t) == Unhandled(s) + [entry];
    case HandleRequest(_) =>
      var entry := (s.loop.conn, s.loop.request);
      assert Requests(t.handled) == Requests(s.handled) + [entry];
      assert Unhandled(s) == [entry] + Unhandled(t);
    case _ => assert Unhandled(t) == Unhandled(s);
  }

  /** Under every interleaving the loop handles requests in the order in which they entered the queue. */
  lemma {:induction false} ArrivalsAreServedInTurn<S>(handle: Handle<S>, server: S, steps: seq<Step>)
    requires Run(handle, server, steps).Some?
    ensures ServesInTurn(Run(handle, server, steps).value)
  {
    hide Apply, Enabled, ServesInTurn;
    if steps == [] {
      NothingArrived(server);
    } else {
      var before := Run(handle, server, steps[..|steps| - 1]);
      ArrivalsAreServedInTurn(handle, server, steps[..|steps| - 1]);
      StepServesInTurn(handle, before.value, steps[|steps| - 1]);
    }
  }

  lemma NothingArrived<S>(server: S)
    ensures ServesInTurn(Initial(server))
  {
  }

  /** What one state has recorded, and whether the loop is down, every later state keeps. */
  ghost predicate Continues<S>(s: System<S>, t: System<S>) {
    && s.arrivals <= t.arrivals
    && s.handled <= t.handled
    && (s.loop.Down? ==> t.loop == s.loop && t.handled == s.handled && t.server == s.server)
  }

  lemma StepContinues<S>(handle: Handle<S>, s: System<S>, step: Step)
    requires Enabled(s, step)
    ensures Continues(s, Apply(handle, s, step))
  {
  }

  lemma {:induction false} RunsContinue<S>(handle: Handle<S>, server: S, steps: seq<Step>, more: seq<Step>)
    requires Run(handle, server, steps + more).Some?
    ensures Run(handle, server, steps).Some?
    ensures Continues(Run(handle, server, steps).value, Run(handle, server, steps + more).value)
  {
    hide Apply, Enabled;
    if more == [] {
      assert steps + more == steps;
    } else {
      var front, step := more[..|more| - 1], more[|more| - 1];
      assert (steps + more)[..|steps + more| - 1] == steps + front;
      RunsContinue(handle, server, steps, front);
      StepContinues(handle, Run(handle, server, steps + front).value, step);
    }
  }

  /**
   A request that enters the queue keeps its turn: at most 32 others, those queued before it and the one in
   hand, are handled first, and if one more is handled after them, it is this one. Nothing but a reset taken
   before its turn can keep it from being handled (EveryRequestIsAnswered).
   */
  lemma WaitIsBounded<S>(handle: Handle<S>, server: S, steps: seq<Step>, c: nat, more: seq<Step>)
    requires Run(handle, server, steps + [Enqueue(c)] + more).Some?
    ensures Run(handle, server, steps).Some? && Enabled(Run(handle, server, steps).value, Enqueue(c))
    ensures var s, t := Run(handle, server, steps).value, Run(handle, server, steps + [Enqueue(c)] + more).value;
            var others := |Unhandled(s)|;
            && others <= 32
            && (|t.handled| > |s.handled| + others ==>
                  var r := t.handled[|s.handled| + others];
                  r.conn == c && r.request == s.conns[c].phase.request)
  {
    hide Unhandled;
    var queued := steps + [Enqueue(c)];
    RunsContinue(handle, server, queued, more);
    assert queued[..|queued| - 1] == steps;
    var s, q, t := Run(handle, server, steps).value, Run(handle, server, queued).value,
                   Run(handle, server, queued + more).value;
    RunsAreSound(handle, server, steps);
    AtMostOneInHand(s);
    ArrivalsAreServedInTurn(handle, server, steps);
    ArrivalsAreServedInTurn(handle, server, queued + more);
    var n := |s.handled| + |Unhandled(s)|;
    assert q.arrivals[n] == (c, s.conns[c].phase.request) && t.arrivals[n] == q.arrivals[n];
    assert |t.handled| > n ==> Requests(t.handled)[n] == t.arrivals[n];
  }

  lemma AtMostOneInHand<S>(s: System<S>)
    ensures |Unhandled(s)| <= |s.queue| + 1
  {
  }

  // ---------------------------------------------------------------------------------------------
  // Progress: six steps to answer a request

  function Forwards(steps: seq<Step>): nat {
    if steps == [] then 0 else Forwards(steps[..|steps| - 1]) + if steps[|steps| - 1].Forward? then 1 else 0
  }

  function AdvancesIn(steps: seq<Step>): nat {
    if steps == [] then 0 else AdvancesIn(steps[..|steps| - 1]) + if Advances(steps[|steps| - 1]) then 1 else 0
  }

  function StillSending(conns: map<nat, Conn>): set<nat> {
    set c | c in conns && conns[c].phase.Sending?
  }

  function Undelivered(conns: map<nat, Conn>): set<nat> {
    set c | c in conns && conns[c].slot.Some?
  }

  /** The steps still owed to the requests under way. */
  function Work<S>(s: System<S>): nat {
    6 * |StillSending(s.conns)| + 5 * |s.queue| + |Undelivered(s.conns)| + LoopWork(s.loop)
  }

  function LoopWork(loop: Loop): nat {
    match loop
    case Handling(_, _) => 4
    case Replying(_, _) => 3
    case CheckingReset => 1
    case _ => 0
  }

  lemma OneConnSends(conns: map<nat, Conn>, c: nat, k: Conn)
    ensures |StillSending(conns[c := k])| + (if c in conns && conns[c].phase.Sending? then 1 else 0)
         == |StillSending(conns)| + if k.phase.Sending? then 1 else 0
  {
    var others := StillSending(conns) - {c};
    assert StillSending(conns[c := k]) == if k.phase.Sending? then others + {c} else others;
    assert StillSending(conns) == if c in conns && conns[c].phase.Sending? then others + {c} else others;
  }

  lemma OneConnIsOwed(conns: map<nat, Conn>, c: nat, k: Conn)
    ensures |Undelivered(conns[c := k])| + (if c in conns && conns[c].slot.Some? then 1 else 0)
         == |Undelivered(conns)| + if k.slot.Some? then 1 else 0
  {
    var others := Undelivered(conns) - {c};
    assert Undelivered(conns[c := k]) == if k.slot.Some? then others + {c} else others;
    assert Undelivered(conns) == if c in conns && conns[c].slot.Some? then others + {c} else others;
  }

  lemma ConnStepDoesWork<S>(handle: Handle<S>, s: System<S>, step: Step, c: nat)
    requires Enabled(s, step) && !step.Receive? && !step.HandleRequest? && !step.CheckReset?
    requires c == if step.Reply? then s.loop.conn else step.conn
    ensures Work(Apply(handle, s, step)) + (if Advances(step) then 1 else 0) == Work(s) + if step.Forward? then 6 else 0
  {
    hide StillSending, Undelivered;
    var t := Apply(handle, s, step);
    assert t.conns == s.conns[c := t.conns[c]];
    OneConnSends(s.conns, c, t.conns[c]);
    OneConnIsOwed(s.conns, c, t.conns[c]);
  }

  /** Every step towards an answer does one unit of work; forwarding a request adds six. */
  lemma StepDoesWork<S>(handle: Handle<S>, s: System<S>, step: Step)
    requires Enabled(s, step)
    ensures Work(Apply(handle, s, step)) + (if Advances(step) then 1 else 0) == Work(s) + if step.Forward? then 6 else 0
  {
    hide StillSending, Undelivered;
    match step
    case Receive =>
    case HandleRequest(_) =>
    case CheckReset =>
    case Reply => ConnStepDoesWork(handle, s, step, s.loop.conn);
    case _ => ConnStepDoesWork(handle, s, step, step.conn);
  }

  /** In every run, the steps taken towards answers and those still owed are six for each request forwarded. */
  lemma {:induction false} SixStepsPerRequest<S>(handle: Handle<S>, server: S, steps: seq<Step>)
    requires Run(handle, server, steps).Some?
    ensures AdvancesIn(steps) + Work(Run(handle, server, steps).value) == 6 * Forwards(steps)
  {
    hide Apply, Enabled, Work;
    if steps == [] {
      NoWork(server);
    } else {
      SixStepsPerRequest(handle, server, steps[..|steps| - 1]);
      StepDoesWork(handle, Run(handle, server, steps[..|steps| - 1]).value, steps[|steps| - 1]);
    }
  }

  lemma NoWork<S>(server: S)
    ensures Work(Initial(server)) == 0
  {
    assert StillSending(map[]) == {} && Undelivered(map[]) == {};
  }

  /**
   A run that no reset has ended can always go on until six steps per request have been taken; it then stands
   still, and every connection has had all its requests handled, in order, and got all its responses, in order.
   */
  lemma EveryRequestIsAnswered<S>(handle: Handle<S>, server: S, steps: seq<Step>)
    requires Run(handle, server, steps).Some? && !Run(handle, server, steps).value.loop.Down?
    requires forall step :: Enabled(Run(handle, server, steps).value, step) ==> !Advances(step)
    ensures AdvancesIn(steps) == 6 * Forwards(steps)
    ensures var s := Run(handle, server, steps).value;
            forall c :: c in s.conns ==>
              s.conns[c].forwarded == Of(Requests(s.handled), c) && s.conns[c].delivered == Of(Responses(s.handled), c)
  {
    var s := Run(handle, server, steps).value;
    forall c | c in s.conns
      ensures s.conns[c].phase.Idle? || s.conns[c].phase.Closed?
      ensures s.conns[c].slot.None?
      ensures s.conns[c].forwarded == Of(Requests(s.handled), c) && s.conns[c].delivered == Of(Responses(s.handled), c)
    {
      hide Apply;
      if s.conns[c].phase.Sending? || s.conns[c].phase.Waiting? {
        NoDeadlock(handle, server, steps, c);
      }
      IdleConnectionsAreServed(handle, server, steps, c);
      SlotIsFree(handle, server, steps, c);
    }
    SixStepsPerRequest(handle, server, steps);
    assert StillSending(s.conns) == {} && Undelivered(s.conns) == {};
    LoopIsAtRest(handle, server, steps);
  }

  lemma SlotIsFree<S>(handle: Handle<S>, server: S, steps: seq<Step>, c: nat)
    requires Run(handle, server, steps).Some? && c in Run(handle, server, steps).value.conns
    requires !Run(handle, server, steps).value.conns[c].phase.Waiting?
    ensures Run(handle, server, steps).value.conns[c].slot.None?
  {
    RunsAreSound(handle, server, steps);
    assert ConnIsSound(Run(handle, server, steps).value, c);
  }

  lemma LoopIsAtRest<S>(handle: Handle<S>, server: S, steps: seq<Step>)
    requires Run(handle, server, steps).Some? && !Run(handle, server, steps).value.loop.Down?
    requires forall step :: Enabled(Run(handle, server, steps).value, step) ==> !Advances(step)
    ensures Run(handle, server, steps).value.loop.Receiving? && Run(handle, server, steps).value.queue == []
  {
    var s := Run(handle, server, steps).value;
    assert Advances(Receive) && Advances(HandleRequest(0)) && Advances(Reply) && Advances(CheckReset);
    if s.loop.Replying? {
      ReplyNeverBlocks(handle, server, steps);
    }
  }

  // ---------------------------------------------------------------------------------------------
  // The loop is sequential, and a reset is taken once, after the reply

  /** The server after handling the recorded requests one after the other, with nothing in between. */
  function Sequential<S>(handle: Handle<S>, server: S, handled: seq<Record>): S {
    if handled == [] then server
    else
      var front, last := handled[..|handled| - 1], handled[|handled| - 1];
      handle(Sequential(handle, server, front), last.request, last.now).server
  }

  ghost predicate AnsweredInTurn<S>(handle: Handle<S>, server: S, handled: seq<Record>) {
    forall i :: 0 <= i < |handled| ==>
      var o := handle(Sequential(handle, server, handled[..i]), handled[i].request, handled[i].now);
      handled[i].response == o.response && handled[i].reset == o.reset
  }

  /** Whether the last handled request asked for a reset. */
  function LastReset(handled: seq<Record>): Reset {
    if handled == [] then NoReset else handled[|handled| - 1].reset
  }

  ghost predicate OnlyLastResets(handled: seq<Record>) {
    forall i :: 0 <= i < |handled| - 1 ==> handled[i].reset == NoReset
  }

  ghost predicate ResetIsSound<S>(s: System<S>) {
    && OnlyLastResets(s.handled)
    && match s.loop
       case Receiving => s.pendingReset == NoReset && LastReset(s.handled) == NoReset
       case Handling(_, _) => s.pendingReset == NoReset && LastReset(s.handled) == NoReset
       case Replying(_, _) => s.pendingReset == LastReset(s.handled)
       case CheckingReset => s.pendingReset == LastReset(s.handled)
       case Down(r) => s.pendingReset == NoReset && r == LastReset(s.handled) && r != NoReset
  }

  lemma StepIsSequential<S>(handle: Handle<S>, server: S, s: System<S>, step: Step)
    requires Enabled(s, step)
    requires s.server == Sequential(handle, server, s.handled) && AnsweredInTurn(handle, server, s.handled)
    ensures var t := Apply(handle, s, step);
            t.server == Sequential(handle, server, t.handled) && AnsweredInTurn(handle, server, t.handled)
  {
    if step.HandleRequest? {
      var o := handle(s.server, s.loop.request, step.now);
      OneMoreInTurn(handle, server, s.handled, Record(s.loop.conn, s.loop.request, step.now, o.response, o.reset));
    }
  }

  lemma OneMoreInTurn<S>(handle: Handle<S>, server: S, handled: seq<Record>, r: Record)
    requires AnsweredInTurn(handle, server, handled)
    requires var o := handle(Sequential(handle, server, handled), r.request, r.now);
             r.response == o.response && r.reset == o.reset
    ensures AnsweredInTurn(handle, server, handled + [r])
    ensures Sequential(handle, server, handled + [r])
            == handle(Sequential(handle, server, handled), r.request, r.now).server
  {
    var more := handled + [r];
    assert more[..|handled|] == handled;
    forall i | 0 <= i < |more|
      ensures var o := handle(Sequential(handle, server, more[..i]), more[i].request, more[i].now);
              more[i].response == o.response && more[i].reset == o.reset
    {
      hide Sequential;
      assert more[..i] == handled[..i];
    }
  }

  lemma StepKeepsResetSound<S>(handle: Handle<S>, s: System<S>, step: Step)
    requires Enabled(s, step) && ResetIsSound(s)
    ensures ResetIsSound(Apply(handle, s, step))
  {
  }

  /**
   However the tasks interleave, the loop computes what it would compute on the handled requests alone,
   one after the other. It goes down exactly for the reset that the last of them asked for, which is the
   first one asked for.
   */
  lemma {:induction false} LoopIsSequential<S>(handle: Handle<S>, server: S, steps: seq<Step>)
    requires Run(handle, server, steps).Some?
    ensures var s := Run(handle, server, steps).value;
            && s.server == Sequential(handle, server, s.handled)
            && AnsweredInTurn(handle, server, s.handled)
            && ResetIsSound(s)
  {
    hide Apply, Enabled, AnsweredInTurn, Sequential, ResetIsSound;
    if steps == [] {
      EmptyIsSequential(handle, server);
    } else {
      var s, step := Run(handle, server, steps[..|steps| - 1]).value, steps[|steps| - 1];
      LoopIsSequential(handle, server, steps[..|steps| - 1]);
      StepIsSequential(handle, server, s, step);
      StepKeepsResetSound(handle, s, step);
    }
  }

  lemma EmptyIsSequential<S>(handle: Handle<S>, server: S)
    ensures Sequential(handle, server, []) == server && AnsweredInTurn(handle, server, [])
    ensures ResetIsSound(Initial(server))
  {
  }

  /**
   Once the loop has gone down it stays down and handles nothing more, and by then the response to every
   handled request, that of the one that asked for the reset included, has been delivered to its connection
   or put into its reply channel.
   */
  lemma ResetComesAfterResponses<S>(handle: Handle<S>, server: S, steps: seq<Step>, more: seq<Step>, c: nat)
    requires Run(handle, server, steps + more).Some? && Run(handle, server, steps).Some?
    requires Run(handle, server, steps).value.loop.Down? && c in Run(handle, server, steps + more).value.conns
    ensures var s, t := Run(handle, server, steps).value, Run(handle, server, steps + more).value;
            && t.loop == s.loop && t.handled == s.handled && t.server == s.server
            && Of(Responses(t.handled), c) == t.conns[c].delivered + InSlot(t.conns[c])
  {
    RunsContinue(handle, server, steps, more);
    RunsAreSound(handle, server, steps + more);
    var t := Run(handle, server, steps + more).value;
    assert ConnIsSound(t, c);
    assert Of(Unsent(t), c) == [];
  }
}
