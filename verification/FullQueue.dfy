/** The bound on waiting is met: with 33 connections a request is handled after exactly 32 others. */
module FullQueue {
  import opened Wrappers
  import opened Connection
  import opened RequestLoop
  import opened Resets

  /** No request asks for a reset. */
  ghost predicate NeverResets<S(!new)>(handle: Handle<S>) {
    forall s: S, r: UdsRequest, now: nat :: handle(s, r, now).reset.NoReset?
  }

  lemma OneMoreStep<S>(handle: Handle<S>, server: S, steps: seq<Step>, step: Step)
    requires Run(handle, server, steps).Some? && Enabled(Run(handle, server, steps).value, step)
    ensures Run(handle, server, steps + [step]) == Some(Apply(handle, Run(handle, server, steps).value, step))
  {
    assert (steps + [step])[..|steps|] == steps;
  }

  // ---------------------------------------------------------------------------------------------
  // Filling the queue

  /** Connections 0 to k wait for request r, that of connection 0 in hand and the others in the queue. */
  ghost predicate IsFilled<S>(s: System<S>, k: nat, r: UdsRequest) {
    && s.loop == Handling(0, r)
    && |s.queue| == k && s.handled == []
    && |s.arrivals| == k + 1 && (forall i :: 0 <= i <= k ==> s.arrivals[i].0 == i)
    && (forall c: nat :: c in s.conns <==> c <= k)
    && (forall c :: c in s.conns ==> s.conns[c].phase.Waiting?)
  }

  /** In the second run connection c has come to send the request, and nothing else is different. */
  ghost predicate Sends<S>(handle: Handle<S>, server: S, steps: seq<Step>, more: seq<Step>, c: nat, r: UdsRequest)
    requires Run(handle, server, steps).Some?
  {
    var s := Run(handle, server, steps).value;
    Run(handle, server, more) == Some(s.(conns := s.conns[c := Conn(Sending(r), None, [r], [])]))
  }

  /** A new connection forwards the request, up to putting it into the queue. */
  lemma Forwards<S>(handle: Handle<S>, server: S, steps: seq<Step>, c: nat, r: UdsRequest) returns (more: seq<Step>)
    requires Run(handle, server, steps).Some? && c !in Run(handle, server, steps).value.conns
    ensures Sends(handle, server, steps, more, c, r)
  {
    hide Run;
    OneMoreStep(handle, server, steps, Accept(c));
    more := steps + [Accept(c)];
    OneMoreStep(handle, server, more, Forward(c, r));
    more := more + [Forward(c, r)];
    var s := Run(handle, server, steps).value;
    assert [] + [r] == [r];
    assert s.conns[c := Conn(Idle, None, [], [])][c := Conn(Sending(r), None, [r], [])]
        == s.conns[c := Conn(Sending(r), None, [r], [])];
  }

  lemma {:induction false} Fill<S>(handle: Handle<S>, server: S, k: nat, r: UdsRequest) returns (steps: seq<Step>)
    requires k <= 32
    ensures Run(handle, server, steps).Some? && IsFilled(Run(handle, server, steps).value, k, r)
  {
    hide Run;
    if k == 0 {
      assert Run(handle, server, []) == Some(Initial(server)) by { Start(handle, server); }
      steps := Forwards(handle, server, [], 0, r);
      OneMoreStep(handle, server, steps, Enqueue(0));
      steps := steps + [Enqueue(0)];
      OneMoreStep(handle, server, steps, Receive);
      steps := steps + [Receive];
      assert Run(handle, server, steps).value.conns.Keys == {0};
    } else {
      steps := Fill(handle, server, k - 1, r);
      steps := Forwards(handle, server, steps, k, r);
      OneMoreStep(handle, server, steps, Enqueue(k));
      steps := steps + [Enqueue(k)];
    }
  }

  lemma Start<S>(handle: Handle<S>, server: S)
    ensures Run(handle, server, []) == Some(Initial(server))
  {
  }

  // ---------------------------------------------------------------------------------------------
  // Emptying it

  /** The second run has handled one request more, and taken the next one if there was one. */
  ghost predicate HandledOneMore<S>(handle: Handle<S>, server: S, steps: seq<Step>, all: seq<Step>)
    requires Run(handle, server, steps).Some?
  {
    var s := Run(handle, server, steps).value;
    && Run(handle, server, all).Some?
    && var t := Run(handle, server, all).value;
       && |t.handled| == |s.handled| + 1
       && (s.queue != [] ==> t.loop.Handling? && |t.queue| == |s.queue| - 1)
  }

  /** Where no request asks for a reset, the loop handles the request in hand, and takes the next if there is one. */
  lemma HandleNext<S(!new)>(handle: Handle<S>, server: S, steps: seq<Step>) returns (more: seq<Step>)
    requires Run(handle, server, steps).Some? && Run(handle, server, steps).value.loop.Handling? && NeverResets(handle)
    ensures HandledOneMore(handle, server, steps, steps + more)
  {
    hide Run, Sequential, AnsweredInTurn;
    var s := Run(handle, server, steps).value;
    LoopIsSequential(handle, server, steps);
    var all := steps + [HandleRequest(0)];
    OneMoreStep(handle, server, steps, HandleRequest(0));
    ReplyNeverBlocks(handle, server, all);
    OneMoreStep(handle, server, all, Reply);
    all := all + [Reply];
    OneMoreStep(handle, server, all, CheckReset);
    all := all + [CheckReset];
    if s.queue != [] {
      OneMoreStep(handle, server, all, Receive);
      all := all + [Receive];
    }
    more := all[|steps|..];
    assert steps + more == all;
  }

  lemma {:induction false} HandleMany<S(!new)>(handle: Handle<S>, server: S, steps: seq<Step>, n: nat)
    returns (more: seq<Step>)
    requires Run(handle, server, steps).Some? && Run(handle, server, steps).value.loop.Handling? && NeverResets(handle)
    requires n <= |Run(handle, server, steps).value.queue| + 1
    ensures Run(handle, server, steps + more).Some?
    ensures |Run(handle, server, steps + more).value.handled| == |Run(handle, server, steps).value.handled| + n
    decreases n
  {
    hide Run;
    if n == 0 {
      more := [];
      assert steps + [] == steps;
    } else {
      more := HandleNext(handle, server, steps);
      if n > 1 {
        var rest := HandleMany(handle, server, steps + more, n - 1);
        assert steps + more + rest == steps + (more + rest);
        more := more + rest;
      }
    }
  }

  /**
   After steps 33 connections wait, all but the last with their requests in hand or queued; the last one's makes the
   queue full, and is handled when exactly 32 others have been.
   */
  ghost predicate MeetsBound<S>(handle: Handle<S>, server: S, steps: seq<Step>, more: seq<Step>) {
    var before, full, after := Run(handle, server, steps), Run(handle, server, steps + [Enqueue(32)]),
                               Run(handle, server, steps + [Enqueue(32)] + more);
    && before.Some? && full.Some? && after.Some?
    && (forall c: nat :: c in before.value.conns <==> c <= 32)
    && before.value.handled == [] && |Unhandled(before.value)| == 32
    && (forall c :: !Enabled(full.value, Enqueue(c)))
    && |after.value.handled| == 33
    && forall i :: 0 <= i <= 32 ==> after.value.handled[i].conn == i
  }

  /**
   Whatever the server, as long as it is not asked for a reset, 33 connections can wait at once, one request in hand
   and 32 in the queue, which then is full, and the last of them is handled when exactly 32 others have been.
   */
  lemma WaitingBoundIsMet<S(!new)>(handle: Handle<S>, server: S, r: UdsRequest)
    returns (steps: seq<Step>, more: seq<Step>)
    requires NeverResets(handle)
    ensures MeetsBound(handle, server, steps, more)
  {
    hide Run;
    steps := Fill(handle, server, 31, r);
    steps := Forwards(handle, server, steps, 32, r);
    var s := Run(handle, server, steps).value;
    OneMoreStep(handle, server, steps, Enqueue(32));
    more := HandleMany(handle, server, steps + [Enqueue(32)], 33);
    var all := steps + [Enqueue(32)] + more;
    RunsContinue(handle, server, steps + [Enqueue(32)], more);
    ArrivalsAreServedInTurn(handle, server, all);
    ArrivalsAreServedInTurn(handle, server, steps);
    var q, t := Run(handle, server, steps + [Enqueue(32)]).value, Run(handle, server, all).value;
    forall i | 0 <= i <= 32 ensures t.handled[i].conn == i {
      assert q.arrivals[i].0 == i && t.arrivals[i] == q.arrivals[i];
      assert Requests(t.handled)[i] == t.arrivals[i];
    }
  }

  // ---------------------------------------------------------------------------------------------
  // One connection, any number of requests

  /** The loop is idle, the queue empty and connection c at rest. */
  ghost predicate IsQuiet<S>(s: System<S>, c: nat) {
    && s.loop.Receiving? && s.queue == []
    && c in s.conns && s.conns[c].phase.Idle? && s.conns[c].slot.None?
  }

  /** The second run has served connection c one request more, with the answer of the server it found. */
  ghost predicate ServedOneMore<S>(handle: Handle<S>, server: S, steps: seq<Step>, all: seq<Step>,
                                   c: nat, r: UdsRequest)
    requires Run(handle, server, steps).Some? && IsQuiet(Run(handle, server, steps).value, c)
  {
    var s := Run(handle, server, steps).value;
    && Run(handle, server, all).Some?
    && var t := Run(handle, server, all).value;
       && IsQuiet(t, c)
       && t.conns[c].forwarded == s.conns[c].forwarded + [r]
       && t.conns[c].delivered == s.conns[c].delivered + [handle(s.server, r, 0).response]
  }

  /** A connection at rest is served a request by the idle loop, and is at rest again. */
  lemma ServeOnce<S(!new)>(handle: Handle<S>, server: S, steps: seq<Step>, c: nat, r: UdsRequest)
    returns (all: seq<Step>)
    requires NeverResets(handle)
    requires Run(handle, server, steps).Some? && IsQuiet(Run(handle, server, steps).value, c)
    ensures ServedOneMore(handle, server, steps, all, c, r)
  {
    hide Run, Sequential, AnsweredInTurn;
    LoopIsSequential(handle, server, steps);
    OneMoreStep(handle, server, steps, Forward(c, r));
    all := steps + [Forward(c, r)];
    OneMoreStep(handle, server, all, Enqueue(c));
    all := all + [Enqueue(c)];
    OneMoreStep(handle, server, all, Receive);
    all := all + [Receive];
    OneMoreStep(handle, server, all, HandleRequest(0));
    all := all + [HandleRequest(0)];
    OneMoreStep(handle, server, all, Reply);
    all := all + [Reply];
    OneMoreStep(handle, server, all, CheckReset);
    all := all + [CheckReset];
    OneMoreStep(handle, server, all, Deliver(c));
    all := all + [Deliver(c)];
  }

  /** Connection 0 has had these requests answered, and may close. */
  ghost predicate HasServed<S>(handle: Handle<S>, server: S, steps: seq<Step>, rs: seq<UdsRequest>) {
    && Run(handle, server, steps).Some?
    && var s := Run(handle, server, steps).value;
       && IsQuiet(s, 0) && Enabled(s, Close(0))
       && s.conns[0].forwarded == rs && |s.conns[0].delivered| == |rs|
  }

  /** A connection can have any requests answered one after the other, and close when it has no more. */
  lemma {:induction false} AnyRequestsAreServed<S(!new)>(handle: Handle<S>, server: S, rs: seq<UdsRequest>)
    returns (steps: seq<Step>)
    requires NeverResets(handle)
    ensures HasServed(handle, server, steps, rs)
  {
    hide Run;
    if rs == [] {
      Start(handle, server);
      OneMoreStep(handle, server, [], Accept(0));
      steps := [] + [Accept(0)];
    } else {
      var n := |rs| - 1;
      steps := AnyRequestsAreServed(handle, server, rs[..n]);
      steps := ServeOnce(handle, server, steps, 0, rs[n]);
      assert rs[..n] + [rs[n]] == rs;
    }
  }
}
