/**
 A tester's view of the whole: the bytes it gets back, told from the bytes it sends and from what the one
 UDS loop, which it shares with all other testers, computes for its requests.
 */
module EndToEnd {
  import opened Wrappers
  import opened Octets
  import opened Framing
  import opened Messages
  import opened Connection
  import opened ConnectionRuns
  import RequestLoop

  /** The requests a connection has forwarded. */
  function Asked(log: seq<Action>): seq<UdsRequest> {
    if log == [] then []
    else Asked(log[..|log| - 1]) + if log[|log| - 1].Forwarded? then [log[|log| - 1].request] else []
  }

  /** The replies it got to them. */
  function Got(env: Environment, log: seq<Action>): seq<seq<byte>> {
    if log == [] then []
    else
      Got(env, log[..|log| - 1])
      + if log[|log| - 1].Forwarded? && env.reply(|log|).Some? then [env.reply(|log|).value] else []
  }

  /** The last action is a request that has no reply. */
  predicate Waits(env: Environment, log: seq<Action>) {
    log != [] && log[|log| - 1].Forwarded? && env.reply(|log|).None?
  }

  /** Nothing is done after a request before the reply to it is there. */
  predicate Awaits(env: Environment, log: seq<Action>) {
    forall k :: 0 <= k < |log| - 1 && log[k].Forwarded? ==> env.reply(k + 1).Some?
  }

  function AcceptedIn(rulings: seq<Ruling>): seq<UdsRequest> {
    if rulings == [] then []
    else (if rulings[0].Accepted? then [rulings[0].request] else []) + AcceptedIn(rulings[1..])
  }

  /** The messages that meet an obligation; the response is that of the UDS loop, where one is asked for. */
  function Speech(ecu: U16, r: Ruling, response: seq<byte>): seq<Message> {
    match r
    case Activated(source) => [ActivationResponse(source, ecu, ROUTING_SUCCESS, ZERO)]
    case Accepted(request, tester) =>
      [Ack(ecu, request.source, 0x00)]
      + if response == [] || tester.None? then [] else [Diagnostic(ecu, tester.value, response)]
    case Rejected(source) => [Nack(ecu, source, UNKNOWN_TARGET_ADDRESS)]
    case Alive => [AliveResponse(ecu)]
  }

  /** The messages that meet all obligations in turn, up to the first request that has no response yet. */
  function Conversation(ecu: U16, rulings: seq<Ruling>, responses: seq<seq<byte>>): seq<Message> {
    if rulings == [] then []
    else if !rulings[0].Accepted? then Speech(ecu, rulings[0], []) + Conversation(ecu, rulings[1..], responses)
    else if responses == [] then [Ack(ecu, rulings[0].request.source, 0x00)]
    else Speech(ecu, rulings[0], responses[0]) + Conversation(ecu, rulings[1..], responses[1..])
  }

  // ---------------------------------------------------------------------------------------------
  // What one frame adds

  lemma SentAction(env: Environment, log: seq<Action>, m: Message)
    ensures Asked(log + [Sent(m)]) == Asked(log) && Got(env, log + [Sent(m)]) == Got(env, log)
    ensures SentMessages(log + [Sent(m)]) == SentMessages(log) + [m]
  {
    assert (log + [Sent(m)])[..|log|] == log;
  }

  lemma ForwardedAction(env: Environment, log: seq<Action>, r: UdsRequest)
    ensures Asked(log + [Forwarded(r)]) == Asked(log) + [r]
    ensures var reply := env.reply(|log| + 1);
            Got(env, log + [Forwarded(r)]) == Got(env, log) + if reply.Some? then [reply.value] else []
    ensures SentMessages(log + [Forwarded(r)]) == SentMessages(log)
  {
    assert (log + [Forwarded(r)])[..|log|] == log;
  }

  /** The log grows by the messages that meet what is due, and by the replies they need. */
  ghost predicate Speaks(env: Environment, ecu: U16, l: Link, next: Link, due: seq<Ruling>, replies: seq<seq<byte>>) {
    && |replies| == |AcceptedIn(due)|
    && Asked(next.log) == Asked(l.log) + AcceptedIn(due)
    && Got(env, next.log) == Got(env, l.log) + replies
    && SentMessages(next.log) == SentMessages(l.log) + Conversation(ecu, due, replies)
  }

  /** It stops on the way: for good, or at a request that has no reply, or has one that is not passed on. */
  ghost predicate FallsSilent(env: Environment, ecu: U16, l: Link, next: Link, due: seq<Ruling>) {
    && Asked(l.log) <= Asked(next.log) <= Asked(l.log) + AcceptedIn(due)
    && (|| SentMessages(next.log) == SentMessages(l.log)
        || (&& due != [] && due[0].Accepted?
            && SentMessages(next.log) == SentMessages(l.log) + [Ack(ecu, due[0].request.source, 0x00)]))
  }

  lemma OneRuling(ecu: U16, r: Ruling, response: seq<byte>)
    ensures AcceptedIn([r]) == if r.Accepted? then [r.request] else []
    ensures Conversation(ecu, [r], if r.Accepted? then [response] else [])
            == Speech(ecu, r, if r.Accepted? then response else [])
  {
    var none: seq<Ruling> := [];
    assert [r][1..] == none;
  }

  lemma DiagnosisSpeaks(env: Environment, ecu: U16, l: Link, m: Message, next: Link, ok: bool)
    returns (replies: seq<seq<byte>>)
    requires l.state.Active? && m.Diagnostic? && DiagnosisLogged(env, ecu, l, m, next, ok)
    ensures var due := [Verdict(ecu, m, TesterOf(l.state))];
            if ok && !(due[0].Accepted? && Waits(env, next.log)) then Speaks(env, ecu, l, next, due, replies)
            else FallsSilent(env, ecu, l, next, due)
  {
    hide Asked, Got, SentMessages, AcceptedIn, Conversation;
    var r := Verdict(ecu, m, TesterOf(l.state));
    replies := [];
    OneRuling(ecu, r, []);
    if r.Rejected? {
      SentAction(env, l.log, Nack(ecu, m.source, UNKNOWN_TARGET_ADDRESS));
    } else {
      var acked := l.log + [Sent(Ack(ecu, m.source, 0x00))];
      var asked := acked + [Forwarded(r.request)];
      var reply := env.reply(|asked|).GetOr([]);
      SentAction(env, l.log, Ack(ecu, m.source, 0x00));
      ForwardedAction(env, acked, r.request);
      if env.reply(|asked|).Some? {
        replies := [reply];
        OneRuling(ecu, r, reply);
        SentAction(env, asked, Diagnostic(ecu, l.state.tester, reply));
      }
    }
  }

  lemma FrameSpeaks(env: Environment, ecu: U16, l: Link, f: Frame, next: Link, ok: bool)
    returns (replies: seq<seq<byte>>)
    requires FrameLogged(env, ecu, l, f, next, ok)
    ensures var due := Due(ecu, f, TesterOf(l.state));
            if ok && !(due != [] && due[0].Accepted? && Waits(env, next.log))
            then Speaks(env, ecu, l, next, due, replies)
            else FallsSilent(env, ecu, l, next, due)
  {
    hide Asked, Got, SentMessages, AcceptedIn, Conversation;
    var due := Due(ecu, f, TesterOf(l.state));
    replies := [];
    if due == [] {
      NothingDue(ecu);
      assert next.log == l.log;
    } else if due[0].Accepted? || due[0].Rejected? {
      replies := DiagnosisSpeaks(env, ecu, l, ParseDiagnostic(f.payload).value, next, ok);
    } else {
      OneRuling(ecu, due[0], []);
      if ok {
        SentAction(env, l.log, next.log[|l.log|].message);
      }
    }
  }

  lemma NothingDue(ecu: U16)
    ensures AcceptedIn([]) == [] && Conversation(ecu, [], []) == []
  {
  }

  lemma AcceptedStep(rulings: seq<Ruling>)
    requires rulings != []
    ensures AcceptedIn(rulings)
            == (if rulings[0].Accepted? then [rulings[0].request] else []) + AcceptedIn(rulings[1..])
  {
  }

  lemma ConversationStep(ecu: U16, rulings: seq<Ruling>, responses: seq<seq<byte>>)
    requires rulings != [] && (rulings[0].Accepted? ==> responses != [])
    ensures var accepted := rulings[0].Accepted?;
            Conversation(ecu, rulings, responses)
            == Speech(ecu, rulings[0], if accepted then responses[0] else [])
               + Conversation(ecu, rulings[1..], if accepted then responses[1..] else responses)
  {
  }

  /** What one frame is owed, then what the others are. */
  lemma {:induction false} ConversationAppend(ecu: U16, a: seq<Ruling>, x: seq<seq<byte>>,
                                              b: seq<Ruling>, y: seq<seq<byte>>)
    requires |x| == |AcceptedIn(a)|
    ensures AcceptedIn(a + b) == AcceptedIn(a) + AcceptedIn(b)
    ensures Conversation(ecu, a + b, x + y) == Conversation(ecu, a, x) + Conversation(ecu, b, y)
    decreases |a|
  {
    hide Speech, Conversation, AcceptedIn;
    if a == [] {
      NothingDue(ecu);
      assert a + b == b && x + y == y;
    } else {
      assert (a + b)[0] == a[0] && (a + b)[1..] == a[1..] + b;
      AcceptedStep(a);
      var rest := if a[0].Accepted? then x[1..] else x;
      ConversationAppend(ecu, a[1..], rest, b, y);
      AcceptedStep(a + b);
      assert a[0].Accepted? ==> (x + y)[0] == x[0] && (x + y)[1..] == rest + y;
      ConversationStep(ecu, a, x);
      ConversationStep(ecu, a + b, x + y);
    }
  }

  /** A conversation opens with the acknowledgement of a request that is accepted first, whatever the response. */
  lemma AckComesFirst(ecu: U16, rulings: seq<Ruling>, responses: seq<seq<byte>>)
    requires rulings != [] && rulings[0].Accepted?
    ensures [Ack(ecu, rulings[0].request.source, 0x00)] <= Conversation(ecu, rulings, responses)
  {
  }

  // ---------------------------------------------------------------------------------------------
  // What all frames add

  /** What a run has said and asked is what is owed, or the beginning of it. */
  ghost predicate Says(ecu: U16, l: Link, next: Link, owed: seq<Ruling>, responses: seq<seq<byte>>, all: bool) {
    && Asked(next.log) <= Asked(l.log) + AcceptedIn(owed)
    && SentMessages(next.log) <= SentMessages(l.log) + Conversation(ecu, owed, responses)
    && (all ==> Asked(next.log) == Asked(l.log) + AcceptedIn(owed))
    && (all ==> SentMessages(next.log) == SentMessages(l.log) + Conversation(ecu, owed, responses))
  }

  lemma SaysInTurn(env: Environment, ecu: U16, l: Link, mid: Link, next: Link, all: bool,
                   a: seq<Ruling>, x: seq<seq<byte>>, b: seq<Ruling>, y: seq<seq<byte>>)
    requires Speaks(env, ecu, l, mid, a, x) && Says(ecu, mid, next, b, y, all)
    ensures Says(ecu, l, next, a + b, x + y, all)
  {
    hide Asked, Got, SentMessages, AcceptedIn, Conversation;
    ConversationAppend(ecu, a, x, b, y);
    assert Asked(l.log) + AcceptedIn(a) + AcceptedIn(b) == Asked(l.log) + (AcceptedIn(a) + AcceptedIn(b));
    var said, more := Conversation(ecu, a, x), Conversation(ecu, b, y);
    assert SentMessages(l.log) + said + more == SentMessages(l.log) + (said + more);
  }

  lemma SilenceSays(env: Environment, ecu: U16, l: Link, next: Link,
                    due: seq<Ruling>, others: seq<Ruling>, responses: seq<seq<byte>>)
    requires FallsSilent(env, ecu, l, next, due)
    ensures Says(ecu, l, next, due + others, responses, false)
  {
    hide Asked, Got, SentMessages, AcceptedIn, Conversation;
    AcceptedAppend(due, others);
    if due != [] && due[0].Accepted? {
      assert (due + others)[0] == due[0];
      AckComesFirst(ecu, due + others, responses);
    }
  }

  lemma {:induction false} AcceptedAppend(a: seq<Ruling>, b: seq<Ruling>)
    ensures AcceptedIn(a + b) == AcceptedIn(a) + AcceptedIn(b)
    decreases |a|
  {
    if a == [] {
      assert a + b == b;
    } else {
      assert (a + b)[0] == a[0] && (a + b)[1..] == a[1..] + b;
      AcceptedAppend(a[1..], b);
    }
  }

  lemma {:induction false} LongerLogGotMore(env: Environment, log: seq<Action>, longer: seq<Action>)
    requires log <= longer
    ensures Got(env, log) <= Got(env, longer)
    decreases |longer|
  {
    if log != longer {
      LongerLogGotMore(env, log, longer[..|longer| - 1]);
    }
  }

  /**
   A run says what is owed for the responses it got, and it stops only where it failed or waits. The
   responses may be more than it got: those that are on their way count as well.
   */
  lemma {:induction false} FramesSpeak(env: Environment, ecu: U16, l: Link, fs: seq<Frame>, responses: seq<seq<byte>>)
    requires Tracks(l) && Awaits(env, HandleFrames(env, ecu, l, fs).0.log)
    requires Got(env, HandleFrames(env, ecu, l, fs).0.log) <= Got(env, l.log) + responses
    ensures var (next, ok) := HandleFrames(env, ecu, l, fs);
            Says(ecu, l, next, Owed(ecu, fs, TesterOf(l.state)), responses, ok && !Waits(env, next.log))
    decreases |fs|
  {
    hide HandleFrame, FrameLogged, Speaks, FallsSilent, Due, TesterAfter, IsFatal, Says, Got, Awaits;
    if fs == [] {
      NothingSays(ecu, l, responses, !Waits(env, l.log));
    } else {
      var (mid, ok) := HandleFrame(env, ecu, l, fs[0]);
      var next := HandleFrames(env, ecu, l, fs).0;
      var tester := TesterOf(l.state);
      var due := Due(ecu, fs[0], tester);
      var others := if IsFatal(fs[0], tester) then [] else Owed(ecu, fs[1..], TesterAfter(fs[0], tester));
      HandleFrameLogs(env, ecu, l, fs[0]);
      FrameGivesVerdict(env, ecu, l, fs[0], mid, ok);
      assert due + others == Owed(ecu, fs, tester);
      var replies := FrameSpeaks(env, ecu, l, fs[0], mid, ok);
      if !ok {
        SilenceSays(env, ecu, l, next, due, others, responses);
      } else {
        NothingIsUndone(env, ecu, mid, fs[1..]);
        if due != [] && due[0].Accepted? && Waits(env, mid.log) {
          WaitingEnds(env, mid.log, next.log);
          SilenceStays(env, ecu, l, mid, next, due);
          SilenceSays(env, ecu, l, next, due, others, responses);
        } else {
          SpeaksGot(env, ecu, l, mid, due, replies);
          var rest := RepliesComeFirst(env, l.log, mid.log, next.log, replies, responses);
          FramesSpeak(env, ecu, mid, fs[1..], rest);
          SaysInTurn(env, ecu, l, mid, next, HandleFrames(env, ecu, l, fs).1 && !Waits(env, next.log),
                     due, replies, others, rest);
        }
      }
    }
  }

  lemma WaitingEnds(env: Environment, log: seq<Action>, longer: seq<Action>)
    requires Waits(env, log) && log <= longer && Awaits(env, longer)
    ensures log == longer
  {
    assert log[|log| - 1] == longer[|log| - 1];
  }

  lemma SilenceStays(env: Environment, ecu: U16, l: Link, mid: Link, next: Link, due: seq<Ruling>)
    requires FallsSilent(env, ecu, l, mid, due) && mid.log == next.log
    ensures FallsSilent(env, ecu, l, next, due)
  {
  }

  lemma SpeaksGot(env: Environment, ecu: U16, l: Link, next: Link, due: seq<Ruling>, replies: seq<seq<byte>>)
    requires Speaks(env, ecu, l, next, due, replies)
    ensures Got(env, next.log) == Got(env, l.log) + replies
  {
  }

  /** The replies to one frame are the first of those to all. */
  lemma RepliesComeFirst(env: Environment, log: seq<Action>, longer: seq<Action>, longest: seq<Action>,
                         replies: seq<seq<byte>>, responses: seq<seq<byte>>) returns (rest: seq<seq<byte>>)
    requires longer <= longest && Got(env, longer) == Got(env, log) + replies
    requires Got(env, longest) <= Got(env, log) + responses
    ensures responses == replies + rest && Got(env, longest) <= Got(env, longer) + rest
  {
    hide Got;
    LongerLogGotMore(env, longer, longest);
    var n := |Got(env, log)|;
    assert (Got(env, log) + responses)[n..] == responses;
    assert (Got(env, log) + replies)[n..] == replies;
    assert replies == responses[..|replies|];
    rest := responses[|replies|..];
    assert Got(env, log) + responses == Got(env, log) + replies + rest;
  }

  lemma NothingSays(ecu: U16, l: Link, responses: seq<seq<byte>>, all: bool)
    ensures Says(ecu, l, l, [], responses, all)
  {
  }

  // ---------------------------------------------------------------------------------------------
  // The whole

  /**
   The connection task and its place among all tasks of the system are one: the requests it has forwarded are those
   it has put to the UDS loop, the replies it has got are those the system has delivered to it, and while it
   waits for one it does nothing else.
   */
  ghost predicate IsOneConnection(env: Environment, log: seq<Action>, k: RequestLoop.Conn) {
    Asked(log) == k.forwarded && Got(env, log) == k.delivered && Awaits(env, log)
  }

  /** How a tester reads a stream: its frames, decoded, in order. */
  function Read(stream: seq<byte>): seq<Option<Message>> {
    var fs := Frames(stream);
    seq(|fs|, i requires 0 <= i < |fs| => Decode(fs[i]))
  }

  function AsRead(ms: seq<Message>): seq<Option<Message>> {
    seq(|ms|, i requires 0 <= i < |ms| => Some(ms[i]))
  }

  /**
   However many testers share the ECU, however their tasks interleave and wherever this connection is: the requests
   that the loop has handled for it are the first of those that its own input gives rise to, and the bytes its
   tester has got are, decoded, the beginning of the conversation owed to that input, with each response being the
   one the loop computed for that very request. At rest and without errors, they are all of both.
   */
  lemma TesterGetsItsAnswers<S>(handle: RequestLoop.Handle<S>, server: S, steps: seq<RequestLoop.Step>, c: nat,
                                env: Environment, ecu: U16, received: seq<seq<byte>>)
    requires RequestLoop.Run(handle, server, steps).Some?
    requires c in RequestLoop.Run(handle, server, steps).value.conns
    requires IsOneConnection(env, Serve(env, ecu, NEW_LINK, received).0.log,
                             RequestLoop.Run(handle, server, steps).value.conns[c])
    requires RepliesFit(env)
    ensures var s := RequestLoop.Run(handle, server, steps).value;
            var asked := RequestLoop.Of(RequestLoop.Requests(s.handled), c);
            var answered := RequestLoop.Of(RequestLoop.Responses(s.handled), c);
            var rulings := Owed(ecu, FramesSeen(received), None);
            var (l, ok) := Serve(env, ecu, NEW_LINK, received);
            && |answered| == |asked|
            && asked <= AcceptedIn(rulings)
            && Read(l.output) <= AsRead(Conversation(ecu, rulings, answered))
            && (ok && (s.conns[c].phase.Idle? || s.conns[c].phase.Closed?) ==>
                  && asked == AcceptedIn(rulings)
                  && Read(l.output) == AsRead(Conversation(ecu, rulings, answered)))
  {
    hide Serve, HandleFrames, Frames, FramesSeen, Residue, Decode, RepliesFit;
    hide Owed, AcceptedIn, Conversation, RequestLoop.Of, RequestLoop.Run, Asked, Got, Awaits, SentMessages;
    var s := RequestLoop.Run(handle, server, steps).value;
    var (l, ok) := Serve(env, ecu, NEW_LINK, received);
    var answered := RequestLoop.Of(RequestLoop.Responses(s.handled), c);
    RequestLoop.ServedInOrder(handle, server, steps, c);
    ServeFoldsFrames(env, ecu, NEW_LINK, received);
    NothingYet(env);
    FramesSpeak(env, ecu, NEW_LINK, FramesSeen(received), answered);
    OutputRoundTrips(env, ecu, received);
    assert Read(l.output) == AsRead(SentMessages(l.log));
    if s.conns[c].phase.Idle? || s.conns[c].phase.Closed? {
      RequestLoop.IdleConnectionsAreServed(handle, server, steps, c);
      WaitingLacksReply(env, l.log);
    }
  }

  lemma NothingYet(env: Environment)
    ensures Asked([]) == [] && Got(env, []) == [] && SentMessages([]) == [] && Tracks(NEW_LINK)
  {
  }

  lemma {:induction false} AtMostOneReplyEach(env: Environment, log: seq<Action>)
    ensures |Got(env, log)| <= |Asked(log)|
  {
    if log != [] {
      AtMostOneReplyEach(env, log[..|log| - 1]);
    }
  }

  lemma WaitingLacksReply(env: Environment, log: seq<Action>)
    ensures |Got(env, log)| == |Asked(log)| ==> !Waits(env, log)
  {
    if log != [] {
      AtMostOneReplyEach(env, log[..|log| - 1]);
    }
  }
}
