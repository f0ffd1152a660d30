/**
 Every connection of the system has a run of the connection task that is one with it: from what the
 connection has forwarded and got, an environment is built in which the task does just that.
 */
module JoinedRuns {
  import opened Wrappers
  import opened Octets
  import opened Header
  import opened Framing
  import opened Messages
  import opened Connection
  import opened ConnectionRuns
  import opened EndToEnd
  import RequestLoop

  // ---------------------------------------------------------------------------------------------
  // What the task does with the replies there are

  function Exchange(ecu: U16, r: Ruling, response: seq<byte>): seq<Action>
    requires r.Accepted?
  {
    [Sent(Ack(ecu, r.request.source, 0x00)), Forwarded(r.request)]
    + if response == [] || r.tester.None? then [] else [Sent(Diagnostic(ecu, r.tester.value, response))]
  }

  /** The actions that meet the obligations, up to the first request left without a reply, or before it. */
  function Script(ecu: U16, rulings: seq<Ruling>, replies: seq<seq<byte>>, waits: bool): seq<Action> {
    if rulings == [] then []
    else if !rulings[0].Accepted? then
      [Sent(Speech(ecu, rulings[0], [])[0])] + Script(ecu, rulings[1..], replies, waits)
    else if replies == [] then
      if waits then Exchange(ecu, rulings[0], []) else []
    else
      Exchange(ecu, rulings[0], replies[0]) + Script(ecu, rulings[1..], replies[1..], waits)
  }

  /** The world that lets the task do what the script says, and then neither replies nor takes another byte. */
  function Stage(script: seq<Action>, waits: bool): Environment {
    Environment(
      (n: nat) => if n < |script| && script[n].Sent? then |FrameBytes(FrameOf(script[n].message))| else 0,
      (n: nat) => true,
      (n: nat) => if n < |script| && IsRelay(script[n]) then Some(script[n].message.userData)
           else if n == |script| && waits then None
           else Some([]))
  }

  lemma ScriptOpens(ecu: U16, rulings: seq<Ruling>, replies: seq<seq<byte>>, waits: bool)
    ensures var script := Script(ecu, rulings, replies, waits); script != [] ==> !IsRelay(script[0])
  {
  }

  lemma ScriptStep(ecu: U16, rulings: seq<Ruling>, replies: seq<seq<byte>>, waits: bool)
    requires rulings != []
    ensures Script(ecu, rulings, replies, waits)
            == if !rulings[0].Accepted? then
                 [Sent(Speech(ecu, rulings[0], [])[0])] + Script(ecu, rulings[1..], replies, waits)
               else if replies == [] then
                 if waits then Exchange(ecu, rulings[0], []) else []
               else
                 Exchange(ecu, rulings[0], replies[0]) + Script(ecu, rulings[1..], replies[1..], waits)
  {
  }

  // ---------------------------------------------------------------------------------------------
  // The task follows the script

  /** The task writes the message that the script has next. */
  lemma WriteFollows(script: seq<Action>, waits: bool, l: Link, m: Message)
    requires l.log + [Sent(m)] <= script
    ensures var (next, ok) := Write(Stage(script, waits), l, m);
            ok && next.log == l.log + [Sent(m)] && next.state == l.state
  {
    hide FrameBytes;
    assert script[|l.log|] == Sent(m);
  }

  /** Where nothing is written any more, nothing is done any more. */
  lemma {:induction false} NothingFollows(env: Environment, ecu: U16, l: Link, fs: seq<Frame>)
    requires env.accepts(|l.log|) == 0
    ensures HandleFrames(env, ecu, l, fs).0.log == l.log
    decreases |fs|
  {
    hide HandleFrame;
    if fs != [] {
      var (next, ok) := HandleFrame(env, ecu, l, fs[0]);
      NothingIsWritten(env, ecu, l, fs[0]);
      if ok {
        NothingFollows(env, ecu, next, fs[1..]);
      }
    }
  }

  lemma NothingIsWritten(env: Environment, ecu: U16, l: Link, f: Frame)
    requires env.accepts(|l.log|) == 0
    ensures HandleFrame(env, ecu, l, f).0.log == l.log
  {
    hide Payload;
    assert forall m :: |FrameBytes(FrameOf(m))| > 0;
  }

  lemma DiagnosisFollows(script: seq<Action>, waits: bool, ecu: U16, l: Link, f: Frame, r: Ruling, reply: seq<byte>,
                         rest: seq<Action>)
    requires Due(ecu, f, TesterOf(l.state)) == [r] && r.Accepted?
    requires script == l.log + Exchange(ecu, r, reply) + rest && (rest != [] ==> !IsRelay(rest[0]))
    requires waits && rest == [] ==> reply == []
    ensures var (next, ok) := HandleFrame(Stage(script, waits), ecu, l, f);
            ok && next.log == l.log + Exchange(ecu, r, reply) && next.state == l.state
  {
    hide FrameBytes, Payload, Write;
    var env, m := Stage(script, waits), ParseDiagnostic(f.payload).value;
    var ack, request := Sent(Ack(ecu, m.source, 0x00)), Forwarded(r.request);
    assert l.log + [ack] <= script;
    WriteFollows(script, waits, l, ack.message);
    var acked := Write(env, l, ack.message).0;
    var asked := acked.(log := acked.log + [request]);
    assert asked.log == l.log + [ack, request];
    if reply != [] {
      assert script[|asked.log|] == Sent(Diagnostic(ecu, l.state.tester, reply));
      WriteFollows(script, waits, asked, Diagnostic(ecu, l.state.tester, reply));
    } else {
      assert rest != [] ==> script[|asked.log|] == rest[0];
    }
  }

  lemma OtherFollows(script: seq<Action>, waits: bool, ecu: U16, l: Link, f: Frame, r: Ruling)
    requires Due(ecu, f, TesterOf(l.state)) == [r] && !r.Accepted?
    requires l.log + [Sent(Speech(ecu, r, [])[0])] <= script
    ensures var (next, ok) := HandleFrame(Stage(script, waits), ecu, l, f);
            && ok && next.log == l.log + [Sent(Speech(ecu, r, [])[0])]
            && TesterOf(next.state) == TesterAfter(f, TesterOf(l.state))
  {
    hide FrameBytes, Payload, Write;
    WriteFollows(script, waits, l, Speech(ecu, r, [])[0]);
  }

  lemma NothingIsDue(env: Environment, ecu: U16, l: Link, f: Frame)
    requires Due(ecu, f, TesterOf(l.state)) == []
    ensures var (next, ok) := HandleFrame(env, ecu, l, f);
            next == l && (ok <==> !IsFatal(f, TesterOf(l.state)))
    ensures !IsFatal(f, TesterOf(l.state)) ==> TesterAfter(f, TesterOf(l.state)) == TesterOf(l.state)
  {
  }

  lemma OneDueAtMost(ecu: U16, f: Frame, tester: Option<U16>)
    ensures |Due(ecu, f, tester)| <= 1 && (Due(ecu, f, tester) != [] ==> !IsFatal(f, tester))
    ensures Due(ecu, f, tester) != [] && Due(ecu, f, tester)[0].Accepted? ==> TesterAfter(f, tester) == tester
  {
  }

  /** There are as many accepted requests as the script needs. */
  predicate IsLongEnough(rulings: seq<Ruling>, replies: seq<seq<byte>>, waits: bool) {
    |replies| + (if waits then 1 else 0) <= |AcceptedIn(rulings)|
  }

  predicate Exhausts(rulings: seq<Ruling>, replies: seq<seq<byte>>, waits: bool) {
    |replies| == |AcceptedIn(rulings)| && !waits
  }

  lemma ScriptBounds(ecu: U16, rulings: seq<Ruling>, replies: seq<seq<byte>>, waits: bool)
    ensures rulings == [] ==> Script(ecu, rulings, replies, waits) == []
    ensures rulings == [] && IsLongEnough(rulings, replies, waits) ==> replies == [] && !waits
    ensures waits && rulings != [] ==> Script(ecu, rulings, replies, waits) != []
    ensures IsLongEnough(rulings, replies, true) ==> rulings != []
  {
  }

  lemma RestIsLongEnough(rulings: seq<Ruling>, replies: seq<seq<byte>>, waits: bool)
    requires IsLongEnough(rulings, replies, waits) && rulings != []
    ensures !rulings[0].Accepted? ==> IsLongEnough(rulings[1..], replies, waits)
    ensures rulings[0].Accepted? && replies != [] ==> IsLongEnough(rulings[1..], replies[1..], waits)
    ensures Exhausts(rulings, replies, waits) ==>
              if !rulings[0].Accepted? then Exhausts(rulings[1..], replies, waits)
              else replies != [] && Exhausts(rulings[1..], replies[1..], waits)
  {
  }

  /** The task does what the script says, whatever else its input holds. */
  lemma {:induction false} FramesFollow(script: seq<Action>, waits: bool, ecu: U16, l: Link, fs: seq<Frame>,
                                        replies: seq<seq<byte>>)
    requires script == l.log + Script(ecu, Owed(ecu, fs, TesterOf(l.state)), replies, waits)
    requires IsLongEnough(Owed(ecu, fs, TesterOf(l.state)), replies, waits)
    ensures HandleFrames(Stage(script, waits), ecu, l, fs).0.log == script
    ensures Exhausts(Owed(ecu, fs, TesterOf(l.state)), replies, waits) && NoneIsFatal(fs, TesterOf(l.state))
            ==> HandleFrames(Stage(script, waits), ecu, l, fs).1
    decreases |fs|
  {
    hide HandleFrame, Due, IsFatal, TesterAfter, Stage, Script, Exchange, IsLongEnough, Exhausts;
    var env, tester := Stage(script, waits), TesterOf(l.state);
    var owed := Owed(ecu, fs, tester);
    ScriptBounds(ecu, owed, replies, waits);
    if fs != [] {
      var f, others := fs[0], Owed(ecu, fs[1..], TesterAfter(fs[0], tester));
      var (next, ok) := HandleFrame(env, ecu, l, f);
      OneDueAtMost(ecu, f, tester);
      if Due(ecu, f, tester) == [] {
        NothingIsDue(env, ecu, l, f);
        if ok {
          assert owed == others;
          FramesFollow(script, waits, ecu, l, fs[1..], replies);
        }
      } else {
        var r := Due(ecu, f, tester)[0];
        assert owed == [r] + others && owed[1..] == others && Due(ecu, f, tester) == [r];
        ScriptStep(ecu, owed, replies, waits);
        RestIsLongEnough(owed, replies, waits);
        if !r.Accepted? {
          OtherFollows(script, waits, ecu, l, f, r);
          FramesFollow(script, waits, ecu, next, fs[1..], replies);
        } else if replies != [] {
          var rest := Script(ecu, others, replies[1..], waits);
          ScriptOpens(ecu, others, replies[1..], waits);
          ScriptBounds(ecu, others, replies[1..], waits);
          LongEnoughToWait(others, replies[1..], waits);
          DiagnosisFollows(script, waits, ecu, l, f, r, replies[0], rest);
          FramesFollow(script, waits, ecu, next, fs[1..], replies[1..]);
        } else if waits {
          DiagnosisFollows(script, waits, ecu, l, f, r, [], []);
          StageEnds(script, waits);
          NothingFollows(env, ecu, next, fs[1..]);
        } else {
          StageEnds(script, waits);
          NothingFollows(env, ecu, l, fs);
        }
      }
    }
  }

  lemma LongEnoughToWait(rulings: seq<Ruling>, replies: seq<seq<byte>>, waits: bool)
    requires IsLongEnough(rulings, replies, waits)
    ensures waits ==> rulings != []
    ensures Exhausts(rulings, replies, waits) ==> !waits
  {
  }

  lemma StageEnds(script: seq<Action>, waits: bool)
    ensures Stage(script, waits).accepts(|script|) == 0
  {
  }

  // ---------------------------------------------------------------------------------------------
  // The script is that of the connection

  /** What a part of the script adds to the requests asked and the replies got. */
  ghost predicate Adds(env: Environment, log: seq<Action>, part: seq<Action>, asked: seq<UdsRequest>,
                       replies: seq<seq<byte>>) {
    Asked(log + part) == Asked(log) + asked && Got(env, log + part) == Got(env, log) + replies
  }

  lemma ExchangeAdds(script: seq<Action>, waits: bool, ecu: U16, log: seq<Action>, r: Ruling, reply: seq<byte>,
                     rest: seq<Action>, gets: bool)
    requires r.Accepted? && r.tester.Some?
    requires script == log + Exchange(ecu, r, reply) + rest && (rest != [] ==> !IsRelay(rest[0]))
    requires if gets then waits ==> rest != [] else waits && rest == [] && reply == []
    ensures Adds(Stage(script, waits), log, Exchange(ecu, r, reply), [r.request], if gets then [reply] else [])
  {
    hide Asked, Got, FrameBytes;
    var env, ack := Stage(script, waits), Ack(ecu, r.request.source, 0x00);
    var acked := log + [Sent(ack)];
    var asked := acked + [Forwarded(r.request)];
    SentAction(env, log, ack);
    ForwardedAction(env, acked, r.request);
    if reply != [] {
      var response := Diagnostic(ecu, r.tester.value, reply);
      assert script[|asked|] == Sent(response);
      SentAction(env, asked, response);
      assert log + Exchange(ecu, r, reply) == asked + [Sent(response)];
    } else {
      assert rest != [] ==> script[|asked|] == rest[0];
      assert log + Exchange(ecu, r, reply) == asked;
    }
  }

  predicate HaveTesters(rulings: seq<Ruling>) {
    forall i :: 0 <= i < |rulings| && rulings[i].Accepted? ==> rulings[i].tester.Some?
  }

  lemma {:induction false} OwedHaveTesters(ecu: U16, fs: seq<Frame>, tester: Option<U16>)
    ensures HaveTesters(Owed(ecu, fs, tester))
    decreases |fs|
  {
    if fs != [] {
      OwedHaveTesters(ecu, fs[1..], TesterAfter(fs[0], tester));
    }
  }

  /** Of the requests accepted, those with a reply, and one more that waits, were asked, and the replies got. */
  ghost predicate Accounts(asked: seq<UdsRequest>, got: seq<seq<byte>>, askedAfter: seq<UdsRequest>,
                           gotAfter: seq<seq<byte>>, accepted: seq<UdsRequest>, replies: seq<seq<byte>>, waits: bool) {
    var n := |replies| + if waits then 1 else 0;
    n <= |accepted| && askedAfter == asked + accepted[..n] && gotAfter == got + replies
  }

  lemma {:induction false} ScriptAdds(script: seq<Action>, waits: bool, ecu: U16, log: seq<Action>,
                                      rulings: seq<Ruling>, replies: seq<seq<byte>>)
    requires script == log + Script(ecu, rulings, replies, waits)
    requires IsLongEnough(rulings, replies, waits) && HaveTesters(rulings)
    ensures var env := Stage(script, waits);
            Accounts(Asked(log), Got(env, log), Asked(script), Got(env, script), AcceptedIn(rulings), replies, waits)
    decreases |rulings|
  {
    hide Asked, Got, AcceptedIn, Stage, Script, Exchange, IsLongEnough, Accounts;
    var env := Stage(script, waits);
    ScriptBounds(ecu, rulings, replies, waits);
    if rulings == [] {
      assert script == log;
      NothingAccounts(Asked(log), Got(env, log), AcceptedIn(rulings));
    } else {
      var r, others := rulings[0], rulings[1..];
      ScriptStep(ecu, rulings, replies, waits);
      RestIsLongEnough(rulings, replies, waits);
      AcceptedStep(rulings);
      if !r.Accepted? {
        var said := Speech(ecu, r, [])[0];
        assert script == log + [Sent(said)] + Script(ecu, others, replies, waits);
        SentAction(env, log, said);
        ScriptAdds(script, waits, ecu, log + [Sent(said)], others, replies);
        assert AcceptedIn(rulings) == AcceptedIn(others);
      } else if replies != [] {
        var rest := Script(ecu, others, replies[1..], waits);
        var part := Exchange(ecu, r, replies[0]);
        ScriptOpens(ecu, others, replies[1..], waits);
        ScriptBounds(ecu, others, replies[1..], waits);
        LongEnoughToWait(others, replies[1..], waits);
        assert script == log + part + rest;
        ExchangeAdds(script, waits, ecu, log, r, replies[0], rest, true);
        ScriptAdds(script, waits, ecu, log + part, others, replies[1..]);
        RepliedAccounts(Asked(log), Got(env, log), Asked(script), Got(env, script), r.request, AcceptedIn(others),
                        replies, waits);
      } else if waits {
        assert script == log + Exchange(ecu, r, []) + [] && script == log + Exchange(ecu, r, []);
        ExchangeAdds(script, waits, ecu, log, r, [], [], false);
        WaitingAccounts(Asked(log), Got(env, log), r.request, AcceptedIn(others));
        assert Got(env, log) + [] == Got(env, log);
      } else {
        assert script == log;
        NothingAccounts(Asked(log), Got(env, log), AcceptedIn(rulings));
      }
    }
  }

  lemma NothingAccounts(asked: seq<UdsRequest>, got: seq<seq<byte>>, accepted: seq<UdsRequest>)
    ensures Accounts(asked, got, asked, got, accepted, [], false)
  {
  }

  lemma RepliedAccounts(asked: seq<UdsRequest>, got: seq<seq<byte>>, askedAfter: seq<UdsRequest>,
                        gotAfter: seq<seq<byte>>, first: UdsRequest, others: seq<UdsRequest>,
                        replies: seq<seq<byte>>, waits: bool)
    requires replies != []
    requires Accounts(asked + [first], got + [replies[0]], askedAfter, gotAfter, others, replies[1..], waits)
    ensures Accounts(asked, got, askedAfter, gotAfter, [first] + others, replies, waits)
  {
    var n := |replies| - 1 + if waits then 1 else 0;
    assert ([first] + others)[..1 + n] == [first] + others[..n];
    assert asked + [first] + others[..n] == asked + ([first] + others[..n]);
    assert [replies[0]] + replies[1..] == replies;
    assert got + [replies[0]] + replies[1..] == got + ([replies[0]] + replies[1..]);
  }

  lemma WaitingAccounts(asked: seq<UdsRequest>, got: seq<seq<byte>>, first: UdsRequest, others: seq<UdsRequest>)
    ensures Accounts(asked, got, asked + [first], got, [first] + others, [], true)
  {
    assert ([first] + others)[..1] == [first];
  }

  lemma StageIsAwaited(script: seq<Action>, waits: bool)
    ensures Awaits(Stage(script, waits), script)
  {
  }

  predicate RelaysAreShort(script: seq<Action>) {
    forall n :: 0 <= n < |script| && IsRelay(script[n]) ==> 4 + |script[n].message.userData| < 0x1_0000_0000
  }

  lemma ShortInTurn(a: seq<Action>, b: seq<Action>)
    ensures a == [] && b == [] ==> RelaysAreShort([])
    ensures RelaysAreShort(a) && RelaysAreShort(b) ==> RelaysAreShort(a + b)
  {
  }

  lemma PartIsShort(ecu: U16, r: Ruling, reply: seq<byte>)
    requires 4 + |reply| < 0x1_0000_0000
    ensures if r.Accepted? then RelaysAreShort(Exchange(ecu, r, reply))
            else RelaysAreShort([Sent(Speech(ecu, r, [])[0])])
  {
  }

  lemma StageRepliesFit(ecu: U16, rulings: seq<Ruling>, replies: seq<seq<byte>>, waits: bool)
    requires forall i :: 0 <= i < |replies| ==> 4 + |replies[i]| < 0x1_0000_0000
    ensures RepliesFit(Stage(Script(ecu, rulings, replies, waits), waits))
  {
    RelaysFit(ecu, rulings, replies, waits);
  }

  lemma {:induction false} RelaysFit(ecu: U16, rulings: seq<Ruling>, replies: seq<seq<byte>>, waits: bool)
    requires forall i :: 0 <= i < |replies| ==> 4 + |replies[i]| < 0x1_0000_0000
    ensures RelaysAreShort(Script(ecu, rulings, replies, waits))
    decreases |rulings|
  {
    hide RelaysAreShort;
    ScriptBounds(ecu, rulings, replies, waits);
    ShortInTurn([], []);
    if rulings != [] {
      PartIsShort(ecu, rulings[0], if replies == [] then [] else replies[0]);
      ScriptStep(ecu, rulings, replies, waits);
      hide Script;
      if !rulings[0].Accepted? {
        RelaysFit(ecu, rulings[1..], replies, waits);
        ShortInTurn([Sent(Speech(ecu, rulings[0], [])[0])], Script(ecu, rulings[1..], replies, waits));
      } else if replies != [] {
        RelaysFit(ecu, rulings[1..], replies[1..], waits);
        ShortInTurn(Exchange(ecu, rulings[0], replies[0]), Script(ecu, rulings[1..], replies[1..], waits));
      } else {
        assert Exchange(ecu, rulings[0], []) + [] == Exchange(ecu, rulings[0], []);
        ShortInTurn(Exchange(ecu, rulings[0], []), []);
      }
    }
  }

  /**
   For every connection of every run of the system, and any input that gives rise to the requests it has forwarded so
   far, some environment makes the connection task do just what this connection did. A connection at rest
   whose input asks for nothing more, and holds nothing that cannot be parsed, gets there without errors.
   */
  lemma EveryConnectionIsARun<S>(handle: RequestLoop.Handle<S>, server: S, steps: seq<RequestLoop.Step>, c: nat,
                                 ecu: U16, received: seq<seq<byte>>) returns (env: Environment)
    requires RequestLoop.Run(handle, server, steps).Some?
    requires c in RequestLoop.Run(handle, server, steps).value.conns
    requires RequestLoop.Run(handle, server, steps).value.conns[c].forwarded
             <= AcceptedIn(Owed(ecu, FramesSeen(received), None))
    ensures var k := RequestLoop.Run(handle, server, steps).value.conns[c];
            var (l, ok) := Serve(env, ecu, NEW_LINK, received);
            && IsOneConnection(env, l.log, k)
            && ((forall i :: 0 <= i < |k.delivered| ==> 4 + |k.delivered[i]| < 0x1_0000_0000) ==> RepliesFit(env))
            && ((k.phase.Idle? || k.phase.Closed?) && NoneIsFatal(FramesSeen(received), None) ==>
                  (k.forwarded == AcceptedIn(Owed(ecu, FramesSeen(received), None)) ==> ok))
  {
    hide Serve, HandleFrames, FramesSeen, Owed, AcceptedIn, NoneIsFatal, RepliesFit, RequestLoop.Run;
    hide Asked, Got, Awaits, Stage, Script;
    var k := RequestLoop.Run(handle, server, steps).value.conns[c];
    var rulings, waits := Owed(ecu, FramesSeen(received), None), k.phase.Sending? || k.phase.Waiting?;
    var script := Script(ecu, rulings, k.delivered, waits);
    env := Stage(script, waits);
    RequestLoop.ServedInOrder(handle, server, steps, c);
    NothingYet(env);
    OwedHaveTesters(ecu, FramesSeen(received), None);
    assert script == NEW_LINK.log + script;
    FramesFollow(script, waits, ecu, NEW_LINK, FramesSeen(received), k.delivered);
    ServeFoldsFrames(env, ecu, NEW_LINK, received);
    ScriptAdds(script, waits, ecu, [], rulings, k.delivered);
    StageIsAwaited(script, waits);
    if forall i :: 0 <= i < |k.delivered| ==> 4 + |k.delivered[i]| < 0x1_0000_0000 {
      StageRepliesFit(ecu, rulings, k.delivered, waits);
    }
  }
}
