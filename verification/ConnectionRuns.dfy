/**
 What every run of a connection satisfies: how read boundaries matter, that its output de-frames to the
 messages it sent, and the order of acknowledgements, forwarded requests and responses.
 */
module ConnectionRuns {
  import opened Wrappers
  import opened Octets
  import opened Header
  import opened Framing
  import opened Messages
  import opened Connection

  // ---------------------------------------------------------------------------------------------
  // Read boundaries

  function Concat(received: seq<seq<byte>>): seq<byte> {
    if received == [] then [] else received[0] + Concat(received[1..])
  }

  /** The frames the connection gets to see: those of each read by itself. */
  function FramesSeen(received: seq<seq<byte>>): seq<Frame> {
    if received == [] then [] else Frames(received[0]) + FramesSeen(received[1..])
  }

  lemma {:induction false} HandleFramesAppend(env: Environment, ecu: U16, l: Link, a: seq<Frame>, b: seq<Frame>)
    ensures var (mid, ok) := HandleFrames(env, ecu, l, a);
            HandleFrames(env, ecu, l, a + b) == if ok then HandleFrames(env, ecu, mid, b) else (mid, false)
    decreases |a|
  {
    if a == [] {
      assert a + b == b;
    } else {
      assert (a + b)[0] == a[0] && (a + b)[1..] == a[1..] + b;
      HandleFramesAppend(env, ecu, HandleFrame(env, ecu, l, a[0]).0, a[1..], b);
    }
  }

  /** A run over any reads is the fold of the frame handler over the frames seen, up to the first error. */
  lemma {:induction false} ServeFoldsFrames(env: Environment, ecu: U16, l: Link, received: seq<seq<byte>>)
    ensures Serve(env, ecu, l, received) == HandleFrames(env, ecu, l, FramesSeen(received))
    decreases |received|
  {
    if received != [] {
      HandleFramesAppend(env, ecu, l, Frames(received[0]), FramesSeen(received[1..]));
      var (next, ok) := HandleFrames(env, ecu, l, Frames(received[0]));
      if ok {
        ServeFoldsFrames(env, ecu, next, received[1..]);
      }
    }
  }

  /** Every read but the last ends where a frame ends. */
  predicate Aligned(received: seq<seq<byte>>) {
    forall k :: 0 <= k < |received| - 1 ==> Residue(received[k]) == []
  }

  lemma {:induction false} AlignedReadsLoseNothing(received: seq<seq<byte>>)
    requires Aligned(received)
    ensures FramesSeen(received) == Frames(Concat(received))
  {
    if |received| == 1 {
      assert Concat(received) == received[0];
      assert FramesSeen(received) == Frames(received[0]);
    } else if |received| > 1 {
      var rest := received[1..];
      assert forall k :: 0 <= k < |rest| ==> rest[k] == received[k + 1];
      AlignedReadsLoseNothing(rest);
      FramesOfSplit(received[0], Concat(rest));
      assert [] + Concat(rest) == Concat(rest);
    }
  }

  /** Cutting a stream at frame ends, however often, is the same as reading it at once. */
  lemma ReadBoundariesDoNotMatter(env: Environment, ecu: U16, l: Link, received: seq<seq<byte>>)
    requires Aligned(received)
    ensures Serve(env, ecu, l, received) == HandleFrames(env, ecu, l, Frames(Concat(received)))
  {
    ServeFoldsFrames(env, ecu, l, received);
    AlignedReadsLoseNothing(received);
  }

  /** A read of a and one of b do to the connection what a single read of both would do. */
  ghost predicate SplitIsHarmless(env: Environment, ecu: U16, l: Link, a: seq<byte>, b: seq<byte>) {
    Serve(env, ecu, l, [a, b]) == Serve(env, ecu, l, [a + b])
  }

  /**
   What follows a read may come in a read of its own exactly when the read ends where a frame ends, or
   ends the connection: the bytes after its last whole frame are dropped, not kept. Otherwise at most
   eight more bytes, the next header at the longest, suffice to make state, actions or output differ, or
   whether the connection ends in an error.
   */
  lemma SplitIsSafeIffAligned(env: Environment, ecu: U16, l: Link, a: seq<byte>)
    ensures (forall b :: |b| <= HEADER_SIZE ==> SplitIsHarmless(env, ecu, l, a, b))
            <==> Residue(a) == [] || !HandleFrames(env, ecu, l, Frames(a)).1
    ensures Residue(a) == [] || !HandleFrames(env, ecu, l, Frames(a)).1
            ==> forall b :: SplitIsHarmless(env, ecu, l, a, b)
  {
    hide Serve, HandleFrames, Frames, Residue, IsResidue;
    var (mid, ok) := HandleFrames(env, ecu, l, Frames(a));
    forall b
      ensures SplitIsHarmless(env, ecu, l, a, b)
              <==> !ok || HandleFrames(env, ecu, mid, Frames(b)) == HandleFrames(env, ecu, mid, Frames(Residue(a) + b))
    {
      SplitServes(env, ecu, l, a, b);
    }
    if Residue(a) == [] {
      forall b ensures SplitIsHarmless(env, ecu, l, a, b) {
        assert [] + b == b;
      }
    } else if ok {
      FramesAndResidue(a);
      var b := ResidueMatters(env, ecu, mid, Residue(a));
      assert !SplitIsHarmless(env, ecu, l, a, b);
    }
  }

  /** Both ways to read continue after the frames of a: with those of b, or those of the residue and b. */
  lemma SplitServes(env: Environment, ecu: U16, l: Link, a: seq<byte>, b: seq<byte>)
    ensures var (mid, ok) := HandleFrames(env, ecu, l, Frames(a));
            && Serve(env, ecu, l, [a, b]) == (if ok then HandleFrames(env, ecu, mid, Frames(b)) else (mid, false))
            && Serve(env, ecu, l, [a + b])
               == if ok then HandleFrames(env, ecu, mid, Frames(Residue(a) + b)) else (mid, false)
  {
    hide Frames, Residue;
    assert [a, b][1..] == [b];
    OneRead(b);
    OneRead(a + b);
    ServeFoldsFrames(env, ecu, l, [a, b]);
    ServeFoldsFrames(env, ecu, l, [a + b]);
    FramesOfSplit(a, b);
    HandleFramesAppend(env, ecu, l, Frames(a), Frames(b));
    HandleFramesAppend(env, ecu, l, Frames(a), Frames(Residue(a) + b));
  }

  lemma OneRead(data: seq<byte>)
    ensures FramesSeen([data]) == Frames(data)
  {
    var none: seq<seq<byte>> := [];
    assert [data][1..] == none;
  }

  /** A frame of this type does nothing on the connection, whatever its payload. */
  predicate Inert(l: Link, payloadType: U16) {
    match FromU16(payloadType)
    case Some(RoutingActivationRequest) => false
    case Some(DiagnosticMessage) => l.state.AwaitingActivation?
    case Some(AliveCheckRequest) => false
    case _ => true
  }

  lemma FrameIsIgnoredIffInert(env: Environment, ecu: U16, l: Link, f: Frame)
    ensures HandleFrame(env, ecu, l, f) == (l, true) <==> Inert(l, f.header.payloadType)
  {
    hide FrameBytes;
  }

  lemma OneFrame(env: Environment, ecu: U16, l: Link, f: Frame)
    ensures HandleFrames(env, ecu, l, [f]) == HandleFrame(env, ecu, l, f)
  {
    hide HandleFrame;
  }

  /** An alive check request; with a cut header in front of it, the declared length is more than is there. */
  const ALIVE_CHECK := Frame(DoipHeader(0xFF, 0xFF, U16(0x00, 0x07), U32(0, 0, 0, 0)), [])

  /** Filler of up to eight bytes, which by itself is no frame. */
  const FILLER: seq<byte> := [0xFF, 0xFF, 0xFF, 0xFF, 0xFF, 0xFF, 0xFF, 0xFF]

  /** After dropping a residue, the same bytes lead elsewhere than they would have with it. */
  lemma ResidueMatters(env: Environment, ecu: U16, l: Link, r: seq<byte>) returns (b: seq<byte>)
    requires IsResidue(r) && r != []
    ensures |b| <= HEADER_SIZE
    ensures HandleFrames(env, ecu, l, Frames(b)) != HandleFrames(env, ecu, l, Frames(r + b))
  {
    hide HandleFrames, HandleFrame, Frames, FirstFrame;
    assert HandleFrames(env, ecu, l, []) == (l, true) by { HandleNone(env, ecu, l); }
    if |r| >= HEADER_SIZE && !Inert(l, ParseHeader(r).value.payloadType) && Missing(r) <= HEADER_SIZE {
      b := FILLER[..Missing(r)];
      FillerIsNoFrame(Missing(r));
      var f := Completed(r, b);
      OneFrame(env, ecu, l, f);
      FrameIsIgnoredIffInert(env, ecu, l, f);
    } else {
      b := FrameBytes(ALIVE_CHECK);
      AliveCheckIsFound();
      AliveCheckIsAnswered(env, ecu, l);
      if |r| < HEADER_SIZE {
        AliveCheckCompletesNoHeader(r);
      } else if Missing(r) > HEADER_SIZE {
        ShortIsNoFrame(r, b);
      } else {
        var f := Completed(r, b);
        OneFrame(env, ecu, l, f);
        FrameIsIgnoredIffInert(env, ecu, l, f);
      }
    }
  }

  lemma HandleNone(env: Environment, ecu: U16, l: Link)
    ensures HandleFrames(env, ecu, l, []) == (l, true)
  {
  }

  /** How many bytes a residue with a whole header is short of a frame. */
  function Missing(r: seq<byte>): int
    requires |r| >= HEADER_SIZE
  {
    HEADER_SIZE + ParseHeader(r).value.payloadLength.Value() - |r|
  }

  /** A residue that gets the bytes it misses, and less than a header more, is one frame. */
  lemma Completed(r: seq<byte>, b: seq<byte>) returns (f: Frame)
    requires |r| >= HEADER_SIZE && IsResidue(r) && Missing(r) <= |b| <= HEADER_SIZE
    ensures f.header == ParseHeader(r).value && Frames(r + b) == [f]
  {
    assert ParseHeader(r + b) == ParseHeader(r);
    f := FirstFrame(r + b);
    assert |FrameBytes(f)| == HEADER_SIZE + f.header.payloadLength.Value();
    assert IsResidue((r + b)[|FrameBytes(f)|..]);
  }

  lemma ShortIsNoFrame(r: seq<byte>, b: seq<byte>)
    requires |r| >= HEADER_SIZE && |b| < Missing(r)
    ensures Frames(r + b) == []
  {
    assert ParseHeader(r + b) == ParseHeader(r);
  }

  lemma FillerIsNoFrame(n: nat)
    requires n <= HEADER_SIZE
    ensures Frames(FILLER[..n]) == []
  {
  }

  lemma AliveCheckIsFound()
    ensures Frames(FrameBytes(ALIVE_CHECK)) == [ALIVE_CHECK]
  {
    hide Frames, Residue;
    FrameIsFoundIffWhole(ALIVE_CHECK);
  }

  lemma AliveCheckIsAnswered(env: Environment, ecu: U16, l: Link)
    ensures HandleFrames(env, ecu, l, [ALIVE_CHECK]) != (l, true)
  {
    hide HandleFrames, HandleFrame;
    OneFrame(env, ecu, l, ALIVE_CHECK);
    FrameIsIgnoredIffInert(env, ecu, l, ALIVE_CHECK);
  }

  lemma AliveCheckCompletesNoHeader(r: seq<byte>)
    requires 0 < |r| < HEADER_SIZE
    ensures Frames(r + FrameBytes(ALIVE_CHECK)) == []
  {
    hide Frames;
    var bytes := FrameBytes(ALIVE_CHECK);
    var data := r + bytes;
    var k := |r|;
    assert forall i :: 0 <= i < 8 ==> data[k + i] == bytes[i];
    LengthIsLarge(data[4], data[5], data[6], data[7]) by {
      if k <= 4 {
        assert k == 1 ==> data[4] == 0x07;
        assert k == 2 ==> data[5] == 0x07;
        assert k == 3 ==> data[4] == 0xFF;
      } else {
        assert k == 5 ==> data[5] == 0xFF;
        assert k == 6 ==> data[6] == 0xFF;
        assert k == 7 ==> data[7] == 0xFF;
      }
    }
    FramesUnfold(data);
  }

  lemma LengthIsLarge(b0: byte, b1: byte, b2: byte, b3: byte)
    requires b0 >= 0x07 || b1 >= 0x07 || b2 >= 0x07 || b3 == 0xFF
    ensures U32(b0, b1, b2, b3).Value() > HEADER_SIZE
  {
  }

  // ---------------------------------------------------------------------------------------------
  // The output stream

  function SentMessages(log: seq<Action>): seq<Message> {
    if log == [] then []
    else SentMessages(log[..|log| - 1]) + if log[|log| - 1].Sent? then [log[|log| - 1].message] else []
  }

  function FramesOf(ms: seq<Message>): seq<Frame> {
    seq(|ms|, i requires 0 <= i < |ms| => FrameOf(ms[i]))
  }

  /** No reply of the UDS side is too long for the length field. */
  ghost predicate RepliesFit(env: Environment) {
    forall n: nat :: env.reply(n).Some? ==> 4 + |env.reply(n).value| < 0x1_0000_0000
  }

  /** The output de-frames to the messages sent, and, unless a write failed, to nothing else. */
  ghost predicate OutputParses(l: Link, ok: bool) {
    Frames(l.output) == FramesOf(SentMessages(l.log)) && (ok ==> Residue(l.output) == [])
  }

  lemma WriteKeepsOutput(env: Environment, l: Link, m: Message)
    requires OutputParses(l, true) && Fits(m)
    ensures var (next, ok) := Write(env, l, m); OutputParses(next, ok)
  {
    hide Frames, Residue, FrameBytes, FrameOf, Fits;
    FrameIsWholeIffFits(m);
    var bytes, taken := FrameBytes(FrameOf(m)), env.accepts(|l.log|);
    AppendFrame(l.output, FrameOf(m), if taken >= |bytes| then |bytes| else taken);
    assert bytes[..|bytes|] == bytes;
    SentAppend(l.log, m);
  }

  lemma SentAppend(log: seq<Action>, m: Message)
    ensures FramesOf(SentMessages(log + [Sent(m)])) == FramesOf(SentMessages(log)) + [FrameOf(m)]
  {
    assert (log + [Sent(m)])[..|log|] == log;
  }

  lemma HandleFrameKeepsOutput(env: Environment, ecu: U16, l: Link, f: Frame)
    requires OutputParses(l, true) && RepliesFit(env)
    ensures var (next, ok) := HandleFrame(env, ecu, l, f); OutputParses(next, ok)
  {
    hide Frames, Residue, Write;
    match FromU16(f.header.payloadType) {
      case Some(RoutingActivationRequest) =>
        if ParseActivation(f.payload).Some? {
          var source := ParseActivation(f.payload).value.source;
          WriteKeepsOutput(env, l, ActivationResponse(source, ecu, ROUTING_SUCCESS, ZERO));
        }
      case Some(DiagnosticMessage) =>
        if l.state.Active? && ParseDiagnostic(f.payload).Some? {
          DiagnoseKeepsOutput(env, ecu, l, f.payload);
        }
      case Some(AliveCheckRequest) => WriteKeepsOutput(env, l, AliveResponse(ecu));
      case _ =>
    }
  }

  lemma DiagnoseKeepsOutput(env: Environment, ecu: U16, l: Link, payload: seq<byte>)
    requires OutputParses(l, true) && RepliesFit(env)
    requires l.state.Active? && ParseDiagnostic(payload).Some?
    ensures var (next, ok) := Diagnose(env, ecu, l, payload); OutputParses(next, ok)
  {
    hide Frames, Residue, FrameBytes;
    var m := ParseDiagnostic(payload).value;
    if m.target != ecu && m.target != FUNCTIONAL_ADDRESS {
      WriteKeepsOutput(env, l, Nack(ecu, m.source, UNKNOWN_TARGET_ADDRESS));
    } else {
      WriteKeepsOutput(env, l, Ack(ecu, m.source, 0x00));
      var (acked, ok) := Write(env, l, Ack(ecu, m.source, 0x00));
      if ok && env.isOpen(|acked.log|) {
        var asked := acked.(log := acked.log + [Forwarded(UdsRequest(m.source, m.target, m.userData))]);
        assert asked.log[..|acked.log|] == acked.log;
        assert SentMessages(asked.log) == SentMessages(acked.log);
        var reply := env.reply(|asked.log|).GetOr([]);
        if reply != [] {
          WriteKeepsOutput(env, asked, Diagnostic(ecu, l.state.tester, reply));
        }
      }
    }
  }

  lemma {:induction false} FramesKeepOutput(env: Environment, ecu: U16, l: Link, fs: seq<Frame>)
    requires OutputParses(l, true) && RepliesFit(env)
    ensures var (next, ok) := HandleFrames(env, ecu, l, fs); OutputParses(next, ok)
    decreases |fs|
  {
    if fs != [] {
      HandleFrameKeepsOutput(env, ecu, l, fs[0]);
      var (next, ok) := HandleFrame(env, ecu, l, fs[0]);
      if ok {
        FramesKeepOutput(env, ecu, next, fs[1..]);
      }
    }
  }

  /**
   Whatever a connection reads, its whole output de-frames to exactly the messages it sent, in order, each
   of which decodes to itself; bytes are left over only when a write failed half way.
   */
  lemma OutputRoundTrips(env: Environment, ecu: U16, received: seq<seq<byte>>)
    requires RepliesFit(env)
    ensures var (l, ok) := Serve(env, ecu, NEW_LINK, received);
            var sent := SentMessages(l.log);
            && |Frames(l.output)| == |sent|
            && (forall i :: 0 <= i < |sent| ==> Decode(Frames(l.output)[i]) == Some(sent[i]))
            && (ok ==> Residue(l.output) == [])
  {
    ServeFoldsFrames(env, ecu, NEW_LINK, received);
    FramesKeepOutput(env, ecu, NEW_LINK, FramesSeen(received));
    var sent := SentMessages(Serve(env, ecu, NEW_LINK, received).0.log);
    forall i | 0 <= i < |sent| ensures Decode(FramesOf(sent)[i]) == Some(sent[i]) {
      DecodeInvertsFrameOf(sent[i]);
    }
  }

  // ---------------------------------------------------------------------------------------------
  // The order of actions

  /** The tester named in the last routing activation response. */
  function LastActivated(log: seq<Action>): Option<U16> {
    if log == [] then None
    else
      var last := log[|log| - 1];
      if last.Sent? && last.message.ActivationResponse? then Some(last.message.tester)
      else LastActivated(log[..|log| - 1])
  }

  predicate IsAck(a: Action, ecu: U16, tester: U16) {
    a == Sent(Ack(ecu, tester, 0x00))
  }

  /** The place of the k-th action among the others is one the protocol allows. */
  predicate InOrder(env: Environment, ecu: U16, log: seq<Action>, k: nat)
    requires k < |log|
  {
    match log[k]
    case Forwarded(r) =>
      // after an activation, and right after its own acknowledgement
      && k > 0
      && IsAck(log[k - 1], ecu, r.source)
      && r.target in {ecu, FUNCTIONAL_ADDRESS}
      && LastActivated(log[..k]).Some?
      // a reply to it that is not empty is relayed before anything else is done
      && (k + 1 < |log| && env.reply(k + 1).GetOr([]) != [] ==> IsRelay(log[k + 1]))
    case Sent(Diagnostic(source, target, data)) =>
      // a response follows its own request, is the reply to it, and goes to the tester activated last
      && k > 0
      && log[k - 1].Forwarded?
      && source == ecu && data != []
      && env.reply(k) == Some(data)
      && LastActivated(log[..k]) == Some(target)
    case Sent(Ack(source, target, code)) =>
      // an acknowledgement is followed by its request, unless it is the last action
      && source == ecu && code == 0x00
      && (k + 1 < |log| ==> log[k + 1].Forwarded? && log[k + 1].request.source == target)
    case Sent(Nack(source, _, code)) => source == ecu && code == UNKNOWN_TARGET_ADDRESS
    case Sent(ActivationResponse(_, entity, code, reserved)) =>
      entity == ecu && code == ROUTING_SUCCESS && reserved == ZERO
    case Sent(AliveResponse(source)) => source == ecu
  }

  predicate IsRelay(a: Action) {
    a.Sent? && a.message.Diagnostic?
  }

  /** The last action leaves nothing to be done: an acknowledged request to forward, or a reply to relay. */
  predicate IsSettled(env: Environment, log: seq<Action>) {
    log != [] ==>
      match log[|log| - 1]
      case Sent(m) => !m.Ack?
      case Forwarded(_) => env.reply(|log|).GetOr([]) == []
  }

  function TesterOf(state: LinkState): Option<U16> {
    if state.Active? then Some(state.tester) else None
  }

  ghost predicate Disciplined(env: Environment, ecu: U16, l: Link, ok: bool) {
    && (forall k :: 0 <= k < |l.log| ==> InOrder(env, ecu, l.log, k))
    && TesterOf(l.state) == LastActivated(l.log)
    && (ok ==> IsSettled(env, l.log))
  }

  /** One more action keeps the earlier ones in order if it suits the one before it. */
  lemma AppendKeepsOrder(env: Environment, ecu: U16, log: seq<Action>, a: Action)
    requires forall k :: 0 <= k < |log| ==> InOrder(env, ecu, log, k)
    requires !IsSettled(env, log)
             ==> match log[|log| - 1]
                 case Sent(m) => a.Forwarded? && a.request.source == m.target
                 case Forwarded(_) => IsRelay(a)
    requires InOrder(env, ecu, log + [a], |log|)
    ensures forall k :: 0 <= k < |log + [a]| ==> InOrder(env, ecu, log + [a], k)
    ensures LastActivated(log + [a])
            == if a.Sent? && a.message.ActivationResponse? then Some(a.message.tester) else LastActivated(log)
  {
    assert (log + [a])[..|log|] == log;
    forall k | 0 <= k < |log| ensures InOrder(env, ecu, log + [a], k) {
      assert InOrder(env, ecu, log, k);
      assert (log + [a])[..k] == log[..k];
    }
  }

  /** The actions a well-formed diagnostic message leads to on an active connection. */
  predicate DiagnosisLogged(env: Environment, ecu: U16, l: Link, m: Message, next: Link, ok: bool)
    requires l.state.Active? && m.Diagnostic?
  {
    var acked := l.log + [Sent(Ack(ecu, m.source, 0x00))];
    var asked := acked + [Forwarded(UdsRequest(m.source, m.target, m.userData))];
    var reply := env.reply(|asked|).GetOr([]);
    && next.state == l.state
    && if m.target != ecu && m.target != FUNCTIONAL_ADDRESS then
         next.log == if ok then l.log + [Sent(Nack(ecu, m.source, UNKNOWN_TARGET_ADDRESS))] else l.log
       else if ok then
         next.log == if reply == [] then asked else asked + [Sent(Diagnostic(ecu, l.state.tester, reply))]
       else
         next.log == l.log || next.log == acked || (reply != [] && next.log == asked)
  }

  lemma DiagnoseLogs(env: Environment, ecu: U16, l: Link, payload: seq<byte>)
    requires l.state.Active? && ParseDiagnostic(payload).Some?
    ensures var (next, ok) := Diagnose(env, ecu, l, payload);
            DiagnosisLogged(env, ecu, l, ParseDiagnostic(payload).value, next, ok)
  {
  }

  lemma DiagnosisIsDisciplined(env: Environment, ecu: U16, l: Link, m: Message, next: Link, ok: bool)
    requires Disciplined(env, ecu, l, true) && l.state.Active? && m.Diagnostic?
    requires DiagnosisLogged(env, ecu, l, m, next, ok)
    ensures Disciplined(env, ecu, next, ok)
  {
    if m.target != ecu && m.target != FUNCTIONAL_ADDRESS {
      AppendKeepsOrder(env, ecu, l.log, Sent(Nack(ecu, m.source, UNKNOWN_TARGET_ADDRESS)));
    } else {
      var ack, request := Sent(Ack(ecu, m.source, 0x00)), Forwarded(UdsRequest(m.source, m.target, m.userData));
      var acked := l.log + [ack];
      AppendKeepsOrder(env, ecu, l.log, ack);
      var asked := acked + [request];
      assert asked[..|acked|] == acked;
      AppendKeepsOrder(env, ecu, acked, request);
      var reply := env.reply(|asked|).GetOr([]);
      if reply != [] {
        var response := Sent(Diagnostic(ecu, l.state.tester, reply));
        assert (asked + [response])[..|asked|] == asked;
        AppendKeepsOrder(env, ecu, asked, response);
      }
    }
  }

  /** What handling one frame does to the log and the state. */
  predicate FrameLogged(env: Environment, ecu: U16, l: Link, f: Frame, next: Link, ok: bool) {
    match FromU16(f.header.payloadType)
    case Some(RoutingActivationRequest) =>
      var a := ParseActivation(f.payload);
      if ok then
        && a.Some?
        && next.log == l.log + [Sent(ActivationResponse(a.value.source, ecu, ROUTING_SUCCESS, ZERO))]
        && next.state == Active(a.value.source)
      else
        next.log == l.log && next.state == l.state
    case Some(DiagnosticMessage) =>
      var m := ParseDiagnostic(f.payload);
      if l.state.Active? && m.Some? then DiagnosisLogged(env, ecu, l, m.value, next, ok)
      else next.log == l.log && next.state == l.state && (ok <==> l.state.AwaitingActivation?)
    case Some(AliveCheckRequest) =>
      next.state == l.state && next.log == if ok then l.log + [Sent(AliveResponse(ecu))] else l.log
    case _ => next == l
  }

  lemma HandleFrameLogs(env: Environment, ecu: U16, l: Link, f: Frame)
    ensures var (next, ok) := HandleFrame(env, ecu, l, f); FrameLogged(env, ecu, l, f, next, ok)
  {
    hide FrameBytes, Frames;
    if l.state.Active? && ParseDiagnostic(f.payload).Some? {
      DiagnoseLogs(env, ecu, l, f.payload);
    }
  }

  lemma FrameIsDisciplined(env: Environment, ecu: U16, l: Link, f: Frame, next: Link, ok: bool)
    requires Disciplined(env, ecu, l, true) && FrameLogged(env, ecu, l, f, next, ok)
    ensures Disciplined(env, ecu, next, ok)
  {
    match FromU16(f.header.payloadType) {
      case Some(RoutingActivationRequest) =>
        if ok {
          AppendKeepsOrder(env, ecu, l.log, next.log[|l.log|]);
        }
      case Some(DiagnosticMessage) =>
        if l.state.Active? && ParseDiagnostic(f.payload).Some? {
          DiagnosisIsDisciplined(env, ecu, l, ParseDiagnostic(f.payload).value, next, ok);
        }
      case Some(AliveCheckRequest) => AppendKeepsOrder(env, ecu, l.log, Sent(AliveResponse(ecu)));
      case _ =>
    }
  }

  lemma {:induction false} FramesAreDisciplined(env: Environment, ecu: U16, l: Link, fs: seq<Frame>)
    requires Disciplined(env, ecu, l, true)
    ensures var (next, ok) := HandleFrames(env, ecu, l, fs); Disciplined(env, ecu, next, ok)
    decreases |fs|
  {
    if fs != [] {
      var (next, ok) := HandleFrame(env, ecu, l, fs[0]);
      HandleFrameLogs(env, ecu, l, fs[0]);
      FrameIsDisciplined(env, ecu, l, fs[0], next, ok);
      if ok {
        FramesAreDisciplined(env, ecu, next, fs[1..]);
      }
    }
  }

  /**
   Every action of every run, even one that ends in an error, is in its place: in particular each reply that
   is not empty is relayed, unchanged and at once, to the tester activated last, and nothing else is.
   */
  lemma RunsAreDisciplined(env: Environment, ecu: U16, received: seq<seq<byte>>)
    ensures var (l, ok) := Serve(env, ecu, NEW_LINK, received); Disciplined(env, ecu, l, ok)
  {
    ServeFoldsFrames(env, ecu, NEW_LINK, received);
    FramesAreDisciplined(env, ecu, NEW_LINK, FramesSeen(received));
  }

  /** Frames only add to the log and to the output, and an activation is never undone. */
  lemma {:induction false} NothingIsUndone(env: Environment, ecu: U16, l: Link, fs: seq<Frame>)
    ensures var next := HandleFrames(env, ecu, l, fs).0;
            && l.log <= next.log
            && (l.state.Active? ==> next.state.Active?)
            && (LastActivated(l.log).Some? ==> LastActivated(next.log).Some?)
    decreases |fs|
  {
    if fs != [] {
      var (next, ok) := HandleFrame(env, ecu, l, fs[0]);
      HandleFrameLogs(env, ecu, l, fs[0]);
      LongerLogKeepsActivation(l.log, next.log);
      if ok {
        NothingIsUndone(env, ecu, next, fs[1..]);
      }
    }
  }

  lemma {:induction false} LongerLogKeepsActivation(log: seq<Action>, longer: seq<Action>)
    requires log <= longer
    ensures LastActivated(log).Some? ==> LastActivated(longer).Some?
    decreases |longer|
  {
    if log != longer {
      LongerLogKeepsActivation(log, longer[..|longer| - 1]);
    }
  }

  // ---------------------------------------------------------------------------------------------
  // What is answered, told from the input alone

  /** What a frame obliges the connection to do. A reply to an accepted request goes to the tester named. */
  datatype Ruling =
    | Activated(source: U16)
    | Accepted(request: UdsRequest, tester: Option<U16>)
    | Rejected(source: U16)
    | Alive

  function Verdict(ecu: U16, m: Message, tester: Option<U16>): Ruling
    requires m.Diagnostic?
  {
    if m.target in {ecu, FUNCTIONAL_ADDRESS} then Accepted(UdsRequest(m.source, m.target, m.userData), tester)
    else Rejected(m.source)
  }

  /** The tester that a frame activates, or the one activated before it. */
  function TesterAfter(f: Frame, tester: Option<U16>): Option<U16> {
    if FromU16(f.header.payloadType) == Some(RoutingActivationRequest) && ParseActivation(f.payload).Some?
    then Some(ParseActivation(f.payload).value.source) else tester
  }

  /** What a frame is owed, given the tester activated before it, if there is one. */
  function Due(ecu: U16, f: Frame, tester: Option<U16>): seq<Ruling> {
    match FromU16(f.header.payloadType)
    case Some(RoutingActivationRequest) =>
      var a := ParseActivation(f.payload);
      if a.Some? then [Activated(a.value.source)] else []
    case Some(DiagnosticMessage) =>
      var m := ParseDiagnostic(f.payload);
      if tester.Some? && m.Some? then [Verdict(ecu, m.value, tester)] else []
    case Some(AliveCheckRequest) => [Alive]
    case _ => []
  }

  /** A frame that cannot be parsed ends the connection. */
  predicate IsFatal(f: Frame, tester: Option<U16>) {
    match FromU16(f.header.payloadType)
    case Some(RoutingActivationRequest) => ParseActivation(f.payload).None?
    case Some(DiagnosticMessage) => tester.Some? && ParseDiagnostic(f.payload).None?
    case _ => false
  }

  /** What a sequence of frames is owed, up to the first that ends the connection. */
  function Owed(ecu: U16, fs: seq<Frame>, tester: Option<U16>): seq<Ruling> {
    if fs == [] || IsFatal(fs[0], tester) then []
    else Due(ecu, fs[0], tester) + Owed(ecu, fs[1..], TesterAfter(fs[0], tester))
  }

  /** No frame ends the connection. */
  predicate NoneIsFatal(fs: seq<Frame>, tester: Option<U16>) {
    fs == [] || (!IsFatal(fs[0], tester) && NoneIsFatal(fs[1..], TesterAfter(fs[0], tester)))
  }

  /** The tester activated last, told from the frames alone. */
  function TesterAfterAll(fs: seq<Frame>, tester: Option<U16>): Option<U16> {
    if fs == [] then tester else TesterAfterAll(fs[1..], TesterAfter(fs[0], tester))
  }

  /** The obligation that an action meets, if it is one that counts; the tester is the one activated before it. */
  function VerdictOf(a: Action, tester: Option<U16>): seq<Ruling> {
    match a
    case Forwarded(r) => [Accepted(r, tester)]
    case Sent(ActivationResponse(source, _, _, _)) => [Activated(source)]
    case Sent(Nack(_, target, _)) => [Rejected(target)]
    case Sent(AliveResponse(_)) => [Alive]
    case _ => []
  }

  /** The obligations that a log shows to be met. */
  function Given(log: seq<Action>): seq<Ruling> {
    if log == [] then []
    else
      var front := log[..|log| - 1];
      Given(front) + VerdictOf(log[|log| - 1], LastActivated(front))
  }

  lemma GivenAppend(log: seq<Action>, a: Action)
    ensures Given(log + [a]) == Given(log) + VerdictOf(a, LastActivated(log))
    ensures LastActivated(log + [a])
            == if a.Sent? && a.message.ActivationResponse? then Some(a.message.tester) else LastActivated(log)
  {
    assert (log + [a])[..|log|] == log;
  }

  /** The log records the activation that the state is in. */
  predicate Tracks(l: Link) {
    TesterOf(l.state) == LastActivated(l.log)
  }

  /** One step of the log adds what was due; a step that fails may add nothing. */
  predicate Gives(l: Link, next: Link, ok: bool, due: seq<Ruling>) {
    && Tracks(next)
    && (Given(next.log) == Given(l.log) + due || (!ok && Given(next.log) == Given(l.log)))
  }

  lemma DiagnosisGivesVerdict(env: Environment, ecu: U16, l: Link, m: Message, next: Link, ok: bool)
    requires Tracks(l) && l.state.Active? && m.Diagnostic? && DiagnosisLogged(env, ecu, l, m, next, ok)
    ensures Gives(l, next, ok, [Verdict(ecu, m, TesterOf(l.state))])
  {
    hide Given, LastActivated;
    if m.target != ecu && m.target != FUNCTIONAL_ADDRESS {
      GivenAppend(l.log, Sent(Nack(ecu, m.source, UNKNOWN_TARGET_ADDRESS)));
    } else {
      var acked := l.log + [Sent(Ack(ecu, m.source, 0x00))];
      var asked := acked + [Forwarded(UdsRequest(m.source, m.target, m.userData))];
      GivenAppend(l.log, acked[|l.log|]);
      GivenAppend(acked, asked[|acked|]);
      if |next.log| > |asked| {
        GivenAppend(asked, next.log[|asked|]);
      }
    }
  }

  lemma FrameGivesVerdict(env: Environment, ecu: U16, l: Link, f: Frame, next: Link, ok: bool)
    requires Tracks(l) && FrameLogged(env, ecu, l, f, next, ok)
    ensures Gives(l, next, ok, Due(ecu, f, TesterOf(l.state)))
    ensures IsFatal(f, TesterOf(l.state)) ==> !ok && Due(ecu, f, TesterOf(l.state)) == []
    ensures ok ==> TesterOf(next.state) == TesterAfter(f, TesterOf(l.state))
  {
    hide Given, LastActivated;
    match FromU16(f.header.payloadType) {
      case Some(RoutingActivationRequest) =>
        if ok {
          GivenAppend(l.log, next.log[|l.log|]);
        }
      case Some(DiagnosticMessage) =>
        if l.state.Active? && ParseDiagnostic(f.payload).Some? {
          DiagnosisGivesVerdict(env, ecu, l, ParseDiagnostic(f.payload).value, next, ok);
        }
      case Some(AliveCheckRequest) => GivenAppend(l.log, Sent(AliveResponse(ecu)));
      case _ =>
    }
  }

  lemma {:induction false} FramesGiveVerdicts(env: Environment, ecu: U16, l: Link, fs: seq<Frame>)
    requires Tracks(l)
    ensures var (next, ok) := HandleFrames(env, ecu, l, fs);
            && Given(next.log) <= Given(l.log) + Owed(ecu, fs, TesterOf(l.state))
            && (ok ==> Given(next.log) == Given(l.log) + Owed(ecu, fs, TesterOf(l.state)))
            && (ok ==> NoneIsFatal(fs, TesterOf(l.state)))
            && (ok ==> TesterOf(next.state) == TesterAfterAll(fs, TesterOf(l.state)))
    decreases |fs|
  {
    hide HandleFrame, FrameLogged, Given, LastActivated, Due, TesterAfter, IsFatal;
    if fs != [] {
      var (next, ok) := HandleFrame(env, ecu, l, fs[0]);
      var tester := TesterOf(l.state);
      HandleFrameLogs(env, ecu, l, fs[0]);
      FrameGivesVerdict(env, ecu, l, fs[0], next, ok);
      if ok {
        FramesGiveVerdicts(env, ecu, next, fs[1..]);
      }
      Associate(Given(l.log), Due(ecu, fs[0], tester), Owed(ecu, fs[1..], TesterAfter(fs[0], tester)));
    }
  }

  lemma Associate(a: seq<Ruling>, b: seq<Ruling>, c: seq<Ruling>)
    ensures a + b + c == a + (b + c) && a <= a + (b + c) && a + b <= a + (b + c)
  {
  }

  /**
   What a run does is, in order, what its input obliges it to, told from the frames alone: every
   well-formed activation request is confirmed, every alive check answered, and every well-formed diagnostic
   message after the first activation is forwarded or rejected, none before it. The tester that replies go
   to is the source of the last activation request. A frame that cannot be parsed ends the connection, and a run
   that ends in an error stops somewhere on this way.
   */
  lemma VerdictsAreThoseOwed(env: Environment, ecu: U16, received: seq<seq<byte>>)
    ensures var (l, ok) := Serve(env, ecu, NEW_LINK, received);
            var fs := FramesSeen(received);
            && Given(l.log) <= Owed(ecu, fs, None)
            && (ok ==> Given(l.log) == Owed(ecu, fs, None))
            && (ok ==> NoneIsFatal(fs, None))
            && (ok ==> TesterOf(l.state) == TesterAfterAll(fs, None))
  {
    hide Serve, HandleFrames, FramesSeen, Owed, TesterAfterAll, NoneIsFatal;
    ServeFoldsFrames(env, ecu, NEW_LINK, received);
    FramesGiveVerdicts(env, ecu, NEW_LINK, FramesSeen(received));
    assert [] + Owed(ecu, FramesSeen(received), None) == Owed(ecu, FramesSeen(received), None);
  }
}
