/** How a byte buffer decomposes into DoIP frames, as the receive loop of connection.rs takes it apart. */
module Framing {
  import opened Wrappers
  import opened Octets
  import opened Header

  datatype Frame = Frame(header: DoipHeader, payload: seq<byte>)

  /** A frame is whole when its payload is as long as its header declares. */
  predicate Whole(f: Frame) {
    |f.payload| == f.header.payloadLength.Value()
  }

  predicate AllWhole(fs: seq<Frame>) {
    forall f :: f in fs ==> Whole(f)
  }

  function FrameBytes(f: Frame): seq<byte> {
    f.header.Encode() + f.payload
  }

  function Flatten(fs: seq<Frame>): seq<byte> {
    if fs == [] then [] else FrameBytes(fs[0]) + Flatten(fs[1..])
  }

  /** Bytes that do not start with a whole frame: no header, or one that declares more than is there. */
  predicate IsResidue(r: seq<byte>) {
    |r| < HEADER_SIZE || HEADER_SIZE + ParseHeader(r).value.payloadLength.Value() > |r|
  }

  function FirstFrame(data: seq<byte>): Frame
    requires !IsResidue(data)
  {
    var h := ParseHeader(data).value;
    Frame(h, data[HEADER_SIZE..HEADER_SIZE + h.payloadLength.Value()])
  }

  function Frames(data: seq<byte>): seq<Frame>
    decreases |data|
  {
    if IsResidue(data) then [] else [FirstFrame(data)] + Frames(data[|FrameBytes(FirstFrame(data))|..])
  }

  function Residue(data: seq<byte>): seq<byte>
    decreases |data|
  {
    if IsResidue(data) then data else Residue(data[|FrameBytes(FirstFrame(data))|..])
  }

  /** One turn of the receive loop: either no whole frame is left, or one is and the rest follows. */
  lemma FramesUnfold(data: seq<byte>)
    ensures |data| < HEADER_SIZE ==> Frames(data) == []
    ensures |data| >= HEADER_SIZE ==>
              var h := ParseHeader(data).value;
              var totalLen := HEADER_SIZE + h.payloadLength.Value();
              if totalLen > |data| then Frames(data) == []
              else Frames(data) == [Frame(h, data[HEADER_SIZE..totalLen])] + Frames(data[totalLen..])
  {
    if !IsResidue(data) {
      hide ParseHeader;
      var h := ParseHeader(data).value;
      assert |FrameBytes(FirstFrame(data))| == HEADER_SIZE + h.payloadLength.Value();
    }
  }

  /** The decomposition exists: whole frames, then a residue, adding up to the buffer. */
  lemma {:induction false} FramesAndResidue(data: seq<byte>)
    ensures Flatten(Frames(data)) + Residue(data) == data
    ensures AllWhole(Frames(data)) && IsResidue(Residue(data))
    ensures HEADER_SIZE * |Frames(data)| <= |data|
    decreases |data|
  {
    hide ParseHeader;
    if !IsResidue(data) {
      var f := FirstFrame(data);
      var rest := data[|FrameBytes(f)|..];
      FirstFrameIsInFront(data);
      FramesAndResidue(rest);
      assert FrameBytes(f) + (Flatten(Frames(rest)) + Residue(rest)) == data;
      FlattenStep(f, Frames(rest), Residue(rest));
    }
  }

  lemma FirstFrameIsInFront(data: seq<byte>)
    requires !IsResidue(data)
    ensures var f := FirstFrame(data);
            Whole(f) && data == FrameBytes(f) + data[|FrameBytes(f)|..]
  {
    EncodeParsedHeader(data);
  }

  lemma FlattenStep(f: Frame, fs: seq<Frame>, r: seq<byte>)
    ensures Flatten([f] + fs) + r == FrameBytes(f) + (Flatten(fs) + r)
  {
    assert ([f] + fs)[1..] == fs;
  }

  /** A whole frame in front of any bytes is the first one found. */
  lemma FrameInFront(f: Frame, rest: seq<byte>)
    requires Whole(f)
    ensures Frames(FrameBytes(f) + rest) == [f] + Frames(rest)
    ensures Residue(FrameBytes(f) + rest) == Residue(rest)
  {
    var data := FrameBytes(f) + rest;
    assert data == f.header.Encode() + (f.payload + rest);
    ParseEncodedHeader(f.header, f.payload + rest);
    assert FirstFrame(data).payload == f.payload;
    assert data[|FrameBytes(f)|..] == rest;
  }

  /** A frame by itself is found again exactly when it is whole. */
  lemma FrameIsFoundIffWhole(f: Frame)
    ensures Frames(FrameBytes(f)) == [f] && Residue(FrameBytes(f)) == [] <==> Whole(f)
  {
    FramesAndResidue(FrameBytes(f));
    if Whole(f) {
      assert FrameBytes(f) + [] == FrameBytes(f);
      FrameInFront(f, []);
    } else {
      assert f in [f];
    }
  }

  /** Whole frames in front of any bytes are found first, in order. */
  lemma {:induction false} FramesInFront(fs: seq<Frame>, rest: seq<byte>, data: seq<byte>)
    requires AllWhole(fs) && data == Flatten(fs) + rest
    ensures Frames(data) == fs + Frames(rest) && Residue(data) == Residue(rest)
    decreases |fs|
  {
    if fs == [] {
      assert data == rest;
    } else {
      var f, more := fs[0], fs[1..];
      assert [f] + more == fs;
      FlattenStep(f, more, rest);
      FramesInFront(more, rest, Flatten(more) + rest);
      FrameThenFrames(f, more, rest, Flatten(more) + rest);
    }
  }

  lemma FrameThenFrames(f: Frame, fs: seq<Frame>, rest: seq<byte>, tail: seq<byte>)
    requires Whole(f) && Frames(tail) == fs + Frames(rest) && Residue(tail) == Residue(rest)
    ensures Frames(FrameBytes(f) + tail) == [f] + fs + Frames(rest)
    ensures Residue(FrameBytes(f) + tail) == Residue(rest)
  {
    hide IsResidue, FirstFrame;
    FrameInFront(f, tail);
    assert [f] + (fs + Frames(rest)) == [f] + fs + Frames(rest);
  }

  /** The decomposition is unique. */
  lemma DecompositionIsUnique(data: seq<byte>, fs: seq<Frame>, r: seq<byte>)
    requires AllWhole(fs)
    ensures Flatten(fs) + r == data && IsResidue(r) <==> fs == Frames(data) && r == Residue(data)
  {
    FramesAndResidue(data);
    if Flatten(fs) + r == data && IsResidue(r) {
      FramesInFront(fs, r, data);
    }
  }

  /** What a buffer leaves over is in front of what follows it. */
  lemma FramesOfSplit(a: seq<byte>, b: seq<byte>)
    ensures Frames(a + b) == Frames(a) + Frames(Residue(a) + b)
    ensures Residue(a + b) == Residue(Residue(a) + b)
  {
    FramesAndResidue(a);
    assert a + b == Flatten(Frames(a)) + (Residue(a) + b);
    FramesInFront(Frames(a), Residue(a) + b, a + b);
  }

  /** A strict prefix of a whole frame is a residue. */
  lemma CutFrameIsResidue(f: Frame, n: nat)
    requires Whole(f) && n < |FrameBytes(f)|
    ensures IsResidue(FrameBytes(f)[..n])
  {
    var cut := FrameBytes(f)[..n];
    if n >= HEADER_SIZE {
      assert cut == f.header.Encode() + f.payload[..n - HEADER_SIZE];
      ParseEncodedHeader(f.header, f.payload[..n - HEADER_SIZE]);
    }
  }

  /** Writing a whole frame after whole frames adds that frame; cutting it short adds nothing. */
  lemma AppendFrame(data: seq<byte>, f: Frame, n: nat)
    requires Residue(data) == [] && Whole(f) && n <= |FrameBytes(f)|
    ensures Frames(data + FrameBytes(f)[..n]) == Frames(data) + if n == |FrameBytes(f)| then [f] else []
    ensures Residue(data + FrameBytes(f)[..n]) == if n == |FrameBytes(f)| then [] else FrameBytes(f)[..n]
  {
    hide FirstFrame, ParseHeader, FrameBytes;
    var bytes := FrameBytes(f)[..n];
    FramesOfSplit(data, bytes);
    assert [] + bytes == bytes;
    if n == |FrameBytes(f)| {
      assert bytes == FrameBytes(f);
      FrameIsFoundIffWhole(f);
    } else {
      CutFrameIsResidue(f, n);
    }
  }
}
