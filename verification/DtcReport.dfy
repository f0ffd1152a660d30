/** Stored trouble codes: ClearDiagnosticInformation and ReadDTCInformation of the app. */
module DtcReport {
  import opened Wrappers
  import opened Words

  type Code = c: seq<u8> | |c| == 3 witness [0, 0, 0]

  datatype Dtc = Dtc(code: Code, status: u8)

  predicate Meets(d: Dtc, mask: u8) {
    d.status & mask != 0
  }

  /** The codes whose status shares a bit with the mask, in the order they are stored. */
  function Matching(dtcs: seq<Dtc>, mask: u8): seq<Dtc> {
    if dtcs == [] then []
    else
      var last := dtcs[|dtcs| - 1];
      Matching(dtcs[..|dtcs| - 1], mask) + if Meets(last, mask) then [last] else []
  }

  function Records(dtcs: seq<Dtc>): seq<u8> {
    if dtcs == [] then [] else Records(dtcs[..|dtcs| - 1]) + dtcs[|dtcs| - 1].code + [dtcs[|dtcs| - 1].status]
  }

  function Report(dtcs: seq<Dtc>, mask: u8): seq<u8> {
    [0x59, 0x02, 0xFF] + Records(Matching(dtcs, mask))
  }

  function ReadAnswer(dtcs: seq<Dtc>, data: seq<u8>): seq<u8> {
    if |data| < 2 then [0x7F, 0x19, 0x13]
    else if data[1] != 0x02 then [0x7F, 0x19, 0x12]
    else if |data| < 3 then [0x7F, 0x19, 0x13]
    else Report(dtcs, data[2])
  }

  class DtcStore {
    var dtcs: seq<Dtc>

    constructor (dtcs: seq<Dtc>)
      ensures this.dtcs == dtcs
    {
      this.dtcs := dtcs;
    }

    method HandleClearDtc(data: seq<u8>) returns (response: seq<u8>)
      modifies this
      ensures dtcs == AfterRequest(old(dtcs), Clear(data))
      ensures dtcs == if |data| < 4 then old(dtcs) else []
      ensures response == if |data| < 4 then [0x7F, 0x14, 0x13] else [0x54]
    {
      if |data| < 4 {
        return [0x7F, 0x14, 0x13];
      }
      dtcs := [];
      return [0x54];
    }

    method HandleReadDtc(data: seq<u8>) returns (response: seq<u8>)
      ensures response == ReadAnswer(dtcs, data)
    {
      if |data| < 2 {
        return [0x7F, 0x19, 0x13];
      }
      if data[1] != 0x02 {
        return [0x7F, 0x19, 0x12];
      }
      if |data| < 3 {
        return [0x7F, 0x19, 0x13];
      }
      hide Report, Meets;
      var mask := data[2];
      response := [0x59, data[1], 0xFF];
      EmptyReport(mask);
      assert dtcs[..0] == [];
      for n := 0 to |dtcs|
        invariant response == Report(dtcs[..n], mask)
      {
        ReportStep(dtcs, n, mask);
        if Meets(dtcs[n], mask) {
          response := response + dtcs[n].code;
          response := response + [dtcs[n].status];
        }
      }
      assert dtcs[..|dtcs|] == dtcs;
    }
  }

  lemma EmptyReport(mask: u8)
    ensures Report([], mask) == [0x59, 0x02, 0xFF]
  {
  }

  /** One more stored code adds its record to the report, or nothing. */
  lemma ReportStep(dtcs: seq<Dtc>, n: nat, mask: u8)
    requires n < |dtcs|
    ensures Report(dtcs[..n + 1], mask)
            == if Meets(dtcs[n], mask) then Report(dtcs[..n], mask) + dtcs[n].code + [dtcs[n].status]
               else Report(dtcs[..n], mask)
  {
    hide Meets;
    assert dtcs[..n + 1][..n] == dtcs[..n];
    var before := Matching(dtcs[..n], mask);
    if Meets(dtcs[n], mask) {
      assert (before + [dtcs[n]])[..|before|] == before;
    } else {
      assert before + [] == before;
    }
  }

  // ---------------------------------------------------------------------------------------------
  // Reading a report back

  /** How a tester reads the records of a report: groups of four bytes. */
  function Decode(bytes: seq<u8>): Option<seq<Dtc>> {
    if bytes == [] then Some([])
    else if |bytes| < 4 then None
    else
      var front := Decode(bytes[..|bytes| - 4]);
      var last := bytes[|bytes| - 4..];
      if front.Some? then Some(front.value + [Dtc(last[..3], last[3])]) else None
  }

  lemma {:induction false} DecodeInvertsRecords(dtcs: seq<Dtc>)
    ensures |Records(dtcs)| == 4 * |dtcs|
    ensures Decode(Records(dtcs)) == Some(dtcs)
  {
    if dtcs != [] {
      var front, last := dtcs[..|dtcs| - 1], dtcs[|dtcs| - 1];
      DecodeInvertsRecords(front);
      var bytes := Records(dtcs);
      assert bytes == Records(front) + (last.code + [last.status]);
      assert bytes[..|bytes| - 4] == Records(front) && bytes[|bytes| - 4..] == last.code + [last.status];
      assert (last.code + [last.status])[..3] == last.code;
      assert front + [last] == dtcs;
    }
  }

  /** The positions of the codes whose status meets the mask. */
  function Positions(dtcs: seq<Dtc>, mask: u8): seq<nat> {
    if dtcs == [] then []
    else Positions(dtcs[..|dtcs| - 1], mask) + if Meets(dtcs[|dtcs| - 1], mask) then [|dtcs| - 1] else []
  }

  lemma {:induction false} PositionsAscend(dtcs: seq<Dtc>, mask: u8)
    ensures forall i :: 0 <= i < |Positions(dtcs, mask)| ==> Positions(dtcs, mask)[i] < |dtcs|
    ensures forall i, j :: 0 <= i < j < |Positions(dtcs, mask)| ==> Positions(dtcs, mask)[i] < Positions(dtcs, mask)[j]
  {
    hide Meets;
    if dtcs != [] {
      PositionsAscend(dtcs[..|dtcs| - 1], mask);
    }
  }

  lemma {:induction false} PositionsAreThoseThatMeet(dtcs: seq<Dtc>, mask: u8, k: nat)
    requires k < |dtcs|
    ensures k in Positions(dtcs, mask) <==> Meets(dtcs[k], mask)
  {
    hide Meets;
    var n := |dtcs| - 1;
    if k < n {
      PositionsAreThoseThatMeet(dtcs[..n], mask, k);
    } else {
      PositionsAscend(dtcs[..n], mask);
    }
  }

  lemma {:induction false} MatchingIsAtPositions(dtcs: seq<Dtc>, mask: u8)
    ensures |Positions(dtcs, mask)| == |Matching(dtcs, mask)|
    ensures forall i :: 0 <= i < |Matching(dtcs, mask)| ==>
              Positions(dtcs, mask)[i] < |dtcs| && Matching(dtcs, mask)[i] == dtcs[Positions(dtcs, mask)[i]]
  {
    hide Meets;
    if dtcs != [] {
      MatchingIsAtPositions(dtcs[..|dtcs| - 1], mask);
    }
  }

  /** The bit at a place from 0 to 7 is set. */
  predicate IsSet(b: u8, place: nat)
    requires place < 8
  {
    b & [0x01, 0x02, 0x04, 0x08, 0x10, 0x20, 0x40, 0x80][place] != 0
  }

  /** Some bit is set in both bytes. */
  predicate ShareBit(a: u8, b: u8) {
    exists place: nat :: place < 8 && IsSet(a, place) && IsSet(b, place)
  }

  lemma CommonBits(a: u8, b: u8)
    ensures a & b != 0
            <==> || (a & 0x01 != 0 && b & 0x01 != 0) || (a & 0x02 != 0 && b & 0x02 != 0)
                 || (a & 0x04 != 0 && b & 0x04 != 0) || (a & 0x08 != 0 && b & 0x08 != 0)
                 || (a & 0x10 != 0 && b & 0x10 != 0) || (a & 0x20 != 0 && b & 0x20 != 0)
                 || (a & 0x40 != 0 && b & 0x40 != 0) || (a & 0x80 != 0 && b & 0x80 != 0)
  {
  }

  lemma Places(b: u8)
    ensures IsSet(b, 0) == (b & 0x01 != 0) && IsSet(b, 1) == (b & 0x02 != 0)
    ensures IsSet(b, 2) == (b & 0x04 != 0) && IsSet(b, 3) == (b & 0x08 != 0)
    ensures IsSet(b, 4) == (b & 0x10 != 0) && IsSet(b, 5) == (b & 0x20 != 0)
    ensures IsSet(b, 6) == (b & 0x40 != 0) && IsSet(b, 7) == (b & 0x80 != 0)
  {
  }

  lemma MeetsIffShareBit(d: Dtc, mask: u8)
    ensures Meets(d, mask) <==> ShareBit(d.status, mask)
  {
    hide IsSet;
    CommonBits(d.status, mask);
    Places(d.status);
    Places(mask);
  }

  /** A report lists, in the order they are stored, exactly the codes whose status has a bit of the mask. */
  lemma MatchingSelects(dtcs: seq<Dtc>, mask: u8)
    ensures exists at: seq<nat> ::
              && |at| == |Matching(dtcs, mask)|
              && (forall i :: 0 <= i < |at| ==> at[i] < |dtcs| && Matching(dtcs, mask)[i] == dtcs[at[i]])
              && (forall i, j :: 0 <= i < j < |at| ==> at[i] < at[j])
              && (forall k: nat :: k < |dtcs| ==> (k in at <==> ShareBit(dtcs[k].status, mask)))
  {
    hide Meets, Matching, Positions, ShareBit;
    PositionsAscend(dtcs, mask);
    MatchingIsAtPositions(dtcs, mask);
    forall k: nat | k < |dtcs| ensures k in Positions(dtcs, mask) <==> ShareBit(dtcs[k].status, mask) {
      PositionsAreThoseThatMeet(dtcs, mask, k);
      MeetsIffShareBit(dtcs[k], mask);
    }
  }

  /** A well-formed report decodes to the matching codes, and its length tells how many there are. */
  lemma ReportRoundTrips(dtcs: seq<Dtc>, data: seq<u8>)
    requires |data| >= 3 && data[1] == 0x02
    ensures var response := ReadAnswer(dtcs, data);
            && |response| == 3 + 4 * |Matching(dtcs, data[2])|
            && response[..3] == [0x59, 0x02, 0xFF]
            && Decode(response[3..]) == Some(Matching(dtcs, data[2]))
  {
    DecodeInvertsRecords(Matching(dtcs, data[2]));
    assert ReadAnswer(dtcs, data)[3..] == Records(Matching(dtcs, data[2]));
  }

  /** A report for a narrower mask is what that mask selects from the report for a wider one. */
  lemma {:induction false} NarrowerMaskSelectsFromWider(dtcs: seq<Dtc>, narrow: u8, wide: u8)
    requires narrow & wide == narrow
    ensures Matching(Matching(dtcs, wide), narrow) == Matching(dtcs, narrow)
  {
    hide Meets;
    if dtcs != [] {
      var front, last := dtcs[..|dtcs| - 1], dtcs[|dtcs| - 1];
      var listed := Matching(front, wide);
      NarrowerMaskSelectsFromWider(front, narrow, wide);
      NarrowerMeansFewer(last, narrow, wide);
      if Meets(last, wide) {
        assert (listed + [last])[..|listed|] == listed;
      } else {
        assert listed + [] == listed;
      }
    }
  }

  lemma NarrowerMeansFewer(d: Dtc, narrow: u8, wide: u8)
    requires narrow & wide == narrow
    ensures Meets(d, narrow) ==> Meets(d, wide)
  {
  }

  /** Which requests get a report, and why the others are turned away. */
  lemma ReadIsReported(dtcs: seq<Dtc>, data: seq<u8>)
    ensures var response := ReadAnswer(dtcs, data);
            && (response == [0x7F, 0x19, 0x13] <==> |data| < 2 || (|data| == 2 && data[1] == 0x02))
            && (response == [0x7F, 0x19, 0x12] <==> |data| >= 2 && data[1] != 0x02)
            && (response[..3] == [0x59, 0x02, 0xFF] <==> |data| >= 3 && data[1] == 0x02)
  {
    hide Matching, Records;
    if |data| >= 3 && data[1] == 0x02 {
      ReportRoundTrips(dtcs, data);
    }
  }

  // ---------------------------------------------------------------------------------------------
  // Clearing

  datatype Request = Clear(data: seq<u8>) | Read(data: seq<u8>)

  /** A clear is carried out when it carries a group of three bytes; which group is not looked at. */
  predicate Clears(r: Request) {
    r.Clear? && |r.data| >= 4
  }

  function AfterRequest(dtcs: seq<Dtc>, r: Request): seq<Dtc> {
    if Clears(r) then [] else dtcs
  }

  function AfterRequests(dtcs: seq<Dtc>, rs: seq<Request>): seq<Dtc> {
    if rs == [] then dtcs else AfterRequest(AfterRequests(dtcs, rs[..|rs| - 1]), rs[|rs| - 1])
  }

  /** Requests leave the store as it was or, from the first successful clear on, empty. */
  lemma {:induction false} StoreIsKeptOrCleared(dtcs: seq<Dtc>, rs: seq<Request>)
    ensures AfterRequests(dtcs, rs) == if exists r :: r in rs && Clears(r) then [] else dtcs
  {
    if rs != [] {
      var front, last := rs[..|rs| - 1], rs[|rs| - 1];
      StoreIsKeptOrCleared(dtcs, front);
      assert forall r :: r in rs <==> r in front || r == last;
    }
  }

  /** After a successful clear every well-formed report is the bare header. */
  lemma ClearedForGood(dtcs: seq<Dtc>, rs: seq<Request>, data: seq<u8>)
    requires exists r :: r in rs && Clears(r)
    requires |data| >= 3 && data[1] == 0x02
    ensures ReadAnswer(AfterRequests(dtcs, rs), data) == [0x59, 0x02, 0xFF]
  {
    StoreIsKeptOrCleared(dtcs, rs);
    ReportRoundTrips([], data);
  }
}
