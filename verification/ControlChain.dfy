/** The bridge's control requests: each is sent from the completion callback of the one before
    (scripts/lib/renode/platforms/models/DualCdcAcmBridge.cs:141-220), into the single SETUP slot of
    the device (scripts/lib/renode/platforms/models/NRF_USBD_Full.cs:96-126, 283-307). */
module ControlChain {
  import opened Common
  import opened ControlEndpoint
  import opened CdcDescriptors
  import opened BridgeChannel

  /** A control request with its host-to-device payload, if any. */
  datatype Request = Request(packet: SetupPacket, data: Option<seq<byte>>)

  /** The callbacks the bridge passes to HandleSetupPacket. */
  datatype Callback = OnHeader | OnFull | OnControlDone

  const CHANNEL_COUNT := 2
  const HEADER_LENGTH := 9

  /** The device's control endpoint and the bridge. `seen` lists the SETUPs forwarded to the guest,
      `requests` is the bridge's queue, `done` counts runs of the final callback, and `pumps` the
      pump starts of each channel. */
  datatype Session = Session(
    ep0: Ep0<Callback>, seen: seq<Request>, requests: seq<Request>, done: nat,
    channels: seq<Chan>, pumps: seq<nat>)

  predicate WfSession(s: Session) {
    |s.channels| == |s.pumps| == CHANNEL_COUNT
  }

  function GetConfiguration(count: nat): Request {
    Request(SetupPacket(ToDevice, Standard, DeviceToHost, 6, 0x0200, 0, count), None)
  }

  function ClassRequest(request: byte, value: nat, interfaceNumber: int, count: nat): SetupPacket {
    SetupPacket(ToInterface, Class, HostToDevice, request, value, interfaceNumber % 65536, count)
  }

  /** 115200 baud, one stop bit, no parity, eight data bits. */
  const LINE_CODING: seq<byte> := [0x00, 0xC2, 0x01, 0x00, 0x00, 0x00, 0x08]

  function SetLineCoding(control: int): Request {
    Request(ClassRequest(0x20, 0, control, 7), Some(LINE_CODING))
  }

  function SetControlLineState(control: int): Request {
    Request(ClassRequest(0x22, 3, control, 0), None)
  }

  function ControlRequests(pairs: seq<CdcDataPair>): seq<Request> {
    if pairs == [] then []
    else ControlRequests(pairs[..|pairs| - 1]) + [SetLineCoding(pairs[|pairs| - 1].controlInterface),
                                                  SetControlLineState(pairs[|pairs| - 1].controlInterface)]
  }

  /** The functions that get a channel. */
  function Used(pairs: seq<CdcDataPair>): seq<CdcDataPair> {
    pairs[..Min(CHANNEL_COUNT, |pairs|)]
  }

  /** The final callback starts the pump of each wired channel whose IN endpoint exists. */
  function StartPumps(channels: seq<Chan>, pumps: seq<nat>): seq<nat>
    requires |channels| == |pumps|
  {
    seq(|pumps|, i requires 0 <= i < |pumps| =>
      if channels[i].wired && HasEndpoint(channels[i].inEndpoint) then pumps[i] + 1 else pumps[i])
  }

  function Forward(s: Session, r: Request, k: Callback): Session {
    s.(ep0 := Latch(s.ep0, r.packet, r.data, k), seen := s.seen + [r])
  }

  /** SendControlSequence: a SET_ADDRESS in the queue is acknowledged on the spot, so its callback
      re-enters at once; anything else waits for the guest. */
  function SendControlSequence(s: Session): (t: Session)
    requires WfSession(s)
    ensures WfSession(t)
    decreases |s.requests|
  {
    if s.requests == [] then s.(done := s.done + 1, pumps := StartPumps(s.channels, s.pumps))
    else
      var r, rest := s.requests[0], s.(requests := s.requests[1..]);
      if IsSetAddress(r.packet) then SendControlSequence(rest.(ep0 := TakeAddress(rest.ep0, r.packet)))
      else Forward(rest, r, OnControlDone)
  }

  function WireAll(channels: seq<Chan>, pairs: seq<CdcDataPair>): seq<Chan>
    requires |channels| == CHANNEL_COUNT
  {
    seq(CHANNEL_COUNT, i requires 0 <= i < CHANNEL_COUNT =>
      if i < |pairs| then WireUp(channels[i], pairs[i].inEndpoint, pairs[i].outEndpoint).0 else channels[i])
  }

  function WireChannels(s: Session, descriptor: seq<byte>): (t: Session)
    requires WfSession(s)
    ensures WfSession(t)
  {
    var pairs := Parse(descriptor);
    SendControlSequence(s.(channels := WireAll(s.channels, pairs), requests := ControlRequests(Used(pairs))))
  }

  /** Invoke a completion callback. */
  function Resume(s: Session, k: Callback, response: seq<byte>): (t: Session)
    requires WfSession(s)
    ensures WfSession(t)
  {
    match k
    case OnHeader =>
      if |response| < HEADER_LENGTH then s else Forward(s, GetConfiguration(TotalLength(response)), OnFull)
    case OnFull => WireChannels(s, response)
    case OnControlDone => SendControlSequence(s)
  }

  function DeviceEnumerated(s: Session): Session {
    Forward(s, GetConfiguration(HEADER_LENGTH), OnHeader)
  }

  /** What the guest does on endpoint 0. */
  datatype Task = InChunk(chunk: seq<byte>) | RcvOut | StartOut(maxCnt: Bits7) | Status | StallEp0

  function Step(s: Session, t: Task, mps: nat): (u: Session)
    requires WfSession(s)
    ensures WfSession(u)
  {
    match t
    case InChunk(chunk) => s.(ep0 := Accumulate(s.ep0, chunk))
    case RcvOut => s.(ep0 := Advertise(s.ep0, mps))
    case StartOut(maxCnt) => s.(ep0 := TakeOut(s.ep0, maxCnt, mps).0)
    case Status =>
      var (ep0, fired) := Finish(s.ep0);
      if fired.None? then s.(ep0 := ep0) else Resume(s.(ep0 := ep0), fired.value.0, fired.value.1)
    case StallEp0 => s.(ep0 := ControlEndpoint.Stall(s.ep0))
  }

  function Run(s: Session, ts: seq<Task>, mps: nat): (u: Session)
    requires WfSession(s)
    ensures WfSession(u)
    decreases |ts|
  {
    if ts == [] then s else Run(Step(s, ts[0], mps), ts[1..], mps)
  }

  lemma {:induction false} RunAppend(s: Session, a: seq<Task>, b: seq<Task>, mps: nat)
    requires WfSession(s)
    ensures Run(s, a + b, mps) == Run(Run(s, a, mps), b, mps)
    decreases |a|
  {
    if a == [] {
      assert a + b == b;
    } else {
      assert (a + b)[0] == a[0] && (a + b)[1..] == a[1..] + b;
      RunAppend(Step(s, a[0], mps), a[1..], b, mps);
    }
  }

  // ------------------------------------------------------------- the requests on the wire

  /** A configuration read asks for descriptor type 2, index 0, as the guest reads it from its
      registers. */
  lemma ConfigurationReadOnTheWire(count: nat)
    requires count < 65536
    ensures SetupBytes(Some(GetConfiguration(count).packet)) == [0x80, 6, 0, 2, 0, 0, count % 256, count / 256]
    ensures GetConfiguration(count).data == None
  {
  }

  /** The wIndex of a function without a control interface is 0xFFFF. */
  function IndexBytes(control: int): seq<byte>
    requires -1 <= control < 256
  {
    if control == -1 then [0xFF, 0xFF] else [control, 0]
  }

  /** Each function gets two class requests to its control interface (sections 6.3.10 and 6.3.12 of
      USB PSTN 1.2): 115200 baud with one stop bit, no parity and eight data bits, then DTR and RTS. */
  lemma ControlRequestsOnTheWire(pairs: seq<CdcDataPair>, k: nat)
    requires k < |pairs| && -1 <= pairs[k].controlInterface < 256
    ensures var requests, index := ControlRequests(pairs), IndexBytes(pairs[k].controlInterface);
            && |requests| == 2 * |pairs|
            && SetupBytes(Some(requests[2 * k].packet)) == [0x21, 0x20, 0, 0] + index + [7, 0]
            && requests[2 * k].data == Some([0x00, 0xC2, 0x01, 0x00, 0, 0, 8])
            && SetupBytes(Some(requests[2 * k + 1].packet)) == [0x21, 0x22, 3, 0] + index + [0, 0]
            && requests[2 * k + 1].data == None
  {
    RequestCount(pairs);
    RequestsInPairs(pairs, k);
    LineSetupOnTheWire(pairs[k].controlInterface);
  }

  lemma {:induction false} RequestsInPairs(pairs: seq<CdcDataPair>, k: nat)
    requires k < |pairs|
    ensures var requests, c := ControlRequests(pairs), pairs[k].controlInterface;
            && |requests| == 2 * |pairs|
            && requests[2 * k] == SetLineCoding(c) && requests[2 * k + 1] == SetControlLineState(c)
    decreases |pairs|
  {
    var n := |pairs| - 1;
    RequestCount(pairs[..n]);
    if k < n {
      RequestsInPairs(pairs[..n], k);
    }
  }

  lemma {:induction false} RequestCount(pairs: seq<CdcDataPair>)
    ensures |ControlRequests(pairs)| == 2 * |pairs|
  {
    if pairs != [] {
      RequestCount(pairs[..|pairs| - 1]);
    }
  }

  lemma LineSetupOnTheWire(control: int)
    requires -1 <= control < 256
    ensures SetupBytes(Some(SetLineCoding(control).packet)) == [0x21, 0x20, 0, 0] + IndexBytes(control) + [7, 0]
    ensures SetLineCoding(control).data == Some([0x00, 0xC2, 0x01, 0x00, 0, 0, 8])
    ensures SetupBytes(Some(SetControlLineState(control).packet)) == [0x21, 0x22, 3, 0] + IndexBytes(control) + [0, 0]
    ensures SetControlLineState(control).data == None
  {
  }

  /** How a channel comes out of wiring: an override other than zero wins over what was found. */
  lemma WiringIsExact(channels: seq<Chan>, pairs: seq<CdcDataPair>, i: nat)
    requires |channels| == CHANNEL_COUNT && i < 2
    ensures var c, after := channels[i], WireAll(channels, pairs)[i];
            if i >= |pairs| then after == c
            else
              && after.wired && after.pending == []
              && after.inOverride == c.inOverride && after.outOverride == c.outOverride
              && after.inEndpoint == (if c.inOverride != 0 then c.inOverride else pairs[i].inEndpoint)
              && after.outEndpoint == (if c.outOverride != 0 then c.outOverride else pairs[i].outEndpoint)
  {
  }

  // ------------------------------------------------------------- any queue, any guest

  /** The requests that reach the guest. */
  function Forwarded(q: seq<Request>): seq<Request> {
    if q == [] then []
    else (if IsSetAddress(q[0].packet) then [] else [q[0]]) + Forwarded(q[1..])
  }

  /** Status stages before the guest's first stall. */
  function StatusesBeforeStall(ts: seq<Task>): nat
    decreases |ts|
  {
    if ts == [] || ts[0].StallEp0? then 0
    else (if ts[0].Status? then 1 else 0) + StatusesBeforeStall(ts[1..])
  }

  /** Nothing in a session changes but the buffers of endpoint 0. */
  predicate SameProgress(s: Session, t: Session) {
    t.seen == s.seen && t.requests == s.requests && t.done == s.done && t.channels == s.channels && t.pumps == s.pumps
  }

  lemma {:induction false} NothingWithoutASlot(s: Session, ts: seq<Task>, mps: nat)
    requires WfSession(s) && s.ep0.slot.None?
    ensures SameProgress(s, Run(s, ts, mps)) && Run(s, ts, mps).ep0.slot.None?
    decreases |ts|
  {
    if ts != [] {
      NothingWithoutASlot(Step(s, ts[0], mps), ts[1..], mps);
    }
  }

  /** Sending from the queue forwards the next request the guest gets to see, or finishes. */
  lemma {:induction false} SendTakesNext(s: Session)
    requires WfSession(s)
    ensures var t, fw := SendControlSequence(s), Forwarded(s.requests);
            && t.channels == s.channels
            && (fw == [] ==> t.seen == s.seen && t.done == s.done + 1 && t.requests == []
                             && t.ep0.slot == s.ep0.slot && t.pumps == StartPumps(s.channels, s.pumps))
            && (fw != [] ==> t.seen == s.seen + [fw[0]] && t.done == s.done && Forwarded(t.requests) == fw[1..]
                             && t.ep0.slot == Some(OnControlDone) && t.pumps == s.pumps
                             && t.ep0.packet == Some(fw[0].packet) && t.ep0.offset == 0
                             && t.ep0.payload == Some(if fw[0].data.Some? then fw[0].data.value else []))
    decreases |s.requests|
  {
    if s.requests != [] && IsSetAddress(s.requests[0].packet) {
      SendTakesNext(s.(requests := s.requests[1..], ep0 := TakeAddress(s.ep0, s.requests[0].packet)));
    }
  }

  predicate ChainAt(s: Session, t: Session, fw: seq<Request>, k: nat)
    requires WfSession(s)
  {
    && t.seen == s.seen + fw[..Min(|fw|, k)]
    && t.done == s.done + (if k > |fw| then 1 else 0)
    && t.channels == s.channels && PumpsAt(s.channels, s.pumps, t.pumps, k > |fw|)
  }

  /** Once the final callback has run, each wired channel whose IN endpoint exists has one more pump
      start. */
  predicate PumpsAt(channels: seq<Chan>, before: seq<nat>, after: seq<nat>, finished: bool)
    requires |channels| == |before| == 2
  {
    && |after| == 2
    && forall i :: 0 <= i < 2 ==>
         after[i] == before[i] + if finished && channels[i].wired && channels[i].inEndpoint < 8 then 1 else 0
  }

  /** Tasks other than the status stage and a stall only fill and empty buffers. */
  lemma QuietStep(s: Session, t: Task, mps: nat)
    requires WfSession(s) && !t.Status? && !t.StallEp0?
    ensures var u := Step(s, t, mps);
            && SameProgress(s, u) && u.ep0.slot == s.ep0.slot
            && u.ep0.response == s.ep0.response + (if t.InChunk? then t.chunk else [])
  {
  }

  lemma OneMore(seen: seq<Request>, fw: seq<Request>, k: nat)
    requires fw != []
    ensures seen + [fw[0]] + fw[1..][..Min(|fw| - 1, k)] == seen + fw[..Min(|fw|, k + 1)]
  {
  }

  lemma {:induction false} ChainRun(s: Session, ts: seq<Task>, mps: nat)
    requires WfSession(s) && s.ep0.slot == Some(OnControlDone)
    ensures ChainAt(s, Run(s, ts, mps), Forwarded(s.requests), StatusesBeforeStall(ts))
    decreases |ts|, 0
  {
    if ts == [] {
    } else if ts[0].Status? {
      ChainIsExactlyOnce(s.(ep0 := Finish(s.ep0).0), ts[1..], mps);
    } else if ts[0].StallEp0? {
      NothingWithoutASlot(Step(s, ts[0], mps), ts[1..], mps);
    } else {
      QuietStep(s, ts[0], mps);
      ChainRun(Step(s, ts[0], mps), ts[1..], mps);
    }
  }

  /** For every request queue and every guest: the guest sees the requests in order, one more per
      status stage it completes before its first stall, and the final callback runs once, exactly
      when all of them are completed. A request it stalls is the last it sees. */
  lemma {:induction false} ChainIsExactlyOnce(s: Session, ts: seq<Task>, mps: nat)
    requires WfSession(s) && s.ep0.slot.None?
    ensures ChainAt(s, Run(SendControlSequence(s), ts, mps), Forwarded(s.requests), StatusesBeforeStall(ts) + 1)
    decreases |ts|, 1
  {
    var t, fw := SendControlSequence(s), Forwarded(s.requests);
    SendTakesNext(s);
    if fw == [] {
      NothingWithoutASlot(t, ts, mps);
    } else {
      ChainRun(t, ts, mps);
      OneMore(s.seen, fw, StatusesBeforeStall(ts));
    }
  }

  // ------------------------------------------------------------- why the slot is cleared first

  /** TASKS_EP0STATUS if it cleared the slot after the callback instead of before it. */
  function LateStatus(s: Session): (u: Session)
    requires WfSession(s)
    ensures WfSession(u)
  {
    if s.ep0.slot.None? then s
    else
      var t := Resume(s, s.ep0.slot.value, s.ep0.response);
      t.(ep0 := t.ep0.(slot := None, response := []))
  }

  /** Then the next request of a chain would be forwarded and forgotten: whatever the guest does,
      no further request is sent and the final callback never runs. */
  lemma LateClearingBreaksTheChain(s: Session, ts: seq<Task>, mps: nat)
    requires WfSession(s) && s.ep0.slot == Some(OnControlDone) && Forwarded(s.requests) != []
    ensures var t := Run(LateStatus(s), ts, mps);
            t.seen == s.seen + Forwarded(s.requests)[..1] && t.done == s.done && t.pumps == s.pumps
  {
    SendTakesNext(s);
    NothingWithoutASlot(LateStatus(s), ts, mps);
  }

  // ------------------------------------------------------------- the whole enumeration

  /** Tasks that neither complete nor stall a transfer. */
  predicate DataOnly(ts: seq<Task>) {
    forall i :: 0 <= i < |ts| ==> !ts[i].Status? && !ts[i].StallEp0?
  }

  function Chunks(ts: seq<Task>): seq<byte>
    decreases |ts|
  {
    if ts == [] then [] else (if ts[0].InChunk? then ts[0].chunk else []) + Chunks(ts[1..])
  }

  lemma {:induction false} DataOnlyAccumulates(s: Session, ts: seq<Task>, mps: nat)
    requires WfSession(s) && DataOnly(ts)
    ensures var t := Run(s, ts, mps);
            SameProgress(s, t) && t.ep0.slot == s.ep0.slot && t.ep0.response == s.ep0.response + Chunks(ts)
    decreases |ts|
  {
    if ts != [] {
      QuietStep(s, ts[0], mps);
      var u := Step(s, ts[0], mps);
      DataOnlyAccumulates(u, ts[1..], mps);
      Assoc(s.ep0.response, if ts[0].InChunk? then ts[0].chunk else [], Chunks(ts[1..]));
    }
  }

  /** One transfer: data tasks, then the status stage, which calls back with all the chunks. */
  lemma TransferCompletes(s: Session, ts: seq<Task>, mps: nat)
    requires WfSession(s) && s.ep0.slot.Some? && s.ep0.response == [] && DataOnly(ts)
    ensures exists ep0: Ep0<Callback> :: (ep0.slot.None? && ep0.response == [] &&
              Run(s, ts + [Status], mps) == Resume(s.(ep0 := ep0), s.ep0.slot.value, Chunks(ts)))
  {
    RunAppend(s, ts, [Status], mps);
    DataOnlyAccumulates(s, ts, mps);
    var t := Run(s, ts, mps);
    var ep0 := Finish(t.ep0).0;
    assert t.(ep0 := ep0) == s.(ep0 := ep0);
    assert Run(t, [Status], mps) == Step(t, Status, mps);
    assert [] + Chunks(ts) == Chunks(ts);
  }

  /** A guest that answers the header request with fewer than nine bytes is asked nothing more. */
  lemma ShortHeaderEndsEnumeration(s: Session, ts: seq<Task>, rest: seq<Task>, mps: nat)
    requires WfSession(s) && DataOnly(ts) && |Chunks(ts)| < 9
    ensures var t := Run(DeviceEnumerated(s), ts + [Status] + rest, mps);
            t.seen == s.seen + [GetConfiguration(9)] && t.done == s.done && t.channels == s.channels
  {
    var s1 := DeviceEnumerated(s);
    TransferCompletes(s1, ts, mps);
    RunAppend(s1, ts + [Status], rest, mps);
    NothingWithoutASlot(Run(s1, ts + [Status], mps), rest, mps);
  }

  lemma {:induction false} ClassRequestsAreForwarded(pairs: seq<CdcDataPair>)
    ensures Forwarded(ControlRequests(pairs)) == ControlRequests(pairs)
  {
    if pairs != [] {
      var c := pairs[|pairs| - 1].controlInterface;
      ClassRequestsAreForwarded(pairs[..|pairs| - 1]);
      ForwardedAppend(ControlRequests(pairs[..|pairs| - 1]), [SetLineCoding(c), SetControlLineState(c)]);
      assert [SetLineCoding(c), SetControlLineState(c)][1..] == [SetControlLineState(c)];
      assert Forwarded([SetControlLineState(c)]) == [SetControlLineState(c)];
    }
  }

  lemma {:induction false} ForwardedAppend(a: seq<Request>, b: seq<Request>)
    ensures Forwarded(a + b) == Forwarded(a) + Forwarded(b)
  {
    if a == [] {
      assert a + b == b;
    } else {
      assert (a + b)[1..] == a[1..] + b;
      ForwardedAppend(a[1..], b);
    }
  }

  /** A guest that answers the header with `h` and the full read with `d`, however it splits them
      into chunks, is asked for the header, for as many bytes as the header announces, and then,
      one by one, for the control requests of the functions in `d`; the channels are wired to their
      endpoints, and the pumps start once, when the last request is completed. */
  lemma EnumerationIsExact(s: Session, t1: seq<Task>, t2: seq<Task>, t3: seq<Task>, mps: nat)
    requires WfSession(s) && DataOnly(t1) && |Chunks(t1)| >= 9 && DataOnly(t2)
    ensures var pairs := Parse(Chunks(t2));
            var asked := s.(seen := s.seen + [GetConfiguration(9),
                                              GetConfiguration(TotalLength(Chunks(t1)))],
                            channels := WireAll(s.channels, pairs));
            ChainAt(asked, Run(DeviceEnumerated(s), (t1 + [Status]) + ((t2 + [Status]) + t3), mps),
                    ControlRequests(Used(pairs)), StatusesBeforeStall(t3) + 1)
  {
    var s1 := DeviceEnumerated(s);
    TransferCompletes(s1, t1, mps);
    RunAppend(s1, t1 + [Status], (t2 + [Status]) + t3, mps);
    var s2 := Run(s1, t1 + [Status], mps);
    assert s2.seen == s.seen + [GetConfiguration(9), GetConfiguration(TotalLength(Chunks(t1)))];
    TransferCompletes(s2, t2, mps);
    RunAppend(s2, t2 + [Status], t3, mps);
    var pairs := Parse(Chunks(t2));
    var ep0: Ep0<Callback> :| ep0.slot.None? && ep0.response == [] &&
                              Run(s2, t2 + [Status], mps) == Resume(s2.(ep0 := ep0), OnFull, Chunks(t2));
    var s3 := s2.(ep0 := ep0, channels := WireAll(s2.channels, pairs), requests := ControlRequests(Used(pairs)));
    ClassRequestsAreForwarded(Used(pairs));
    ChainIsExactlyOnce(s3, t3, mps);
  }

  /** Enumerating a composite device whose guest answers with its own descriptors: every channel is
      wired to the endpoints of its CDC function, and the requests name its control interface. */
  lemma CompositeIsEnumerated(
    s: Session, tail: seq<byte>, ps: seq<Part>, t1: seq<Task>, t2: seq<Task>, t3: seq<Task>, mps: nat)
    requires WfSession(s) && PartsOk(ps) && |tail| == 5 && |Configuration(tail, ps)| < 65536
    requires DataOnly(t1) && |Configuration(tail, ps)| >= 9 && Chunks(t1) == Configuration(tail, ps)[..9]
    requires DataOnly(t2) && Chunks(t2) == Configuration(tail, ps)
    ensures var full, fs := Configuration(tail, ps), CdcFunctions(ps);
            var asked := s.(seen := s.seen + [GetConfiguration(9), GetConfiguration(|full|)],
                            channels := WireAll(s.channels, fs));
            ChainAt(asked, Run(DeviceEnumerated(s), (t1 + [Status]) + ((t2 + [Status]) + t3), mps),
                    ControlRequests(Used(fs)), StatusesBeforeStall(t3) + 1)
  {
    HeaderAnnouncesAll(tail, ps);
    DescriptorRoundTrip(tail, ps);
    EnumerationIsExact(s, t1, t2, t3, mps);
  }
}
