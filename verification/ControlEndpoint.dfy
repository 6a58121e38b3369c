/** Endpoint 0 of the USB device: one latched SETUP, its host-to-device payload, the accumulated
    device-to-host response, and the callback that completes the transfer. */
module ControlEndpoint {
  import opened Common

  datatype Recipient = ToDevice | ToInterface | ToEndpoint | ToOther
  datatype RequestType = Standard | Class | Vendor
  datatype Direction = HostToDevice | DeviceToHost

  /** The eight bytes of a SETUP packet, decoded (section 9.3 of USB 2.0). */
  datatype SetupPacket = SetupPacket(
    recipient: Recipient, kind: RequestType, direction: Direction,
    request: byte, value: nat, index: nat, count: nat)

  /** The packet as the guest reads it from the eight SETUP registers, in the order of section 9.3 of
      USB 2.0; before the first one they read zero. */
  function SetupBytes(packet: Option<SetupPacket>): (bytes: seq<byte>)
    ensures |bytes| == 8
  {
    if packet.None? then [0, 0, 0, 0, 0, 0, 0, 0]
    else
      var p := packet.value;
      [RequestTypeByte(p), p.request, p.value % 256, p.value / 256 % 256,
       p.index % 256, p.index / 256 % 256, p.count % 256, p.count / 256 % 256]
  }

  /** Recipient in bits 0 to 4, type in bits 5 and 6, direction in bit 7. */
  function RequestTypeByte(p: SetupPacket): byte {
    (match p.recipient case ToDevice => 0 case ToInterface => 1 case ToEndpoint => 2 case ToOther => 3)
    + (match p.kind case Standard => 0 case Class => 32 case Vendor => 64)
    + (if p.direction.DeviceToHost? then 128 else 0)
  }

  /** The registers tell any two packets with sixteen-bit fields apart. */
  lemma SetupBytesTellApart(p: SetupPacket, q: SetupPacket)
    requires p.value < 65536 && p.index < 65536 && p.count < 65536
    requires q.value < 65536 && q.index < 65536 && q.count < 65536
    ensures SetupBytes(Some(p)) == SetupBytes(Some(q)) ==> p == q
  {
    var a, b := SetupBytes(Some(p)), SetupBytes(Some(q));
    if a == b {
      assert a[0] == b[0] && a[1] == b[1] && a[2] == b[2] && a[3] == b[3];
      assert a[4] == b[4] && a[5] == b[5] && a[6] == b[6] && a[7] == b[7];
      SameHalves(p.value, q.value);
      SameHalves(p.index, q.index);
      SameHalves(p.count, q.count);
      SameRequestType(p, q);
    }
  }

  lemma SameHalves(v: nat, w: nat)
    requires v < 65536 && w < 65536 && v % 256 == w % 256 && v / 256 % 256 == w / 256 % 256
    ensures v == w
  {
  }

  lemma SameRequestType(p: SetupPacket, q: SetupPacket)
    requires RequestTypeByte(p) == RequestTypeByte(q)
    ensures p.recipient == q.recipient && p.kind == q.kind && p.direction == q.direction
  {
  }

  const SET_ADDRESS: byte := 5

  predicate IsSetAddress(p: SetupPacket) {
    p.recipient.ToDevice? && p.kind.Standard? && p.request == SET_ADDRESS
  }

  /** The payload is a byte array or null until the first SETUP. `C` names a completion callback. */
  datatype Ep0<C> = Ep0(
    slot: Option<C>, packet: Option<SetupPacket>, payload: Option<seq<byte>>, offset: nat,
    response: seq<byte>, size: nat, address: nat)

  function PowerUp<C>(): Ep0<C> {
    Ep0(None, None, None, 0, [], 0, 0)
  }

  /** Reset clears everything but the latched packet, which only register reads look at. */
  function ResetEp0<C>(e: Ep0<C>): Ep0<C> {
    PowerUp<C>().(packet := e.packet)
  }

  /** HandleSetupPacket for a packet the guest gets to see. */
  function Latch<C>(e: Ep0<C>, p: SetupPacket, data: Option<seq<byte>>, action: C): Ep0<C> {
    e.(slot := Some(action), packet := Some(p),
       payload := Some(if data.Some? then data.value else []), offset := 0, response := [], size := 0)
  }

  /** HandleSetupPacket for SET_ADDRESS: USBADDR keeps seven bits; the slot is not touched. */
  function TakeAddress<C>(e: Ep0<C>, p: SetupPacket): Ep0<C> {
    e.(address := p.value % 128)
  }

  /** TASKS_STARTEPIN0 with `chunk` in guest memory. */
  function Accumulate<C>(e: Ep0<C>, chunk: seq<byte>): Ep0<C> {
    e.(response := e.response + chunk)
  }

  /** TASKS_EP0STATUS: the callback and the response it is called with, if one is latched. */
  function Finish<C>(e: Ep0<C>): (Ep0<C>, Option<(C, seq<byte>)>) {
    if e.slot.None? then (e, None)
    else (e.(slot := None, response := []), Some((e.slot.value, e.response)))
  }

  /** TASKS_EP0STALL. */
  function Stall<C>(e: Ep0<C>): Ep0<C> {
    e.(slot := None)
  }

  function Remaining<C>(e: Ep0<C>): seq<byte> {
    if e.payload.Some? && e.offset <= |e.payload.value| then e.payload.value[e.offset..] else []
  }

  /** TASKS_EP0RCVOUT: advertise the next part of the data stage. */
  function Advertise<C>(e: Ep0<C>, mps: nat): Ep0<C> {
    if Remaining(e) == [] then e else e.(size := Min(mps, |Remaining(e)|))
  }

  /** TASKS_STARTEPOUT0: the bytes written to guest memory. */
  function TakeOut<C>(e: Ep0<C>, maxCnt: nat, mps: nat): (Ep0<C>, seq<byte>) {
    var chunk := Min(Min(mps, |Remaining(e)|), maxCnt);
    (e.(offset := e.offset + chunk), Remaining(e)[..chunk])
  }

  // ------------------------------------------------------------- runs of one endpoint 0

  datatype Event =
    | HostSetup(packet: SetupPacket, data: Option<seq<byte>>)
    | GuestIn(chunk: seq<byte>)
    | GuestStatus
    | GuestStall
    | GuestRcvOut
    | GuestOut(maxCnt: Bits7)
    | DeviceReset

  /** Callbacks are named by the position of their SETUP in the run; `done` logs each callback
      invocation, `taken` the bytes of the data stage that reached memory since the last SETUP. */
  datatype Log = Log(ep0: Ep0<nat>, done: seq<(nat, seq<byte>)>, taken: seq<byte>)

  function Step(l: Log, at: nat, e: Event, mps: nat): Log {
    match e
    case HostSetup(p, data) =>
      if IsSetAddress(p) then l.(ep0 := TakeAddress(l.ep0, p), done := l.done + [(at, [])])
      else l.(ep0 := Latch(l.ep0, p, data, at), taken := [])
    case GuestIn(chunk) => l.(ep0 := Accumulate(l.ep0, chunk))
    case GuestStatus =>
      var (ep0, fired) := Finish(l.ep0);
      l.(ep0 := ep0, done := if fired.Some? then l.done + [fired.value] else l.done)
    case GuestStall => l.(ep0 := Stall(l.ep0))
    case GuestRcvOut => l.(ep0 := Advertise(l.ep0, mps))
    case GuestOut(maxCnt) =>
      var (ep0, data) := TakeOut(l.ep0, maxCnt, mps);
      l.(ep0 := ep0, taken := l.taken + data)
    case DeviceReset => l.(ep0 := ResetEp0(l.ep0), taken := [])
  }

  function Run(es: seq<Event>, mps: nat): Log {
    if es == [] then Log(PowerUp(), [], [])
    else Step(Run(es[..|es| - 1], mps), |es| - 1, es[|es| - 1], mps)
  }

  // ------------------------------------------------- what a control transfer should get

  /** How a forwarded SETUP ends, read off the events that follow it. */
  datatype Fate = Open(sofar: seq<byte>) | Completed(response: seq<byte>) | Abandoned

  predicate Supersedes(e: Event) {
    (e.HostSetup? && !IsSetAddress(e.packet)) || e.GuestStall? || e.DeviceReset?
  }

  /** One more event in the life of a transfer. */
  function Advance(f: Fate, e: Event): Fate {
    if !f.Open? then f
    else if e.GuestStatus? then Completed(f.sofar)
    else if Supersedes(e) then Abandoned
    else if e.GuestIn? then Open(f.sofar + e.chunk)
    else f
  }

  function FateOf(after: seq<Event>): Fate {
    if after == [] then Open([]) else Advance(FateOf(after[..|after| - 1]), after[|after| - 1])
  }

  /** The callback invocations owed to `setup`, given what became of its transfer. */
  function OwedFor(setup: Event, f: Fate): seq<seq<byte>> {
    if !setup.HostSetup? then []
    else if IsSetAddress(setup.packet) then [[]]
    else if f.Completed? then [f.response]
    else []
  }

  predicate OpenFor(setup: Event, f: Fate) {
    setup.HostSetup? && !IsSetAddress(setup.packet) && f.Open?
  }

  /** The responses handed to callback `i`, in order. */
  function Answers(done: seq<(nat, seq<byte>)>, i: nat): seq<seq<byte>> {
    if done == [] then []
    else
      Answers(done[..|done| - 1], i) + (if done[|done| - 1].0 == i then [done[|done| - 1].1] else [])
  }

  /** Callback `i` has been called as owed; the slot holds it exactly while its transfer is open,
      together with what the guest has sent for it. */
  predicate TracksFate(setup: Event, f: Fate, answers: seq<seq<byte>>, ep0: Ep0<nat>, i: nat) {
    && answers == OwedFor(setup, f)
    && (OpenFor(setup, f) <==> ep0.slot == Some(i))
    && (ep0.slot == Some(i) ==> f == Open(ep0.response))
  }

  /** The SETUP at position `i` got what the events after it say. */
  predicate Tracks(es: seq<Event>, l: Log, i: nat)
    requires i < |es|
  {
    TracksFate(es[i], FateOf(es[i + 1..]), Answers(l.done, i), l.ep0, i)
  }

  ghost predicate TracksAll(es: seq<Event>, l: Log) {
    && (forall i: nat | i < |es| :: Tracks(es, l, i))
    && (forall i: nat | i >= |es| :: Answers(l.done, i) == [] && l.ep0.slot != Some(i))
  }

  /** The callback one step invokes, and its response. */
  function Invoked(l: Log, at: nat, e: Event): Option<(nat, seq<byte>)> {
    if e.HostSetup? && IsSetAddress(e.packet) then Some((at, []))
    else if e.GuestStatus? then Finish(l.ep0).1
    else None
  }

  lemma DoneStep(l: Log, at: nat, e: Event, mps: nat)
    ensures Step(l, at, e, mps).done ==
            if Invoked(l, at, e).Some? then l.done + [Invoked(l, at, e).value] else l.done
  {
  }

  /** What one step adds to the answers of callback `i`. */
  function Extended(answers: seq<seq<byte>>, invoked: Option<(nat, seq<byte>)>, i: nat): seq<seq<byte>> {
    if invoked.Some? && invoked.value.0 == i then answers + [invoked.value.1] else answers
  }

  lemma AnswersStep(l: Log, at: nat, e: Event, mps: nat, i: nat)
    ensures Answers(Step(l, at, e, mps).done, i) == Extended(Answers(l.done, i), Invoked(l, at, e), i)
  {
    DoneStep(l, at, e, mps);
    var invoked := Invoked(l, at, e);
    if invoked.Some? {
      AnswersSnoc(l.done, invoked.value, i);
    }
  }

  lemma AnswersSnoc(done: seq<(nat, seq<byte>)>, entry: (nat, seq<byte>), i: nat)
    ensures Answers(done + [entry], i) == Extended(Answers(done, i), Some(entry), i)
  {
    assert (done + [entry])[..|done|] == done;
    assert Answers(done, i) + [] == Answers(done, i);
  }

  lemma FateStep(setup: Event, f: Fate, l: Log, at: nat, e: Event, mps: nat, i: nat)
    requires TracksFate(setup, f, Answers(l.done, i), l.ep0, i) && i != at
    ensures var t := Step(l, at, e, mps); TracksFate(setup, Advance(f, e), Answers(t.done, i), t.ep0, i)
  {
    var answers := Answers(l.done, i);
    AnswersStep(l, at, e, mps, i);
    if e.GuestStatus? {
      FateOnStatus(setup, f, answers, l.ep0, i);
    } else {
      FateOnOther(setup, f, answers, l, at, e, mps, i);
    }
  }

  lemma FateOnStatus(setup: Event, f: Fate, answers: seq<seq<byte>>, ep0: Ep0<nat>, i: nat)
    requires TracksFate(setup, f, answers, ep0, i)
    ensures var (after, fired) := Finish(ep0);
            TracksFate(setup, Advance(f, GuestStatus), Extended(answers, fired, i), after, i)
  {
  }

  lemma FateOnOther(
    setup: Event, f: Fate, answers: seq<seq<byte>>, l: Log, at: nat, e: Event, mps: nat, i: nat)
    requires TracksFate(setup, f, answers, l.ep0, i) && !e.GuestStatus? && i != at
    ensures TracksFate(setup, Advance(f, e), answers, Step(l, at, e, mps).ep0, i)
  {
  }

  /** One more event moves an earlier transfer along. */
  lemma TracksEarlier(before: seq<Event>, e: Event, l: Log, mps: nat, i: nat)
    requires i < |before| && Tracks(before, l, i)
    ensures Tracks(before + [e], Step(l, |before|, e, mps), i)
  {
    FateStep(before[i], FateOf(before[i + 1..]), l, |before|, e, mps, i);
    var after := (before + [e])[i + 1..];
    assert after == before[i + 1..] + [e] && after[..|after| - 1] == before[i + 1..];
  }

  /** The event itself, if it is a SETUP, starts out as owed. */
  lemma TracksNewest(before: seq<Event>, e: Event, l: Log, mps: nat)
    requires Answers(l.done, |before|) == [] && l.ep0.slot != Some(|before|)
    ensures Tracks(before + [e], Step(l, |before|, e, mps), |before|)
  {
    assert (before + [e])[|before| + 1..] == [];
    AnswersStep(l, |before|, e, mps, |before|);
    NewestFate(l, |before|, e, mps);
  }

  lemma NewestFate(l: Log, at: nat, e: Event, mps: nat)
    requires l.ep0.slot != Some(at)
    ensures TracksFate(e, Open([]), Extended([], Invoked(l, at, e), at), Step(l, at, e, mps).ep0, at)
  {
  }

  lemma NothingForLater(before: seq<Event>, e: Event, l: Log, mps: nat, i: nat)
    requires i > |before| && Answers(l.done, i) == [] && l.ep0.slot != Some(i)
    ensures var t := Step(l, |before|, e, mps); Answers(t.done, i) == [] && t.ep0.slot != Some(i)
  {
    AnswersStep(l, |before|, e, mps, i);
  }

  lemma TracksStep(before: seq<Event>, e: Event, l: Log, mps: nat)
    requires TracksAll(before, l)
    ensures TracksAll(before + [e], Step(l, |before|, e, mps))
  {
    var es, t := before + [e], Step(l, |before|, e, mps);
    assert Answers(l.done, |before|) == [] && l.ep0.slot != Some(|before|);
    forall i: nat | i < |es| ensures Tracks(es, t, i) {
      if i < |before| {
        assert Tracks(before, l, i);
        TracksEarlier(before, e, l, mps, i);
      } else {
        TracksNewest(before, e, l, mps);
      }
    }
    forall i: nat | i >= |es| ensures Answers(t.done, i) == [] && t.ep0.slot != Some(i) {
      assert Answers(l.done, i) == [];
      NothingForLater(before, e, l, mps, i);
    }
  }

  /** Every SETUP is answered exactly as its own later events say: at most once, with exactly the
      chunks the guest sent for it; never after a stall, a newer SETUP or a reset. SET_ADDRESS is
      answered at once and ends no other transfer. */
  lemma {:induction false} TransfersAnsweredExactly(es: seq<Event>, mps: nat)
    ensures TracksAll(es, Run(es, mps))
  {
    if es != [] {
      var before, e := es[..|es| - 1], es[|es| - 1];
      TransfersAnsweredExactly(before, mps);
      TracksStep(before, e, Run(before, mps), mps);
      assert es == before + [e];
    }
  }

  /** Which SETUPs the guest never sees: in every run, request 5 of standard type to the device is
      answered at once and leaves the open transfer alone; any other SETUP invokes nothing and becomes
      the open transfer, with its packet and payload. */
  lemma OnlySetAddressIsHidden(es: seq<Event>, p: SetupPacket, data: Option<seq<byte>>, mps: nat)
    ensures var l, t := Run(es, mps), Run(es + [HostSetup(p, data)], mps);
            if p.recipient == ToDevice && p.kind == Standard && p.request == 5 then
              && t.done == l.done + [(|es|, [])] && t.taken == l.taken
              && t.ep0 == l.ep0.(address := t.ep0.address) && t.ep0.address == p.value % 128
            else
              && t.done == l.done && t.taken == [] && t.ep0.address == l.ep0.address
              && t.ep0.slot == Some(|es|) && t.ep0.packet == Some(p) && t.ep0.response == []
              && t.ep0.payload == Some(if data.Some? then data.value else [])
              && t.ep0.offset == 0 && t.ep0.size == 0
  {
    RunSnoc(es, HostSetup(p, data), mps);
  }

  /** The device address (section 9.4.6 of USB 2.0): the last SET_ADDRESS since power-up or reset. */
  function LastAddress(es: seq<Event>): nat {
    if es == [] || es[|es| - 1].DeviceReset? then 0
    else if es[|es| - 1].HostSetup? && IsSetAddress(es[|es| - 1].packet) then es[|es| - 1].packet.value % 128
    else LastAddress(es[..|es| - 1])
  }

  lemma {:induction false} AddressIsTheLastSet(es: seq<Event>, mps: nat)
    ensures Run(es, mps).ep0.address == LastAddress(es)
  {
    if es != [] {
      AddressIsTheLastSet(es[..|es| - 1], mps);
    }
  }

  // ------------------------------------------------------------- the OUT data stage

  /** The payload of the SETUP that the device last forwarded, a null payload counting as empty;
      None before the first one and after a reset. */
  function LastPayload(es: seq<Event>): Option<seq<byte>> {
    if es == [] then None else NextPayload(LastPayload(es[..|es| - 1]), es[|es| - 1])
  }

  function NextPayload(payload: Option<seq<byte>>, e: Event): Option<seq<byte>> {
    if e.DeviceReset? then None
    else if e.HostSetup? && !IsSetAddress(e.packet) then Some(if e.data.Some? then e.data.value else [])
    else payload
  }

  /** What reached memory since the SETUP is the part of its payload before the offset. */
  predicate DataStage(l: Log, payload: Option<seq<byte>>, mps: nat) {
    && l.ep0.size <= mps && l.ep0.payload == payload
    && (payload.None? ==> l.taken == [])
    && (payload.Some? ==> l.ep0.offset <= |payload.value| && l.taken == payload.value[..l.ep0.offset])
  }

  lemma StepKeepsDataStage(l: Log, payload: Option<seq<byte>>, at: nat, e: Event, mps: nat)
    requires DataStage(l, payload, mps)
    ensures DataStage(Step(l, at, e, mps), NextPayload(payload, e), mps)
  {
  }

  /** Whatever mix of tasks the guest runs, it takes exactly a prefix of the payload of the SETUP
      the device last forwarded. */
  lemma {:induction false} DataStageIsExact(es: seq<Event>, mps: nat)
    ensures DataStage(Run(es, mps), LastPayload(es), mps)
  {
    if es != [] {
      var before := es[..|es| - 1];
      DataStageIsExact(before, mps);
      StepKeepsDataStage(Run(before, mps), LastPayload(before), |before|, es[|es| - 1], mps);
    }
  }

  /** The value the guest reads from SIZE.EPOUT[0]. */
  function SizeRegister<C>(e: Ep0<C>): Bits7 { ToBits7(e.size) }

  /** In every run, RCVOUT makes SIZE.EPOUT[0] read the length of the next packet of what is left. */
  ghost predicate RcvOutReadsTheLength(mps: nat) {
    forall es :: ReadsTheLengthAfter(es, mps)
  }

  predicate ReadsTheLengthAfter(es: seq<Event>, mps: nat) {
    var left := Remaining(Run(es, mps).ep0);
    left != [] ==> SizeRegister(Run(es + [GuestRcvOut], mps).ep0) == Min(mps, |left|)
  }

  /** It does so exactly when packets are shorter than 128 bytes: a SETUP with 128 bytes of payload
      reads as nothing. */
  lemma AdvertisedSizeIsRead(mps: nat)
    ensures RcvOutReadsTheLength(mps) <==> mps < 128
  {
    if mps < 128 {
      forall es ensures ReadsTheLengthAfter(es, mps) {
        NarrowPayloadIsRead(es, mps);
      }
    } else {
      var es := WidePayloadReadsAsNothing(mps);
    }
  }

  lemma NarrowPayloadIsRead(es: seq<Event>, mps: nat)
    requires mps < 128
    ensures ReadsTheLengthAfter(es, mps)
  {
    RunSnoc(es, GuestRcvOut, mps);
    if Remaining(Run(es, mps).ep0) != [] {
      AdvertiseIsRead(Run(es, mps).ep0, mps);
    }
  }

  lemma AdvertiseIsRead<C>(e: Ep0<C>, mps: nat)
    requires mps < 128 && Remaining(e) != []
    ensures SizeRegister(Advertise(e, mps)) == Min(mps, |Remaining(e)|)
  {
  }

  lemma RunSnoc(es: seq<Event>, e: Event, mps: nat)
    ensures Run(es + [e], mps) == Step(Run(es, mps), |es|, e, mps)
  {
    assert (es + [e])[..|es|] == es;
  }

  lemma WidePayloadReadsAsNothing(mps: nat) returns (es: seq<Event>)
    requires mps >= 128
    ensures es == [HostSetup(SetupPacket(ToDevice, Vendor, HostToDevice, 0, 0, 0, 128), Some(Repeat(0, 128)))]
    ensures SizeRegister(Run(es + [GuestRcvOut], mps).ep0) == 0 && !ReadsTheLengthAfter(es, mps)
  {
    var e := HostSetup(SetupPacket(ToDevice, Vendor, HostToDevice, 0, 0, 0, 128), Some(Repeat(0, 128)));
    es := [] + [e];
    RunSnoc([], e, mps);
    RunSnoc(es, GuestRcvOut, mps);
  }

  function Rounds<C>(e: Ep0<C>, maxCnts: seq<Bits7>, mps: nat): (Ep0<C>, seq<byte>)
    decreases |maxCnts|
  {
    if maxCnts == [] then (e, [])
    else
      var (e', data) := TakeOut(Advertise(e, mps), maxCnts[0], mps);
      var (e'', rest) := Rounds(e', maxCnts[1..], mps);
      (e'', data + rest)
  }

  /** Each round's MAXCNT covers what SIZE.EPOUT[0] reads after its RCVOUT. */
  predicate AllCovered<C>(e: Ep0<C>, maxCnts: seq<Bits7>, mps: nat)
    decreases |maxCnts|
  {
    maxCnts == [] ||
    (SizeRegister(Advertise(e, mps)) <= maxCnts[0] &&
     AllCovered(TakeOut(Advertise(e, mps), maxCnts[0], mps).0, maxCnts[1..], mps))
  }

  predicate InStage<C>(e: Ep0<C>) {
    e.payload.Some? && e.offset <= |e.payload.value|
  }

  lemma RoundTakes<C>(e: Ep0<C>, maxCnt: Bits7, mps: nat)
    requires InStage(e)
    ensures var (e', data) := TakeOut(Advertise(e, mps), maxCnt, mps);
            InStage(e') && data + Remaining(e') == Remaining(e)
  {
    SplitAt(e.payload.value, e.offset, Min(Min(mps, |Remaining(e)|), maxCnt));
  }

  lemma SplitAt(payload: seq<byte>, offset: nat, n: nat)
    requires offset + n <= |payload|
    ensures payload[offset..][..n] == payload[offset..offset + n]
    ensures payload[offset..][..n] + payload[offset + n..] == payload[offset..]
  {
    assert payload[offset..][n..] == payload[offset + n..];
    TakeDrop(payload[offset..], n);
  }

  lemma Glue(first: seq<byte>, second: seq<byte>, tail: seq<byte>, middle: seq<byte>, whole: seq<byte>)
    requires second + tail == middle && first + middle == whole
    ensures first + second + tail == whole
  {
    Assoc(first, second, tail);
  }

  /** Rounds of RCVOUT and STARTEPOUT0 deliver the payload in order, whatever MAXCNT they use. */
  lemma {:induction false} RoundsKeepOrder<C>(e: Ep0<C>, maxCnts: seq<Bits7>, mps: nat)
    requires InStage(e)
    ensures Rounds(e, maxCnts, mps).1 + Remaining(Rounds(e, maxCnts, mps).0) == Remaining(e)
    decreases |maxCnts|
  {
    if maxCnts != [] {
      RoundTakes(e, maxCnts[0], mps);
      var (e1, data) := TakeOut(Advertise(e, mps), maxCnts[0], mps);
      RoundsKeepOrder(e1, maxCnts[1..], mps);
      var (e2, rest) := Rounds(e1, maxCnts[1..], mps);
      Glue(data, rest, Remaining(e2), Remaining(e1), Remaining(e));
    }
  }

  lemma RoundShrinks<C>(e: Ep0<C>, maxCnt: Bits7, mps: nat)
    requires InStage(e)
    ensures var e', left := TakeOut(Advertise(e, mps), maxCnt, mps).0, |Remaining(e)|;
            InStage(e') && |Remaining(e')| == left - Min(Min(mps, left), maxCnt)
  {
  }

  /** The data stage is over exactly when there were at least as many rounds as packets left. */
  predicate DoneInTime<C>(e: Ep0<C>, maxCnts: seq<Bits7>, mps: nat)
    requires mps > 0
  {
    Remaining(Rounds(e, maxCnts, mps).0) == [] <==> |maxCnts| >= CeilDiv(|Remaining(e)|, mps)
  }

  lemma {:induction false} RoundsSuffice<C>(e: Ep0<C>, maxCnts: seq<Bits7>, mps: nat)
    requires 0 < mps < 128 && InStage(e) && AllCovered(e, maxCnts, mps)
    ensures DoneInTime(e, maxCnts, mps)
    decreases |maxCnts|
  {
    if maxCnts != [] {
      var e1 := CoveredRound(e, maxCnts, mps);
      RoundsSuffice(e1, maxCnts[1..], mps);
    }
  }

  /** A covered round takes one whole packet, if one is left. */
  lemma CoveredRound<C>(e: Ep0<C>, maxCnts: seq<Bits7>, mps: nat) returns (e1: Ep0<C>)
    requires 0 < mps < 128 && InStage(e) && maxCnts != [] && AllCovered(e, maxCnts, mps)
    ensures InStage(e1) && AllCovered(e1, maxCnts[1..], mps)
    ensures Rounds(e, maxCnts, mps).0 == Rounds(e1, maxCnts[1..], mps).0
    ensures CeilDiv(|Remaining(e1)|, mps) == CeilDiv(|Remaining(e)|, mps) - (if Remaining(e) == [] then 0 else 1)
  {
    e1 := TakeOut(Advertise(e, mps), maxCnts[0], mps).0;
    RoundShrinks(e, maxCnts[0], mps);
    var left := |Remaining(e)|;
    assert |Remaining(e1)| == left - Min(mps, left);
    CeilStep(left, mps);
  }

  lemma CeilStep(left: nat, mps: nat)
    requires mps > 0
    ensures CeilDiv(left - Min(mps, left), mps) == CeilDiv(left, mps) - (if left == 0 then 0 else 1)
  {
  }

  /** From a forwarded SETUP on, that many covered rounds bring its whole payload to memory, and fewer
      bring a part of it. */
  lemma WholePayloadArrives<C>(
    e: Ep0<C>, p: SetupPacket, payload: seq<byte>, action: C, maxCnts: seq<Bits7>, mps: nat)
    requires 0 < mps < 128 && AllCovered(Latch(e, p, Some(payload), action), maxCnts, mps)
    ensures var arrived := Rounds(Latch(e, p, Some(payload), action), maxCnts, mps).1;
            arrived <= payload && (arrived == payload <==> |maxCnts| >= CeilDiv(|payload|, mps))
  {
    var start := Latch(e, p, Some(payload), action);
    assert payload[0..] == payload;
    RoundsKeepOrder(start, maxCnts, mps);
    RoundsSuffice(start, maxCnts, mps);
    var (end, arrived) := Rounds(start, maxCnts, mps);
    assert arrived + Remaining(end) == payload;
  }

  /** A guest that covers the size it reads is done in time exactly when packets are shorter than
      128 bytes. */
  lemma CoveredRoundsSuffice(mps: nat)
    requires mps > 0
    ensures (forall e: Ep0<nat>, maxCnts :: InStage(e) && AllCovered(e, maxCnts, mps) ==> DoneInTime(e, maxCnts, mps))
            <==> mps < 128
  {
    if mps < 128 {
      forall e: Ep0<nat>, maxCnts | InStage(e) && AllCovered(e, maxCnts, mps) ensures DoneInTime(e, maxCnts, mps) {
        RoundsSuffice(e, maxCnts, mps);
      }
    } else {
      var e := PowerUp<nat>().(payload := Some(Repeat(0, 128)));
      var maxCnts: seq<Bits7> := [0];
      assert Remaining(e) == Repeat(0, 128) && AllCovered(e, maxCnts, mps);
      assert Remaining(Rounds(e, maxCnts, mps).0) == Repeat(0, 128) && CeilDiv(128, mps) == 1;
      assert !DoneInTime(e, maxCnts, mps);
    }
  }
}
