/** From the terminal of one bridge channel to the guest's memory: the channel and the device run side
    by side, and every WriteData of the channel is a host write to its bulk OUT endpoint
    (scripts/lib/renode/platforms/models/DualCdcAcmBridge.cs:415-456 and
    scripts/lib/renode/platforms/models/NRF_USBD_Full.cs:176-259). */
module TerminalToGuest {
  import opened Common
  import opened BulkOut
  import B = DualCdcAcmBridge
  import C = BridgeChannel
  import W = WakeupRun

  datatype World = World(channel: C.Sys, device: W.Sys)

  datatype Event = Channel(c: C.Event) | Device(d: W.Event)

  ghost predicate Wf(w: World) { W.WfSys(w.device) }

  /** What a step of the channel passes to WriteData. */
  function Passed(s: C.Sys, e: C.Event): seq<byte> {
    match e
    case WriteSends(i) => if i < |s.writing| then [s.writing[i]] else []
    case WireSends => s.flush
    case _ => []
  }

  /** What the device sees of a step; only endpoints 1 to 7 have a bulk OUT path. */
  function Shown(w: World, e: Event): seq<W.Event> {
    match e
    case Channel(c) =>
      var n, data := w.channel.chan.outEndpoint, Passed(w.channel, c);
      if 1 <= n < 8 && data != [] then [W.HostWrites(n, data)] else []
    case Device(d) => [d]
  }

  function Step(w: World, e: Event): (t: World)
    requires Wf(w)
    ensures Wf(t)
  {
    World(if e.Channel? then C.Step(w.channel, e.c) else w.channel,
          if Shown(w, e) == [] then w.device else W.Step(w.device, Shown(w, e)[0]))
  }

  /** With no other thread under way, Bridge.HostByte is three steps: the channel takes the byte, passes
      it on, and the device raises EPDATA if it presented a chunk. */
  lemma HostByteIsThreeSteps(w: World, value: byte)
    requires Wf(w) && w.channel.writing == [] && w.device.raises == 0
    ensures var locked := Step(w, Channel(C.WriteLocked(value)));
            var t := Step(Step(locked, Channel(C.WriteSends(0))), Device(W.RaiseEpData));
            var (c, data) := C.Accept(w.channel.chan, value);
            && t.channel.chan == c && t.channel.writing == [] && t.device.raises == 0
            && t.device.dev == B.AfterHostData(w.device.dev, c.outEndpoint, data)
            && t.device.guest == w.device.guest
  {
  }

  /** So is Bridge.WireOne: the channel is wired, its flush is passed on, EPDATA is raised. */
  lemma WireOneIsThreeSteps(w: World, inEndpoint: nat, outEndpoint: nat)
    requires Wf(w) && w.channel.flush == [] && w.device.raises == 0
    ensures var locked := Step(w, Channel(C.WireLocked(inEndpoint, outEndpoint)));
            var t := Step(Step(locked, Channel(C.WireSends)), Device(W.RaiseEpData));
            var (c, flush) := C.WireUp(w.channel.chan, inEndpoint, outEndpoint);
            && t.channel.chan == c && t.channel.flush == [] && t.device.raises == 0
            && t.device.dev == B.AfterHostData(w.device.dev, c.outEndpoint, flush)
            && t.device.guest == w.device.guest
  {
  }

  function Run(c: C.Chan, mps: nat, es: seq<Event>): (t: World)
    requires mps > 0
    ensures Wf(t)
  {
    if es == [] then World(C.Init(c), W.Init(mps)) else Step(Run(c, mps, es[..|es| - 1]), es[|es| - 1])
  }

  function ChannelEvents(es: seq<Event>): seq<C.Event> {
    if es == [] then []
    else ChannelEvents(es[..|es| - 1]) + (if es[|es| - 1].Channel? then [es[|es| - 1].c] else [])
  }

  function DeviceEvents(c: C.Chan, mps: nat, es: seq<Event>): seq<W.Event>
    requires mps > 0
  {
    if es == [] then []
    else DeviceEvents(c, mps, es[..|es| - 1]) + Shown(Run(c, mps, es[..|es| - 1]), es[|es| - 1])
  }

  /** The two halves of a run are runs of the channel and of the device. */
  lemma {:induction false} HalvesAreRuns(c: C.Chan, mps: nat, es: seq<Event>)
    requires mps > 0
    ensures Run(c, mps, es).channel == C.Run(C.Init(c), ChannelEvents(es))
    ensures Run(c, mps, es).device == W.Run(W.Init(mps), DeviceEvents(c, mps, es))
  {
    if es != [] {
      var front := es[..|es| - 1];
      HalvesAreRuns(c, mps, front);
      ChannelSnoc(C.Init(c), ChannelEvents(front), es[|es| - 1]);
      DeviceSnoc(W.Init(mps), DeviceEvents(c, mps, front), Shown(Run(c, mps, front), es[|es| - 1]));
    }
  }

  lemma ChannelSnoc(s: C.Sys, front: seq<C.Event>, e: Event)
    ensures C.Run(s, front + (if e.Channel? then [e.c] else [])) ==
            if e.Channel? then C.Step(C.Run(s, front), e.c) else C.Run(s, front)
  {
    if e.Channel? {
      assert (front + [e.c])[..|front|] == front;
    } else {
      assert front + [] == front;
    }
  }

  lemma DeviceSnoc(s: W.Sys, front: seq<W.Event>, shown: seq<W.Event>)
    requires W.WfSys(s) && |shown| <= 1
    ensures W.Run(s, front + shown) == if shown == [] then W.Run(s, front) else W.Step(W.Run(s, front), shown[0])
  {
    if shown == [] {
      assert front + shown == front;
    } else {
      assert (front + shown)[..|front|] == front;
    }
  }

  /** Wiring chooses endpoint `n`, and the channel is the only one that writes to it. */
  predicate ConnectedTo(c: C.Chan, e: Event, n: EpNum) {
    && (e.Channel? && e.c.WireLocked? ==> C.Choose(c.outOverride, e.c.outEndpoint) == n)
    && (e.Device? && e.d.HostWrites? ==> e.d.n != n)
  }

  predicate AllConnectedTo(c: C.Chan, es: seq<Event>, n: EpNum) {
    forall i :: 0 <= i < |es| ==> ConnectedTo(c, es[i], n)
  }

  /** The channel sends to endpoint `n` and to no other. */
  predicate SendsTo(s: C.Sys, c: C.Chan, n: EpNum) {
    && s.chan.outOverride == c.outOverride && s.lost == []
    && if s.chan.wired then s.chan.outEndpoint == n else s.writing == [] && s.flush == []
  }

  lemma {:induction false} OnlyOneEndpoint(c: C.Chan, mps: nat, es: seq<Event>, n: EpNum)
    requires mps > 0 && AllConnectedTo(c, es, n)
    ensures SendsTo(Run(c, mps, es).channel, c, n)
  {
    if es != [] {
      assert ConnectedTo(c, es[|es| - 1], n);
      OnlyOneEndpoint(c, mps, es[..|es| - 1], n);
    }
  }

  /** How much the channel had sent when the device was last reset. */
  function SentAtReset(c: C.Chan, mps: nat, es: seq<Event>): nat
    requires mps > 0
  {
    if es == [] then 0
    else if es[|es| - 1].Device? && es[|es| - 1].d.DeviceResets? then |Run(c, mps, es[..|es| - 1]).channel.sent|
    else SentAtReset(c, mps, es[..|es| - 1])
  }

  lemma PassedIsSent(s: C.Sys, e: C.Event, c: C.Chan, n: EpNum)
    requires SendsTo(s, c, n)
    ensures C.Step(s, e).sent == s.sent + Passed(s, e)
    ensures Passed(s, e) != [] ==> s.chan.outEndpoint == n
  {
    assert s.sent + [] == s.sent;
  }

  lemma StreamSnoc(front: seq<W.Event>, e: W.Event, n: EpNum)
    ensures W.HostStream(front + [e], n) ==
            if e.DeviceResets? then []
            else W.HostStream(front, n) + (if e.HostWrites? && e.n == n then e.data else [])
  {
    assert (front + [e])[..|front|] == front;
  }

  lemma ChannelStepStreams(w: World, b: C.Event, front: seq<W.Event>, k: nat, c: C.Chan, n: EpNum)
    requires Wf(w) && SendsTo(w.channel, c, n) && k <= |w.channel.sent|
    requires W.HostStream(front, n) == w.channel.sent[k..]
    ensures W.HostStream(front + Shown(w, Channel(b)), n) == C.Step(w.channel, b).sent[k..]
  {
    var data := Passed(w.channel, b);
    PassedIsSent(w.channel, b, c, n);
    MoreAfter(w.channel.sent, k, data);
    if data != [] {
      StreamSnoc(front, W.HostWrites(n, data), n);
    } else {
      assert front + [] == front && w.channel.sent[k..] + [] == w.channel.sent[k..];
    }
  }

  /** The device has been written exactly what the channel sent since the last reset. */
  lemma {:induction false} SentIsTheHostStream(c: C.Chan, mps: nat, es: seq<Event>, n: EpNum)
    requires mps > 0 && AllConnectedTo(c, es, n)
    ensures SentAtReset(c, mps, es) <= |Run(c, mps, es).channel.sent|
    ensures W.HostStream(DeviceEvents(c, mps, es), n) == Run(c, mps, es).channel.sent[SentAtReset(c, mps, es)..]
  {
    if es != [] {
      var front, e := es[..|es| - 1], es[|es| - 1];
      assert ConnectedTo(c, es[|es| - 1], n) && forall i :: 0 <= i < |front| ==> front[i] == es[i];
      SentIsTheHostStream(c, mps, front, n);
      OnlyOneEndpoint(c, mps, front, n);
      var w, seen := Run(c, mps, front), DeviceEvents(c, mps, front);
      match e
      case Channel(b) =>
        PassedIsSent(w.channel, b, c, n);
        ChannelStepStreams(w, b, seen, SentAtReset(c, mps, front), c, n);
      case Device(d) =>
        StreamSnoc(seen, d, n);
        assert W.HostStream(seen, n) + [] == W.HostStream(seen, n);
    }
  }

  lemma MoreAfter(sent: seq<byte>, k: nat, data: seq<byte>)
    requires k <= |sent|
    ensures (sent + data)[k..] == sent[k..] + data
  {
  }

  /** For any writers: what a faithful guest got in memory, and what the device still holds, is in order
      what the channel sent since the device was last reset. */
  lemma SentReachesTheGuest(c: C.Chan, mps: nat, es: seq<Event>, n: EpNum)
    requires 0 < mps < 128 && AllConnectedTo(c, es, n) && W.Faithful(W.Init(mps), DeviceEvents(c, mps, es))
    ensures var w, k := Run(c, mps, es), SentAtReset(c, mps, es);
            && k <= |w.channel.sent|
            && w.channel.sent[k..] == Delivered(w.device.retired[n]) + Pending(w.device.dev.out[n])
            && (W.Quiescent(w.device) ==> Delivered(w.device.retired[n]) == w.channel.sent[k..])
  {
    HalvesAreRuns(c, mps, es);
    SentIsTheHostStream(c, mps, es, n);
    W.FaithfulGuestGetsTheStream(mps, DeviceEvents(c, mps, es), n);
  }

  /** Nothing is on its way in the channel or in the device. */
  predicate AtRest(w: World) {
    w.channel.writing == w.channel.flush == w.channel.chan.pending == [] && W.Quiescent(w.device)
  }

  lemma {:induction false} ChoicesAreConnected(c: C.Chan, es: seq<Event>, n: EpNum)
    requires AllConnectedTo(c, es, n)
    ensures C.AllChoicesExist(c, ChannelEvents(es))
  {
    if es != [] {
      var front, e := es[..|es| - 1], es[|es| - 1];
      assert ConnectedTo(c, es[|es| - 1], n) && forall i :: 0 <= i < |front| ==> front[i] == es[i];
      ChoicesAreConnected(c, front, n);
      assert e.Channel? ==> C.ChoiceExists(c, e.c);
    }
  }

  /** With one orderly writer the bytes typed into the terminal are, in order, those lost to resets of
      the device, those in guest memory, and those waiting in the device and in the channel; at rest and
      without a reset guest memory has received exactly what was typed. */
  lemma TypedBytesReachTheGuest(c: C.Chan, mps: nat, es: seq<Event>, n: EpNum)
    requires 0 < mps < 128 && AllConnectedTo(c, es, n) && W.Faithful(W.Init(mps), DeviceEvents(c, mps, es))
    requires C.AllOrderly(C.Init(c), ChannelEvents(es))
    ensures var w, k := Run(c, mps, es), SentAtReset(c, mps, es);
            var waiting := w.channel.flush + w.channel.writing + w.channel.chan.pending;
            && k <= |w.channel.sent|
            && C.Written(ChannelEvents(es)) ==
               w.channel.sent[..k] + (Delivered(w.device.retired[n]) + Pending(w.device.dev.out[n])) + waiting
            && (AtRest(w) && k == 0 ==> Delivered(w.device.retired[n]) == C.Written(ChannelEvents(es)))
  {
    var w, k, cs := Run(c, mps, es), SentAtReset(c, mps, es), ChannelEvents(es);
    HalvesAreRuns(c, mps, es);
    ChoicesAreConnected(c, es, n);
    C.OrderlyRunsKeepOrder(c, cs);
    C.AcceptedAreWritten(c, cs);
    SentReachesTheGuest(c, mps, es, n);
    Together(w.channel.sent, k, w.channel.flush, w.channel.writing, w.channel.chan.pending);
  }

  lemma Together(sent: seq<byte>, k: nat, a: seq<byte>, b: seq<byte>, c: seq<byte>)
    requires k <= |sent|
    ensures sent + a + b + c == sent[..k] + sent[k..] + (a + b + c)
  {
  }

  /** With one writer that may also write around the flush, guest memory gets at rest the bytes written
      in the gap, then the flushed ones, then the rest. */
  lemma GapWritesReachTheGuestFirst(c: C.Chan, mps: nat, es: seq<Event>, n: EpNum)
    requires 0 < mps < 128 && AllConnectedTo(c, es, n) && W.Faithful(W.Init(mps), DeviceEvents(c, mps, es))
    requires C.AllOneWriter(C.Init(c), ChannelEvents(es)) && SentAtReset(c, mps, es) == 0
    ensures var w, p := Run(c, mps, es), C.PartsOf(c, ChannelEvents(es));
            AtRest(w) ==>
              && C.Written(ChannelEvents(es)) == p.early + p.overtaking + p.late
              && Delivered(w.device.retired[n]) == p.overtaking + p.early + p.late
  {
    var w, cs := Run(c, mps, es), ChannelEvents(es);
    HalvesAreRuns(c, mps, es);
    ChoicesAreConnected(c, es, n);
    C.SingleWriterOrder(c, cs);
    C.AcceptedAreWritten(c, cs);
    SentReachesTheGuest(c, mps, es, n);
    if AtRest(w) {
      AllSent(w.channel, C.PartsOf(c, cs));
      assert w.channel.sent[0..] == w.channel.sent;
    }
  }

  lemma AllSent(s: C.Sys, p: C.Parts)
    requires C.FlushedBetween(s, p) && s.writing == s.flush == s.chan.pending == []
    ensures s.accepted == p.early + p.overtaking + p.late && s.sent == p.overtaking + p.early + p.late
  {
    assert p.early + p.overtaking + p.late + [] == p.early + p.overtaking + p.late;
  }
}
