/** The USB host bridge with its fields updated in place, attached to the device peripheral:
    scripts/lib/renode/platforms/models/DualCdcAcmBridge.cs:122-254. ControlChain says what each
    method does to the pair of them. */
module DualCdcAcmBridge {
  import opened Common
  import opened BulkOut
  import opened ControlEndpoint
  import opened CdcDescriptors
  import opened BridgeChannel
  import opened ControlChain
  import DataStatus
  import NrfUsbd

  /** The device after the host wrote `data` to one of its OUT endpoints; endpoint 0 and numbers
      above 7 have no bulk OUT path. */
  function AfterHostData(d: DataStatus.Usbd, endpoint: nat, data: seq<byte>): DataStatus.Usbd
    requires DataStatus.Wf(d)
  {
    if 1 <= endpoint < 8 then
      var (after, raised) := DataStatus.HostWrite(d, endpoint, data);
      after.(epData := after.epData || raised)
    else d
  }

  /** `data` went behind what is pending on endpoint `n`, EPDATA was set if the guest had no chunk to
      take there, and nothing else changed. Only endpoints 1 to 7 have a bulk OUT path. */
  ghost predicate Gained(before: DataStatus.Usbd, after: DataStatus.Usbd, n: nat, data: seq<byte>)
    requires DataStatus.Wf(before) && DataStatus.Wf(after)
  {
    && after.mps == before.mps && after.inStatus == before.inStatus
    && (forall m: EpNum :: m != n ==> after.out[m] == before.out[m])
    && (1 <= n <= 7 ==> Pending(after.out[n]) == Pending(before.out[n]) + data)
    && (after.epData <==> before.epData || (1 <= n <= 7 && data != [] && before.out[n].presented.None?))
  }

  lemma HostDataIsGained(d: DataStatus.Usbd, n: nat, data: seq<byte>)
    requires DataStatus.Wf(d)
    ensures Gained(d, AfterHostData(d, n, data), n, data)
  {
    if 1 <= n < 8 {
      DataStatus.HostWriteAdds(d, n, data);
    }
  }

  /** The device after the flushes of the first `count` channels, wired one after another. */
  function AfterFlushes(
    d: DataStatus.Usbd, channels: seq<Chan>, pairs: seq<CdcDataPair>, count: nat): (after: DataStatus.Usbd)
    requires DataStatus.Wf(d) && count <= |channels| && count <= |pairs|
    ensures DataStatus.Wf(after)
  {
    if count == 0 then d
    else
      var pair := pairs[count - 1];
      var (c, flush) := WireUp(channels[count - 1], pair.inEndpoint, pair.outEndpoint);
      AfterHostData(AfterFlushes(d, channels, pairs, count - 1), c.outEndpoint, flush)
  }

  /** What the first `count` channels had queued for the endpoint that wiring chose for them, if that
      is `n`. */
  function QueuedFor(channels: seq<Chan>, pairs: seq<CdcDataPair>, count: nat, n: EpNum): seq<byte>
    requires count <= |channels| && count <= |pairs|
  {
    if count == 0 then []
    else
      var c, pair := channels[count - 1], pairs[count - 1];
      QueuedFor(channels, pairs, count - 1, n)
      + (if (if c.outOverride != 0 then c.outOverride else pair.outEndpoint) == n then c.pending else [])
  }

  /** The flushes put every queued byte behind what is pending on its channel's endpoint, in channel
      order. */
  lemma {:induction false} FlushesAreGained(
    d: DataStatus.Usbd, channels: seq<Chan>, pairs: seq<CdcDataPair>, count: nat, n: EpNum)
    requires DataStatus.Wf(d) && count <= |channels| && count <= |pairs|
    ensures var after := AfterFlushes(d, channels, pairs, count);
            && Pending(after.out[n]) == Pending(d.out[n]) + QueuedFor(channels, pairs, count, n)
            && after.mps == d.mps && after.inStatus == d.inStatus
  {
    if count == 0 {
      assert Pending(d.out[n]) + [] == Pending(d.out[n]);
    } else {
      FlushesAreGained(d, channels, pairs, count - 1, n);
      var before, pair := AfterFlushes(d, channels, pairs, count - 1), pairs[count - 1];
      var (c, flush) := WireUp(channels[count - 1], pair.inEndpoint, pair.outEndpoint);
      HostDataIsGained(before, c.outEndpoint, flush);
      var more := if c.outEndpoint == n then flush else [];
      assert Pending(before.out[n]) + [] == Pending(before.out[n]);
      Assoc(Pending(d.out[n]), QueuedFor(channels, pairs, count - 1, n), more);
    }
  }

  lemma WireOneMore(channels: seq<Chan>, pairs: seq<CdcDataPair>, i: nat)
    requires |channels| == CHANNEL_COUNT && i < CHANNEL_COUNT && i < |pairs|
    ensures WireAll(channels, pairs[..i + 1]) ==
            WireAll(channels, pairs[..i])[i := WireUp(channels[i], pairs[i].inEndpoint, pairs[i].outEndpoint).0]
    ensures WireAll(channels, pairs[..i])[i] == channels[i]
    ensures ControlRequests(pairs[..i + 1]) ==
            ControlRequests(pairs[..i]) + [SetLineCoding(pairs[i].controlInterface),
                                           SetControlLineState(pairs[i].controlInterface)]
  {
    assert pairs[..i + 1][..i] == pairs[..i];
  }

  /** The device after WireChannels: only the flushes touch its bulk endpoints. */
  function AfterWiring(d: DataStatus.Usbd, channels: seq<Chan>, descriptor: seq<byte>): DataStatus.Usbd
    requires DataStatus.Wf(d) && |channels| == CHANNEL_COUNT
  {
    AfterFlushes(d, channels, Parse(descriptor), |Used(Parse(descriptor))|)
  }

  class Bridge {
    const device: NrfUsbd.NrfUsbdFull<Callback>
    const channels: seq<CdcAcmBridgeChannel>
    var controlRequests: seq<Request>
    var done: nat
    var pumps: seq<nat>
    /** The SETUPs forwarded to the guest so far. */
    ghost var seen: seq<Request>

    ghost function Repr(): set<object> {
      {this, device, device.outDataQueues, device.presentedOutChunk, device.sizeEpOut,
       device.epOutDataStatus} + set i | 0 <= i < |channels| :: channels[i]
    }

    ghost predicate Valid()
      reads Repr()
    {
      && |channels| == |pumps| == CHANNEL_COUNT && channels[0] != channels[1]
      && device.Valid()
    }

    ghost function View(): (s: Session)
      requires Valid()
      reads Repr()
      ensures WfSession(s)
    {
      Session(device.Ep0(), seen, controlRequests, done, [channels[0].View(), channels[1].View()], pumps)
    }

    constructor (device: NrfUsbd.NrfUsbdFull<Callback>, channels: seq<CdcAcmBridgeChannel>)
      requires device.Valid() && |channels| == CHANNEL_COUNT && channels[0] != channels[1]
      ensures Valid() && this.device == device && this.channels == channels
      ensures View() == Session(device.Ep0(), [], [], 0, [channels[0].View(), channels[1].View()], [0, 0])
    {
      this.device, this.channels := device, channels;
      controlRequests, done, pumps, seen := [], 0, [0, 0], [];
    }

    method Forward(r: Request, k: Callback)
      requires Valid() && !IsSetAddress(r.packet)
      modifies this, device, device.sizeEpOut
      ensures Valid() && View() == ControlChain.Forward(old(View()), r, k) && device.Device() == old(device.Device())
    {
      var acked := device.HandleSetupPacket(r.packet, r.data, k);
      seen := seen + [r];
    }

    method DeviceEnumerated()
      requires Valid()
      modifies this, device, device.sizeEpOut
      ensures Valid() && View() == ControlChain.DeviceEnumerated(old(View()))
      ensures device.Device() == old(device.Device())
    {
      Forward(GetConfiguration(HEADER_LENGTH), OnHeader);
    }

    method SendControlSequence()
      requires Valid()
      modifies this, device, device.sizeEpOut
      ensures Valid() && View() == ControlChain.SendControlSequence(old(View()))
      ensures device.Device() == old(device.Device())
      decreases |controlRequests|
    {
      if controlRequests == [] {
        StartWiredPumps();
        return;
      }
      var r := controlRequests[0];
      controlRequests := controlRequests[1..];
      if IsSetAddress(r.packet) {
        var acked := device.HandleSetupPacket(r.packet, r.data, OnControlDone);
        SendControlSequence();
      } else {
        Forward(r, OnControlDone);
      }
    }

    /** The final callback. */
    method StartWiredPumps()
      requires Valid()
      modifies `done, `pumps
      ensures Valid()
      ensures View() == old(View()).(done := old(done) + 1, pumps := StartPumps(old(View()).channels, old(pumps)))
    {
      done := done + 1;
      var i := 0;
      while i < CHANNEL_COUNT
        invariant 0 <= i <= CHANNEL_COUNT == |pumps| && done == old(done) + 1
        invariant forall j :: 0 <= j < CHANNEL_COUNT ==>
          pumps[j] == if j < i then StartPumps(old(View()).channels, old(pumps))[j] else old(pumps)[j]
      {
        if channels[i].wired && HasEndpoint(channels[i].inEndpoint) {
          pumps := pumps[i := pumps[i] + 1];
        }
        i := i + 1;
      }
      assert pumps == StartPumps(old(View()).channels, old(pumps));
    }

    method WireChannels(descriptor: seq<byte>)
      requires Valid()
      modifies Repr()
      ensures Valid() && View() == ControlChain.WireChannels(old(View()), descriptor)
      ensures device.Device() == AfterWiring(old(device.Device()), old(View()).channels, descriptor)
    {
      ghost var before := View();
      var pairs := ParseCdcDataPairs(descriptor);
      WireFound(pairs);
      ghost var wired := View();
      assert wired == before.(channels := WireAll(before.channels, pairs), requests := ControlRequests(Used(pairs)));
      SendControlSequence();
    }

    /** Wire the channels and queue their control requests. */
    method WireFound(pairs: seq<CdcDataPair>)
      requires Valid()
      modifies Repr()
      ensures Valid()
      ensures View() == old(View()).(channels := WireAll(old(View()).channels, pairs),
                                     requests := ControlRequests(Used(pairs)))
      ensures device.Device() == AfterFlushes(old(device.Device()), old(View()).channels, pairs, |Used(pairs)|)
    {
      ghost var before, d := View(), device.Device();
      controlRequests := [];
      var i := 0;
      while i < CHANNEL_COUNT && i < |pairs|
        invariant 0 <= i <= CHANNEL_COUNT && i <= |pairs| && Valid()
        invariant View() == before.(channels := WireAll(before.channels, pairs[..i]),
                                    requests := ControlRequests(pairs[..i]))
        invariant device.Device() == AfterFlushes(d, before.channels, pairs, i)
      {
        WireNext(i, pairs[i]);
        WireOneMore(before.channels, pairs, i);
        i := i + 1;
      }
      assert pairs[..i] == Used(pairs);
      assert WireAll(before.channels, Used(pairs)) == WireAll(before.channels, pairs);
    }

    /** One turn of the wiring loop. */
    method WireNext(i: nat, pair: CdcDataPair)
      requires Valid() && i < CHANNEL_COUNT
      modifies Repr()
      ensures Valid()
      ensures var (c, flush) := WireUp(old(View()).channels[i], pair.inEndpoint, pair.outEndpoint);
              && View() == old(View()).(channels := old(View()).channels[i := c],
                                        requests := old(View()).requests + [SetLineCoding(pair.controlInterface),
                                                                            SetControlLineState(pair.controlInterface)])
              && device.Device() == AfterHostData(old(device.Device()), c.outEndpoint, flush)
    {
      WireOne(channels[i], pair);
      controlRequests := controlRequests + [SetLineCoding(pair.controlInterface),
                                            SetControlLineState(pair.controlInterface)];
    }

    /** Wire one channel; its flush goes to the device's bulk OUT path. */
    method WireOne(channel: CdcAcmBridgeChannel, pair: CdcDataPair)
      requires Valid() && channel in channels
      modifies Repr()
      ensures Valid() && device.Ep0() == old(device.Ep0())
      ensures channel.View() == WireUp(old(channel.View()), pair.inEndpoint, pair.outEndpoint).0
      ensures forall c :: c in channels && c != channel ==> c.View() == old(c.View())
      ensures device.Device() == AfterHostData(old(device.Device()), channel.outEndpoint,
                                               WireUp(old(channel.View()), pair.inEndpoint, pair.outEndpoint).1)
      ensures Gained(old(device.Device()), device.Device(), channel.outEndpoint, old(channel.pendingHostData))
      ensures done == old(done) && pumps == old(pumps) && seen == old(seen) && controlRequests == old(controlRequests)
    {
      var data := channel.Wire(pair.inEndpoint, pair.outEndpoint);
      if data.Some? && channel.outEndpoint != 0 {
        device.HandleHostToDeviceData(channel.outEndpoint, data);
      }
      HostDataIsGained(old(device.Device()), channel.outEndpoint, old(channel.pendingHostData));
    }

    /** A completion callback. */
    method Invoke(k: Callback, response: seq<byte>)
      requires Valid()
      modifies Repr()
      ensures Valid() && View() == Resume(old(View()), k, response)
      ensures device.Device() == if k.OnFull? then AfterWiring(old(device.Device()), old(View()).channels, response)
                                 else old(device.Device())
    {
      match k
      case OnHeader =>
        if |response| >= HEADER_LENGTH {
          Forward(GetConfiguration(TotalLength(response)), OnFull);
        }
      case OnFull => WireChannels(response);
      case OnControlDone => SendControlSequence();
    }

    /** The guest starts TASKS_EP0STATUS: the device clears its slot, then the callback runs. */
    method GuestStatus(mps: nat)
      requires Valid()
      modifies Repr()
      ensures Valid() && View() == ControlChain.Step(old(View()), Status, mps)
      ensures device.Device() ==
              if old(device.Ep0()).slot == Some(OnFull) then
                AfterWiring(old(device.Device()), old(View()).channels, old(device.Ep0()).response)
              else old(device.Device())
    {
      var fired := device.HandleEp0Status();
      if fired.Some? {
        Invoke(fired.value.0, fired.value.1);
      }
    }

    /** A byte from the terminal of a channel, through to the device. */
    method HostByte(channel: CdcAcmBridgeChannel, value: byte)
      requires Valid() && channel in channels
      modifies Repr()
      ensures Valid() && device.Ep0() == old(device.Ep0())
      ensures channel.View() == Accept(old(channel.View()), value).0
      ensures forall c :: c in channels && c != channel ==> c.View() == old(c.View())
      ensures device.Device() == AfterHostData(old(device.Device()), channel.outEndpoint,
                                               Accept(old(channel.View()), value).1)
      ensures Gained(old(device.Device()), device.Device(), channel.outEndpoint, if channel.wired then [value] else [])
      ensures channel.wired == old(channel.wired) && channel.outEndpoint == old(channel.outEndpoint)
      ensures channel.pendingHostData == old(channel.pendingHostData) + if channel.wired then [] else [value]
      ensures done == old(done) && pumps == old(pumps) && seen == old(seen) && controlRequests == old(controlRequests)
    {
      var data := channel.WriteChar(value);
      if data.Some? && channel.outEndpoint != 0 {
        device.HandleHostToDeviceData(channel.outEndpoint, data);
      }
      HostDataIsGained(old(device.Device()), channel.outEndpoint, if channel.wired then [value] else []);
    }
  }
}
