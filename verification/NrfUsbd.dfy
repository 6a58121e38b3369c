/** The USB device peripheral with its fields updated in place, method by method as in
    scripts/lib/renode/platforms/models/NRF_USBD_Full.cs. The functions of DataStatus, BulkOut and
    ControlEndpoint say what each method does; what holds over whole runs is proved about them. */
module NrfUsbd {
  import opened Common
  import opened Memory
  import opened BulkOut
  import opened DataStatus
  import opened ControlEndpoint

  const ENDPOINT_COUNT := 8

  /** A register of every endpoint, cleared. */
  const ZEROS: seq<Bits7> := [0, 0, 0, 0, 0, 0, 0, 0]

  // Event e is the register at 0x100 + 4 * e; the contracts below name events by their numbers.
  const EVENT_STARTED := 1
  const EVENT_END_EP_IN0 := 2
  const EVENT_EP0_DATA_DONE := 10
  const EVENT_END_EP_OUT0 := 12
  const EVENT_EP0_SETUP := 23
  const EVENT_EP_DATA := 24

  type AnyEp = n: int | 0 <= n < 8

  /** Endpoints that differ in `n` alone. */
  lemma OnlyEndpointChanged(before: map<EpNum, OutEp>, after: map<EpNum, OutEp>, n: EpNum)
    requires forall m: EpNum :: m in before && m in after && (m != n ==> after[m] == before[m])
    ensures after == before[n := after[n]]
  {
  }

  /** A callback `C` that the source would invoke as its last act is returned, with its argument,
      for the caller to invoke. */
  class NrfUsbdFull<C> {
    const maximumPacketSize: nat

    // Bulk OUT endpoints, guarded by outLock in the source.
    const outDataQueues: array<seq<byte>>
    const presentedOutChunk: array<Option<seq<byte>>>
    const sizeEpOut: array<nat>
    const epOutDataStatus: array<bool>
    const epInDataStatus: array<bool>

    // DMA registers by endpoint, and the event registers that read as one.
    var epOutPtr: seq<nat>
    var epOutMaxCnt: seq<Bits7>
    var epOutAmount: seq<Bits7>
    var epInPtr: seq<nat>
    var epInMaxCnt: seq<nat>
    var events: set<nat>

    // Control endpoint.
    var setupPacket: Option<SetupPacket>
    var setupPacketResultCallback: Option<C>
    var ep0SetupPayload: Option<seq<byte>>
    var ep0SetupPayloadOffset: nat
    var ep0InAccumulator: seq<byte>
    var usbAddress: nat
    var coreAddress: nat

    var memory: Mem

    ghost predicate ValidArrays() {
      && maximumPacketSize > 0
      && outDataQueues.Length == presentedOutChunk.Length == sizeEpOut.Length == ENDPOINT_COUNT
      && epOutDataStatus.Length == epInDataStatus.Length == ENDPOINT_COUNT
      && epOutDataStatus != epInDataStatus
    }

    ghost predicate Valid()
      reads `epOutPtr, `epOutMaxCnt, `epOutAmount, `epInPtr, `epInMaxCnt
    {
      && ValidArrays()
      && |epOutPtr| == |epOutMaxCnt| == |epOutAmount| == |epInPtr| == |epInMaxCnt| == ENDPOINT_COUNT
    }

    ghost function Out(n: EpNum): OutEp
      requires ValidArrays()
      reads outDataQueues, presentedOutChunk, sizeEpOut, epOutDataStatus
    {
      OutEp(outDataQueues[n], presentedOutChunk[n], sizeEpOut[n], epOutDataStatus[n])
    }

    ghost function Outs(): (m: map<EpNum, OutEp>)
      requires ValidArrays()
      reads outDataQueues, presentedOutChunk, sizeEpOut, epOutDataStatus
      ensures forall n: EpNum :: n in m && m[n] == Out(n)
    {
      map n: EpNum | 1 <= n < 8 :: Out(n)
    }

    ghost function Ins(): set<EpNum>
      requires ValidArrays()
      reads epInDataStatus
    {
      set n: EpNum | epInDataStatus[n]
    }

    /** The data endpoints as the guest and the host see them. */
    ghost function Device(): Usbd
      requires ValidArrays()
      reads `events, outDataQueues, presentedOutChunk, sizeEpOut, epOutDataStatus, epInDataStatus
    {
      Usbd(maximumPacketSize, Outs(), Ins(), 24 in events)
    }

    ghost function Ep0(): Ep0<C>
      requires ValidArrays()
      reads `setupPacket, `setupPacketResultCallback, `ep0SetupPayload, `ep0SetupPayloadOffset,
            `ep0InAccumulator, `usbAddress, sizeEpOut
    {
      ControlEndpoint.Ep0(setupPacketResultCallback, setupPacket, ep0SetupPayload, ep0SetupPayloadOffset,
                          ep0InAccumulator, sizeEpOut[0], usbAddress)
    }

    constructor (maximumPacketSize: nat)
      requires maximumPacketSize > 0
      ensures Valid() && this.maximumPacketSize == maximumPacketSize && events == {}
      ensures epOutPtr == epOutMaxCnt == epOutAmount == epInPtr == epInMaxCnt == [0, 0, 0, 0, 0, 0, 0, 0]
      ensures memory == map[]
      ensures (forall n: EpNum :: Out(n) == OutEp([], None, 0, false)) && Ins() == {} && Ep0() == PowerUp<C>()
      ensures setupPacketResultCallback == None && setupPacket == None && ep0SetupPayload == None
      ensures ep0SetupPayloadOffset == usbAddress == coreAddress == 0 && ep0InAccumulator == [] && sizeEpOut[0] == 0
    {
      this.maximumPacketSize := maximumPacketSize;
      outDataQueues := new seq<byte>[ENDPOINT_COUNT](_ => []);
      presentedOutChunk := new Option<seq<byte>>[ENDPOINT_COUNT](_ => None);
      sizeEpOut := new nat[ENDPOINT_COUNT](_ => 0);
      epOutDataStatus := new bool[ENDPOINT_COUNT](_ => false);
      epInDataStatus := new bool[ENDPOINT_COUNT](_ => false);
      epOutPtr, epOutMaxCnt, epOutAmount, epInPtr, epInMaxCnt := ZEROS, ZEROS, ZEROS, ZEROS, ZEROS;
      events := {};
      setupPacket, setupPacketResultCallback, ep0SetupPayload := None, None, None;
      ep0SetupPayloadOffset, ep0InAccumulator, usbAddress, coreAddress := 0, [], 0, 0;
      memory := map[];
    }

    method SetEvent(e: nat)
      requires Valid()
      modifies `events
      ensures Valid() && events == old(events) + {e}
      ensures Device() == old(Device()).(epData := 24 in events)
    {
      events := events + {e};
    }

    /** A guest write of zero to an event register. */
    method ClearEvent(e: nat)
      requires Valid()
      modifies `events
      ensures Valid() && events == old(events) - {e}
      ensures Device() == old(Device()).(epData := 24 in events)
    {
      events := events - {e};
    }

    // ------------------------------------------------------------------ bulk OUT

    /** Move the first `count` queued bytes into a chunk. */
    method Dequeue(n: EpNum, count: nat) returns (chunk: seq<byte>)
      requires Valid() && count <= |outDataQueues[n]|
      modifies outDataQueues
      ensures chunk == old(outDataQueues[n])[..count] && outDataQueues[n] == old(outDataQueues[n])[count..]
      ensures forall m: AnyEp :: m != n ==> outDataQueues[m] == old(outDataQueues[m])
    {
      ghost var queued := outDataQueues[n];
      chunk := [];
      while |chunk| < count
        invariant |chunk| <= count && chunk == queued[..|chunk|]
        invariant outDataQueues[n] == queued[|chunk|..]
        invariant forall m: AnyEp :: m != n ==> outDataQueues[m] == old(outDataQueues[m])
      {
        chunk, outDataQueues[n] := chunk + [outDataQueues[n][0]], outDataQueues[n][1..];
      }
    }

    method TryPresentOutChunk(n: EpNum) returns (presented: bool)
      requires Valid()
      modifies outDataQueues, presentedOutChunk, sizeEpOut, epOutDataStatus
      ensures Valid() && presented == CanPresent(old(Out(n))) && sizeEpOut[0] == old(sizeEpOut[0])
      ensures Device() == old(Device()).(out := old(Outs())[n := Present(old(Out(n)), maximumPacketSize)])
    {
      if presentedOutChunk[n] != None || outDataQueues[n] == [] {
        return false;
      }
      var count := Min(maximumPacketSize, |outDataQueues[n]|);
      var chunk := Dequeue(n, count);
      presentedOutChunk[n] := Some(chunk);
      sizeEpOut[n] := count;
      epOutDataStatus[n] := true;
      presented := true;
      OnlyEndpointChanged(old(Outs()), Outs(), n);
    }

    method EnqueueAll(n: EpNum, data: seq<byte>)
      requires Valid()
      modifies outDataQueues
      ensures Device() == old(Device()).(out := old(Outs())[n := Enqueue(old(Out(n)), data)])
    {
      var i := 0;
      while i < |data|
        invariant i <= |data| && outDataQueues[n] == old(outDataQueues[n]) + data[..i]
        invariant forall m: AnyEp :: m != n ==> outDataQueues[m] == old(outDataQueues[m])
      {
        outDataQueues[n] := outDataQueues[n] + [data[i]];
        i := i + 1;
      }
      assert Out(n) == Enqueue(old(Out(n)), data);
      OnlyEndpointChanged(old(Outs()), Outs(), n);
    }

    /** The locked region of HandleHostToDeviceData. */
    method EnqueueAndPresent(n: EpNum, data: seq<byte>) returns (presented: bool)
      requires Valid() && data != []
      modifies outDataQueues, presentedOutChunk, sizeEpOut, epOutDataStatus
      ensures Valid() && (Device(), presented) == HostWrite(old(Device()), n, data)
      ensures sizeEpOut[0] == old(sizeEpOut[0])
    {
      EnqueueAll(n, data);
      ghost var ep := Out(n);
      presented := TryPresentOutChunk(n);
      assert Outs() == old(Outs())[n := Present(ep, maximumPacketSize)];
    }

    /** The host wrote `data` to OUT endpoint `n`; null and empty writes present nothing. */
    method HandleHostToDeviceData(n: EpNum, data: Option<seq<byte>>)
      requires Valid()
      modifies `events, outDataQueues, presentedOutChunk, sizeEpOut, epOutDataStatus
      ensures Valid() && Ep0() == old(Ep0())
      ensures var (d, raised) := HostWrite(old(Device()), n, if data.Some? then data.value else []);
              Device() == d.(epData := d.epData || raised)
      ensures var (_, raised) := HostWrite(old(Device()), n, if data.Some? then data.value else []);
              events == old(events) + if raised then {24} else {}
    {
      if data == None || data.value == [] {
        return;
      }
      var presented := EnqueueAndPresent(n, data.value);
      if presented {
        SetEvent(EVENT_EP_DATA);
      }
    }

    /** Forget the presented chunk. */
    method Unpresent(n: EpNum)
      requires Valid()
      modifies presentedOutChunk, sizeEpOut
      ensures sizeEpOut[0] == old(sizeEpOut[0]) && Out(n) == old(Out(n)).(presented := None, size := 0)
      ensures Device() == old(Device()).(out := old(Outs())[n := Out(n)])
    {
      presentedOutChunk[n] := None;
      sizeEpOut[n] := 0;
      OnlyEndpointChanged(old(Outs()), Outs(), n);
    }

    /** Forget the presented chunk and present the next one. */
    method PresentNext(n: EpNum) returns (presented: bool)
      requires Valid()
      modifies outDataQueues, presentedOutChunk, sizeEpOut, epOutDataStatus
      ensures sizeEpOut[0] == old(sizeEpOut[0])
      ensures var ep := old(Out(n)).(presented := None, size := 0);
              && presented == CanPresent(ep)
              && Device() == old(Device()).(out := old(Outs())[n := Present(ep, maximumPacketSize)])
    {
      Unpresent(n);
      ghost var ep := Out(n);
      presented := TryPresentOutChunk(n);
      assert Outs() == old(Outs())[n := Present(ep, maximumPacketSize)];
    }

    /** What the locked region of StartBulkEpOut does with a presented chunk: the bytes to DMA. */
    method TakeChunk(n: EpNum) returns (data: seq<byte>, presentedNext: bool)
      requires Valid() && presentedOutChunk[n].Some?
      modifies `epOutAmount, outDataQueues, presentedOutChunk, sizeEpOut, epOutDataStatus
      ensures Valid() && sizeEpOut[0] == old(sizeEpOut[0])
      ensures var (d, retired, raised) := StartOut(old(Device()), n, epOutMaxCnt[n]);
              && Device() == d && presentedNext == raised && retired != [] && data == retired[0].data
      ensures epOutAmount == old(epOutAmount)[n := |data|]
    {
      var chunk := presentedOutChunk[n].value;
      presentedNext := PresentNext(n);
      var dmaCount := Min(|chunk|, epOutMaxCnt[n]);
      epOutAmount := epOutAmount[n := dmaCount];
      data := chunk[..dmaCount];
    }

    /** What StartBulkEpOut does after the lock. */
    method CompleteDma(n: EpNum, data: seq<byte>, presentedNext: bool)
      requires Valid()
      modifies `events, `memory
      ensures memory == Store(old(memory), epOutPtr[n], data)
      ensures events == old(events) + {12 + n} + (if presentedNext then {24} else {})
    {
      memory := Store(memory, epOutPtr[n], data);
      SetEvent(EVENT_END_EP_OUT0 + n);
      if presentedNext {
        SetEvent(EVENT_EP_DATA);
      }
    }

    method StartBulkEpOut(n: EpNum)
      requires Valid()
      modifies `epOutAmount, `events, `memory, outDataQueues, presentedOutChunk, sizeEpOut, epOutDataStatus
      ensures Valid() && Ep0() == old(Ep0())
      ensures var (d, retired, raised) := StartOut(old(Device()), n, epOutMaxCnt[n]);
              && Device() == d.(epData := d.epData || raised)
              && memory == (if retired == [] then old(memory) else Store(old(memory), epOutPtr[n], retired[0].data))
              && epOutAmount == (if retired == [] then old(epOutAmount) else old(epOutAmount)[n := |retired[0].data|])
              && events == old(events) + (if retired == [] then {} else {12 + n})
                                       + (if raised then {24} else {})
    {
      if presentedOutChunk[n] == None {
        OnlyEndpointChanged(Outs(), Outs(), n);
        return;
      }
      var data, presentedNext := TakeChunk(n);
      CompleteDma(n, data, presentedNext);
    }

    /** The locked region of a SIZE.EPOUT[n] write on a bulk endpoint. */
    method DropAndPresent(n: EpNum) returns (presented: bool)
      requires Valid()
      modifies outDataQueues, presentedOutChunk, sizeEpOut, epOutDataStatus
      ensures Valid() && sizeEpOut[0] == old(sizeEpOut[0])
      ensures var (d, _, raised) := DropOut(old(Device()), n); Device() == d && presented == raised
    {
      presented := PresentNext(n);
    }

    /** A guest read of SIZE.EPOUT[n]: the field is seven bits wide. */
    method ReadSizeEpOut(n: AnyEp) returns (value: Bits7)
      requires Valid()
      ensures value == ToBits7(sizeEpOut[n])
      ensures n == 0 ==> value == ControlEndpoint.SizeRegister(Ep0())
      ensures n != 0 && maximumPacketSize < 128 && Coherent(Device().out[n], maximumPacketSize) ==>
                value == |PresentedBytes(Device().out[n])|
    {
      value := sizeEpOut[n] % 128;
    }

    /** A guest write to SIZE.EPOUT[n]; the value written does not matter. */
    method WriteSizeEpOut(n: AnyEp)
      requires Valid()
      modifies `events, outDataQueues, presentedOutChunk, sizeEpOut, epOutDataStatus
      ensures Valid()
      ensures n == 0 ==> Device() == old(Device()) && Ep0() == old(Ep0()).(size := 0) && events == old(events)
      ensures n != 0 ==> var (d, _, raised) := DropOut(old(Device()), n);
                         && Device() == d.(epData := d.epData || raised) && Ep0() == old(Ep0())
                         && events == old(events) + if raised then {24} else {}
    {
      if n == 0 {
        SetEp0Size(0);
      } else {
        var presented := DropAndPresent(n);
        if presented {
          SetEvent(EVENT_EP_DATA);
        }
      }
    }

    method WriteEpOutMaxCnt(n: AnyEp, value: nat)
      requires Valid()
      modifies `epOutMaxCnt
      ensures Valid() && epOutMaxCnt == old(epOutMaxCnt)[n := value % 128]
    {
      epOutMaxCnt := epOutMaxCnt[n := value % 128];
    }

    // ------------------------------------------------------------------ EPDATASTATUS

    method ReadEpDataStatus() returns (word: Word)
      requires Valid()
      ensures word == StatusWord(Device())
    {
      word := {};
      for n := 1 to ENDPOINT_COUNT
        invariant word == set b: nat | b < 24 && ((1 <= b < n && epInDataStatus[b])
                                                  || (17 <= b < 16 + n && epOutDataStatus[b - 16]))
      {
        word := word + (if epInDataStatus[n] then {n} else {}) + (if epOutDataStatus[n] then {OutBit(n)} else {});
      }
      assert forall m: EpNum :: m in Device().out && Device().out[m].status == epOutDataStatus[m];
    }

    method WriteEpDataStatus(word: Word)
      requires Valid()
      modifies epInDataStatus, epOutDataStatus
      ensures Valid() && Device() == AckStatus(old(Device()), word) && Ep0() == old(Ep0())
    {
      for n := 1 to ENDPOINT_COUNT
        invariant forall m: AnyEp :: epInDataStatus[m] == (old(epInDataStatus[m]) && !(1 <= m < n && m in word))
        invariant forall m: AnyEp :: epOutDataStatus[m] == (old(epOutDataStatus[m]) && !(1 <= m < n && 16 + m in word))
      {
        if n in word {
          epInDataStatus[n] := false;
        }
        if 16 + n in word {
          epOutDataStatus[n] := false;
        }
      }
    }

    // ------------------------------------------------------------------ endpoint 0

    /** sizeEpOut[0] belongs to endpoint 0, so writing it leaves the bulk endpoints alone. */
    method SetEp0Size(size: nat)
      requires Valid()
      modifies sizeEpOut
      ensures Valid() && Device() == old(Device()) && Ep0() == old(Ep0()).(size := size)
    {
      sizeEpOut[0] := size;
      OnlyEndpointChanged(old(Outs()), Outs(), 1);
    }

    /** A SETUP from the host. SET_ADDRESS is acknowledged on the spot: `acked` is its callback. */
    method HandleSetupPacket(packet: SetupPacket, additionalData: Option<seq<byte>>, action: C)
      returns (acked: Option<(C, seq<byte>)>)
      requires Valid()
      modifies `setupPacket, `setupPacketResultCallback, `ep0SetupPayload, `ep0SetupPayloadOffset,
               `ep0InAccumulator, `usbAddress, `coreAddress, `events, sizeEpOut
      ensures Valid() && Device() == old(Device())
      ensures packet.recipient == ToDevice && packet.kind == Standard && packet.request == 5 ==>
                && acked == Some((action, [])) && Ep0() == TakeAddress(old(Ep0()), packet)
                && coreAddress == packet.value % 256 && events == old(events)
      ensures !(packet.recipient == ToDevice && packet.kind == Standard && packet.request == 5) ==>
                && acked == None && Ep0() == Latch(old(Ep0()), packet, additionalData, action)
                && coreAddress == old(coreAddress) && events == old(events) + {23}
    {
      if IsSetAddress(packet) {
        usbAddress := packet.value % 128;
        coreAddress := packet.value % 256;
        return Some((action, []));
      }
      LatchSetup(packet, additionalData, action);
      SetEp0Size(0);
      SetEvent(EVENT_EP0_SETUP);
      acked := None;
    }

    /** The guest reads the eight SETUP registers. */
    method ReadSetup() returns (bytes: seq<byte>)
      ensures bytes == SetupBytes(setupPacket)
    {
      if setupPacket == None {
        return [0, 0, 0, 0, 0, 0, 0, 0];
      }
      var p := setupPacket.value;
      bytes := [RequestTypeByte(p), p.request, p.value % 256, p.value / 256 % 256,
                p.index % 256, p.index / 256 % 256, p.count % 256, p.count / 256 % 256];
    }

    method LatchSetup(packet: SetupPacket, additionalData: Option<seq<byte>>, action: C)
      modifies `setupPacket, `setupPacketResultCallback, `ep0SetupPayload, `ep0SetupPayloadOffset, `ep0InAccumulator
      ensures setupPacket == Some(packet) && setupPacketResultCallback == Some(action)
      ensures ep0SetupPayload == Some(if additionalData.Some? then additionalData.value else [])
      ensures ep0SetupPayloadOffset == 0 && ep0InAccumulator == []
    {
      setupPacket := Some(packet);
      setupPacketResultCallback := Some(action);
      ep0SetupPayload := if additionalData.Some? then additionalData else Some([]);
      ep0SetupPayloadOffset := 0;
      ep0InAccumulator := [];
    }

    /** TASKS_STARTEPIN[n]: the bytes of an IN transfer. Those of endpoint 0 are accumulated;
        `packet` is what a bulk endpoint hands to the host side, where empty packets stop. */
    method GetData(n: AnyEp) returns (packet: Option<seq<byte>>)
      requires Valid()
      modifies `ep0InAccumulator, `events, epInDataStatus
      ensures Valid()
      ensures var data := Load(memory, epInPtr[n], epInMaxCnt[n]);
              if n == 0 then Ep0() == Accumulate(old(Ep0()), data) && packet == None
              else Ep0() == old(Ep0()) && packet == if data == [] then None else Some(data)
      ensures Device() == if n == 0 then old(Device()).(epData := true) else AckIn(old(Device()), n)
      ensures events == old(events) + {1, 2 + n, 24}
                        + if n == 0 then {10} else {}
    {
      var usbPacket := Load(memory, epInPtr[n], epInMaxCnt[n]);
      packet := None;
      if n == 0 {
        ep0InAccumulator := ep0InAccumulator + usbPacket;
      } else if usbPacket != [] {
        packet := Some(usbPacket);
      }
      DataAcknowledged(n);
    }

    method DataAcknowledged(n: AnyEp)
      requires Valid()
      modifies `events, epInDataStatus
      ensures Valid()
      ensures Device() == if n == 0 then old(Device()).(epData := true) else AckIn(old(Device()), n)
      ensures events == old(events) + {1, 2 + n, 24}
                        + if n == 0 then {10} else {}
    {
      SetInStatus(n);
      SetEvent(EVENT_STARTED);
      SetEvent(EVENT_END_EP_IN0 + n);
      SetEvent(EVENT_EP_DATA);
      if n == 0 {
        SetEvent(EVENT_EP0_DATA_DONE);
      }
    }

    /** The IN flag of endpoint 0 is in no register. */
    method SetInStatus(n: AnyEp)
      requires Valid()
      modifies epInDataStatus
      ensures Device() == old(Device()).(inStatus := old(Ins()) + if n == 0 then {} else {n})
    {
      epInDataStatus[n] := true;
      assert forall m: EpNum :: epInDataStatus[m] == (old(epInDataStatus[m]) || m == n);
      OnlyEndpointChanged(old(Outs()), Outs(), 1);
    }

    method HandleEp0RcvOut()
      requires Valid()
      modifies `events, sizeEpOut
      ensures Valid() && Device() == old(Device())
      ensures Ep0() == Advertise(old(Ep0()), maximumPacketSize)
      ensures events == old(events) + if Remaining(old(Ep0())) == [] then {} else {10}
    {
      if ep0SetupPayload == None || ep0SetupPayloadOffset >= |ep0SetupPayload.value| {
        return;
      }
      SetEp0Size(Min(maximumPacketSize, |ep0SetupPayload.value| - ep0SetupPayloadOffset));
      SetEvent(EVENT_EP0_DATA_DONE);
    }

    method StartEpOut(n: AnyEp)
      requires Valid()
      modifies `ep0SetupPayloadOffset, `epOutAmount, `events, `memory,
               outDataQueues, presentedOutChunk, sizeEpOut, epOutDataStatus
      ensures Valid()
      ensures n == 0 ==>
                var (e, data) := TakeOut(old(Ep0()), epOutMaxCnt[0], maximumPacketSize);
                && Ep0() == e && Device() == old(Device()) && memory == Store(old(memory), epOutPtr[0], data)
                && var idle := Remaining(old(Ep0())) == [];
                && epOutAmount == (if idle then old(epOutAmount) else old(epOutAmount)[0 := |data|])
                && events == old(events) + if idle then {} else {12}
      ensures n != 0 ==>
                var (d, retired, raised) := StartOut(old(Device()), n, epOutMaxCnt[n]);
                && Ep0() == old(Ep0()) && Device() == d.(epData := d.epData || raised)
                && memory == (if retired == [] then old(memory) else Store(old(memory), epOutPtr[n], retired[0].data))
                && epOutAmount == (if retired == [] then old(epOutAmount) else old(epOutAmount)[n := |retired[0].data|])
                && events == old(events) + (if retired == [] then {} else {12 + n})
                                         + (if raised then {24} else {})
    {
      if n != 0 {
        StartBulkEpOut(n);
      } else {
        StartControlEpOut();
      }
    }

    /** The endpoint 0 part of StartEpOut. */
    method StartControlEpOut()
      requires Valid()
      modifies `ep0SetupPayloadOffset, `epOutAmount, `events, `memory
      ensures Valid() && Device() == old(Device())
      ensures var (e, data) := TakeOut(old(Ep0()), epOutMaxCnt[0], maximumPacketSize);
              && Ep0() == e && memory == Store(old(memory), epOutPtr[0], data)
              && epOutAmount == if Remaining(old(Ep0())) == [] then old(epOutAmount) else old(epOutAmount)[0 := |data|]
      ensures events == old(events) + (if Remaining(old(Ep0())) == [] then {} else {12})
    {
      if ep0SetupPayload == None || ep0SetupPayloadOffset >= |ep0SetupPayload.value| {
        assert Remaining(Ep0()) == [] && Store(memory, epOutPtr[0], []) == memory;
        return;
      }
      var pending := Min(maximumPacketSize, |ep0SetupPayload.value| - ep0SetupPayloadOffset);
      var chunk := Min(pending, epOutMaxCnt[0]);
      var data := ep0SetupPayload.value[ep0SetupPayloadOffset..ep0SetupPayloadOffset + chunk];
      SplitAt(ep0SetupPayload.value, ep0SetupPayloadOffset, chunk);
      memory := Store(memory, epOutPtr[0], data);
      ep0SetupPayloadOffset := ep0SetupPayloadOffset + chunk;
      epOutAmount := epOutAmount[0 := chunk];
      SetEvent(EVENT_END_EP_OUT0);
    }

    /** TASKS_EP0STATUS: the slot and the accumulator are cleared before the callback is invoked. */
    method HandleEp0Status() returns (fired: Option<(C, seq<byte>)>)
      requires Valid()
      modifies `setupPacketResultCallback, `ep0InAccumulator
      ensures Valid() && (Ep0(), fired) == Finish(old(Ep0())) && Device() == old(Device())
    {
      var callback := setupPacketResultCallback;
      setupPacketResultCallback := None;
      if callback.None? {
        return None;
      }
      var response := ep0InAccumulator;
      ep0InAccumulator := [];
      fired := Some((callback.value, response));
    }

    method HandleEp0Stall()
      requires Valid()
      modifies `setupPacketResultCallback
      ensures Valid() && Ep0() == ControlEndpoint.Stall(old(Ep0())) && Device() == old(Device())
    {
      setupPacketResultCallback := None;
    }

    /** Reset with no other thread running. */
    method Reset()
      requires Valid()
      modifies this, outDataQueues, presentedOutChunk, sizeEpOut, epOutDataStatus, epInDataStatus
      ensures Valid() && Device() == ResetDevice(old(Device())) && Ep0() == ResetEp0(old(Ep0()))
      ensures (forall n: EpNum :: Out(n) == OutEp([], None, 0, false)) && Ins() == {}
      ensures setupPacketResultCallback == None && setupPacket == old(setupPacket) && ep0SetupPayload == None
      ensures ep0SetupPayloadOffset == usbAddress == 0 && ep0InAccumulator == [] && sizeEpOut[0] == 0
      ensures epOutPtr == epOutMaxCnt == epOutAmount == epInPtr == epInMaxCnt == [0, 0, 0, 0, 0, 0, 0, 0]
      ensures events == {}
      ensures memory == old(memory) && coreAddress == old(coreAddress)
    {
      ResetRegisters();
      setupPacketResultCallback := None;
      ep0SetupPayload := None;
      ep0SetupPayloadOffset := 0;
      ep0InAccumulator := [];
      ClearDataEndpoints();
    }

    method ResetRegisters()
      requires ValidArrays()
      modifies `events, `epOutPtr, `epOutMaxCnt, `epOutAmount, `epInPtr, `epInMaxCnt, `usbAddress
      ensures Valid() && events == {} && usbAddress == 0
      ensures epOutPtr == epOutMaxCnt == epOutAmount == epInPtr == epInMaxCnt == [0, 0, 0, 0, 0, 0, 0, 0]
    {
      events := {};
      epOutPtr, epOutMaxCnt, epOutAmount, epInPtr, epInMaxCnt := ZEROS, ZEROS, ZEROS, ZEROS, ZEROS;
      usbAddress := 0;
    }

    /** The array-clearing half of Reset. */
    method ClearDataEndpoints()
      requires Valid()
      modifies outDataQueues, presentedOutChunk, sizeEpOut, epOutDataStatus, epInDataStatus
      ensures Valid() && sizeEpOut[0] == 0
      ensures Outs() == PerEndpoint(EMPTY_EP) && Ins() == {}
    {
      forall i | 0 <= i < ENDPOINT_COUNT { sizeEpOut[i] := 0; }
      forall i | 0 <= i < ENDPOINT_COUNT { epInDataStatus[i] := false; }
      forall i | 0 <= i < ENDPOINT_COUNT { epOutDataStatus[i] := false; }
      for i := 0 to ENDPOINT_COUNT
        invariant forall j: AnyEp :: j < i ==> outDataQueues[j] == [] && presentedOutChunk[j] == None
        modifies outDataQueues, presentedOutChunk
      {
        outDataQueues[i] := [];
        presentedOutChunk[i] := None;
      }
      assert forall n: EpNum :: Out(n) == EMPTY_EP;
    }
  }
}
