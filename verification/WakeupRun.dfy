/** Every interleaving of host writers with the guest's interrupt handler over the device. */
module WakeupRun {
  import opened Common
  import opened BulkOut
  import opened DataStatus

  /** Where the interrupt handler stands: it clears EVENTS_EPDATA, reads EPDATASTATUS, writes the
      word back, and then starts a DMA for every OUT bit of the word (`owed` is what is left). */
  datatype Guest = Idle | Cleared | Read(word: Word) | Acked(owed: Word)

  /** `raises` counts the threads that left a locked region and have still to set EPDATA.
      `written` and `retired` are histories since the last reset. */
  datatype Sys = Sys(
    dev: Usbd, raises: nat, guest: Guest,
    written: map<EpNum, seq<byte>>, retired: map<EpNum, seq<Retired>>)

  datatype Event =
    | HostWrites(n: EpNum, data: seq<byte>)
    | RaiseEpData
    | GuestClears
    | GuestReads
    | GuestAcks
    | GuestStartsOut(n: EpNum, maxCnt: Bits7)
    | GuestFinishes
    | GuestWritesSize(n: EpNum)
    | GuestSendsIn(n: EpNum)
    | DeviceResets

  ghost predicate WfSys(s: Sys) {
    Wf(s.dev) && forall n: EpNum :: n in s.written && n in s.retired
  }

  function Init(mps: nat): Sys {
    Sys(ResetDevice(Usbd(mps, map[], {}, false)), 0, Idle,
        PerEndpoint([]), PerEndpoint([]))
  }

  function Raises(pending: nat, presented: bool): nat {
    if presented then pending + 1 else pending
  }

  /** One step; an event whose turn it is not leaves the state alone. The guest may start a DMA
      or drop a chunk at any point of its handler, also for endpoints it owes nothing. A reset does
      not disturb the handler or a thread that has still to raise EPDATA. */
  function Step(s: Sys, e: Event): (t: Sys)
    requires WfSys(s)
    ensures WfSys(t) && t.dev.mps == s.dev.mps
  {
    match e
    case HostWrites(n, data) =>
      var (d, p) := HostWrite(s.dev, n, data);
      s.(dev := d, raises := Raises(s.raises, p), written := s.written[n := s.written[n] + data])
    case RaiseEpData =>
      if s.raises > 0 then s.(dev := s.dev.(epData := true), raises := s.raises - 1) else s
    case GuestClears =>
      if s.guest.Idle? then s.(dev := s.dev.(epData := false), guest := Cleared) else s
    case GuestReads =>
      if s.guest.Cleared? then s.(guest := Read(StatusWord(s.dev))) else s
    case GuestAcks =>
      if s.guest.Read? then s.(dev := AckStatus(s.dev, s.guest.word), guest := Acked(s.guest.word)) else s
    case GuestStartsOut(n, maxCnt) =>
      var (d, r, p) := StartOut(s.dev, n, maxCnt);
      s.(dev := d, raises := Raises(s.raises, p), retired := s.retired[n := s.retired[n] + r],
         guest := if s.guest.Acked? then Acked(s.guest.owed - {OutBit(n)}) else s.guest)
    case GuestFinishes =>
      if s.guest.Acked? && (forall n: EpNum :: OutBit(n) !in s.guest.owed) then s.(guest := Idle) else s
    case GuestWritesSize(n) =>
      var (d, r, p) := DropOut(s.dev, n);
      s.(dev := d, raises := Raises(s.raises, p), retired := s.retired[n := s.retired[n] + r])
    case GuestSendsIn(n) =>
      s.(dev := AckIn(s.dev, n))
    case DeviceResets =>
      s.(dev := ResetDevice(s.dev), written := PerEndpoint([]), retired := PerEndpoint([]))
  }

  function Run(s: Sys, es: seq<Event>): (t: Sys)
    requires WfSys(s)
    ensures WfSys(t) && t.dev.mps == s.dev.mps
  {
    if es == [] then s else Step(Run(s, es[..|es| - 1]), es[|es| - 1])
  }

  /** The OUT bits the guest has read or acknowledged and not yet served. */
  function Owed(g: Guest): Word {
    match g
    case Read(word) => word
    case Acked(owed) => owed
    case _ => {}
  }

  /** The bits the guest has read and has still to write back. */
  function Seen(g: Guest): Word {
    if g.Read? then g.word else {}
  }

  /** No chunk waits unannounced: its status bit is set or the guest holds it in its word. */
  predicate Announced(s: Sys, n: EpNum)
    requires WfSys(s)
  {
    s.dev.out[n].presented.Some? ==> s.dev.out[n].status || OutBit(n) in Owed(s.guest)
  }

  predicate WakeupDue(s: Sys) {
    s.dev.epData || s.raises > 0 || s.guest.Cleared?
  }

  /** A set bit that the guest has not read yet will be noticed. */
  predicate Noticed(s: Sys, n: EpNum)
    requires WfSys(s)
  {
    && (s.dev.out[n].status && OutBit(n) !in Seen(s.guest) ==> WakeupDue(s))
    && (n in s.dev.inStatus && n !in Seen(s.guest) ==> WakeupDue(s))
  }

  /** The host's bytes are the retired chunks, the presented chunk and the queue, in order. */
  predicate Conserved(s: Sys, n: EpNum)
    requires WfSys(s)
  {
    s.written[n] == AllRetired(s.retired[n]) + Pending(s.dev.out[n])
  }

  predicate BytesAt(s: Sys, n: EpNum)
    requires WfSys(s)
  {
    Coherent(s.dev.out[n], s.dev.mps) && Conserved(s, n)
  }

  predicate InvAt(s: Sys, n: EpNum)
    requires WfSys(s)
  {
    BytesAt(s, n) && Announced(s, n) && Noticed(s, n)
  }

  ghost predicate Inv(s: Sys) {
    WfSys(s) && forall n: EpNum :: InvAt(s, n)
  }

  lemma HostWriteKeepsBytes(s: Sys, data: seq<byte>, n: EpNum)
    requires WfSys(s) && BytesAt(s, n)
    ensures BytesAt(Step(s, HostWrites(n, data)), n)
  {
    HostWriteConserves(s.dev.out[n], data, s.dev.mps);
    Assoc(AllRetired(s.retired[n]), Pending(s.dev.out[n]), data);
    assert s.written[n] + [] == s.written[n];
  }

  lemma RetiringKeepsBytes(s: Sys, n: EpNum, ep: OutEp, retired: seq<Retired>)
    requires WfSys(s) && Conserved(s, n)
    requires Pending(s.dev.out[n]) == AllRetired(retired) + Pending(ep)
    ensures s.written[n] == AllRetired(s.retired[n] + retired) + Pending(ep)
  {
    RetiredAppend(s.retired[n], retired);
    Assoc(AllRetired(s.retired[n]), AllRetired(retired), Pending(ep));
  }

  lemma StartKeepsBytes(s: Sys, n: EpNum, maxCnt: Bits7)
    requires WfSys(s) && BytesAt(s, n)
    ensures BytesAt(Step(s, GuestStartsOut(n, maxCnt)), n)
  {
    var (ep, retired) := Start(s.dev.out[n], maxCnt, s.dev.mps);
    StartConserves(s.dev.out[n], maxCnt, s.dev.mps);
    RetiringKeepsBytes(s, n, ep, retired);
  }

  lemma DropKeepsBytes(s: Sys, n: EpNum)
    requires WfSys(s) && BytesAt(s, n)
    ensures BytesAt(Step(s, GuestWritesSize(n)), n)
  {
    var (ep, retired) := Drop(s.dev.out[n], s.dev.mps);
    DropConserves(s.dev.out[n], s.dev.mps);
    RetiringKeepsBytes(s, n, ep, retired);
  }

  /** The endpoint an event is about, if it moves bytes. */
  predicate MovesBytesOf(e: Event, n: EpNum) {
    (e.HostWrites? || e.GuestStartsOut? || e.GuestWritesSize?) && e.n == n
  }

  lemma OtherStepsKeepBytes(s: Sys, e: Event, n: EpNum)
    requires WfSys(s) && BytesAt(s, n) && !MovesBytesOf(e, n)
    ensures BytesAt(Step(s, e), n)
  {
  }

  lemma StepKeepsBytes(s: Sys, e: Event, n: EpNum)
    requires WfSys(s) && BytesAt(s, n)
    ensures BytesAt(Step(s, e), n)
  {
    if !MovesBytesOf(e, n) {
      OtherStepsKeepBytes(s, e, n);
    } else {
      match e
      case HostWrites(_, data) => HostWriteKeepsBytes(s, data, n);
      case GuestStartsOut(_, maxCnt) => StartKeepsBytes(s, n, maxCnt);
      case GuestWritesSize(_) => DropKeepsBytes(s, n);
    }
  }

  lemma StepKeepsWakeups(s: Sys, e: Event, n: EpNum)
    requires WfSys(s) && InvAt(s, n)
    ensures Announced(Step(s, e), n) && Noticed(Step(s, e), n)
  {
    StatusWordBits(s.dev, n);
  }

  lemma StepKeepsInv(s: Sys, e: Event)
    requires Inv(s)
    ensures Inv(Step(s, e))
  {
    forall n: EpNum ensures InvAt(Step(s, e), n) {
      assert InvAt(s, n);
      StepKeepsBytes(s, e, n);
      StepKeepsWakeups(s, e, n);
    }
  }

  lemma {:induction false} RunKeepsInv(s: Sys, es: seq<Event>)
    requires Inv(s)
    ensures Inv(Run(s, es))
  {
    if es != [] {
      RunKeepsInv(s, es[..|es| - 1]);
      StepKeepsInv(Run(s, es[..|es| - 1]), es[|es| - 1]);
    }
  }

  lemma InitInv(mps: nat)
    requires mps > 0
    ensures Inv(Init(mps)) && forall n: EpNum :: Init(mps).retired[n] == []
  {
  }

  /** No lost wakeup and no lost byte, over every run from power-up. */
  lemma NoLostWakeup(mps: nat, es: seq<Event>)
    requires mps > 0
    ensures Inv(Run(Init(mps), es))
  {
    InitInv(mps);
    RunKeepsInv(Init(mps), es);
  }

  // ------------------------------------------------------- what that means for the bytes

  /** The handler is idle and nothing is going to wake it. */
  predicate Quiescent(s: Sys) {
    s.guest.Idle? && !s.dev.epData && s.raises == 0
  }

  /** The value the guest reads from SIZE.EPOUT[n]. */
  function SizeRegister(s: Sys, n: EpNum): Bits7
    requires WfSys(s)
  {
    ToBits7(s.dev.out[n].size)
  }

  /** The guest programs MAXCNT with at least what SIZE.EPOUT[n] reads, and drops no chunk. */
  predicate FaithfulStep(s: Sys, e: Event)
    requires WfSys(s)
  {
    match e
    case GuestStartsOut(n, maxCnt) => SizeRegister(s, n) <= maxCnt
    case GuestWritesSize(n) => s.dev.out[n].presented.None?
    case _ => true
  }

  ghost predicate Faithful(s: Sys, es: seq<Event>)
    requires WfSys(s)
  {
    es != [] ==> Faithful(s, es[..|es| - 1]) && FaithfulStep(Run(s, es[..|es| - 1]), es[|es| - 1])
  }

  predicate Lossless(rs: seq<Retired>) {
    forall i :: 0 <= i < |rs| ==> rs[i].Dma? && rs[i].tail == []
  }

  lemma {:induction false} LosslessDelivers(rs: seq<Retired>)
    requires Lossless(rs)
    ensures Delivered(rs) == AllRetired(rs)
  {
    if rs != [] {
      LosslessDelivers(rs[..|rs| - 1]);
    }
  }

  lemma StartStep(s: Sys, n: EpNum, maxCnt: Bits7, ep: OutEp, retired: seq<Retired>)
    requires WfSys(s) && Start(s.dev.out[n], maxCnt, s.dev.mps) == (ep, retired)
    ensures var t := Step(s, GuestStartsOut(n, maxCnt));
            t.dev.out[n] == ep && t.retired[n] == s.retired[n] + retired
  {
  }

  lemma FaithfulDmaIsLossless(ep: OutEp, maxCnt: Bits7, mps: nat)
    requires Coherent(ep, mps) && mps < 128 && ToBits7(ep.size) <= maxCnt
    ensures Lossless(Start(ep, maxCnt, mps).1)
  {
  }

  lemma FaithfulStepIsLossless(s: Sys, e: Event, n: EpNum)
    requires WfSys(s) && InvAt(s, n) && Lossless(s.retired[n]) && FaithfulStep(s, e) && s.dev.mps < 128
    ensures Lossless(Step(s, e).retired[n])
  {
    if e.GuestStartsOut? && e.n == n {
      FaithfulDmaIsLossless(s.dev.out[n], e.maxCnt, s.dev.mps);
      var (ep, retired) := Start(s.dev.out[n], e.maxCnt, s.dev.mps);
      StartStep(s, n, e.maxCnt, ep, retired);
    }
  }

  lemma {:induction false} FaithfulIsLossless(s: Sys, es: seq<Event>, n: EpNum)
    requires Inv(s) && Lossless(s.retired[n]) && Faithful(s, es) && s.dev.mps < 128
    ensures Lossless(Run(s, es).retired[n])
  {
    if es != [] {
      FaithfulIsLossless(s, es[..|es| - 1], n);
      RunKeepsInv(s, es[..|es| - 1]);
      assert InvAt(Run(s, es[..|es| - 1]), n);
      FaithfulStepIsLossless(Run(s, es[..|es| - 1]), es[|es| - 1], n);
    }
  }

  /** What the host wrote to endpoint `n` since the last reset. */
  function HostStream(es: seq<Event>, n: EpNum): seq<byte> {
    if es == [] || es[|es| - 1].DeviceResets? then []
    else
      var e := es[|es| - 1];
      HostStream(es[..|es| - 1], n) + (if e.HostWrites? && e.n == n then e.data else [])
  }

  lemma {:induction false} WrittenIsTheHostStream(mps: nat, es: seq<Event>, n: EpNum)
    requires mps > 0
    ensures Run(Init(mps), es).written[n] == HostStream(es, n)
  {
    if es != [] {
      WrittenIsTheHostStream(mps, es[..|es| - 1], n);
      StepWrites(Run(Init(mps), es[..|es| - 1]), es[|es| - 1], n);
    }
  }

  lemma StepWrites(s: Sys, e: Event, n: EpNum)
    requires WfSys(s)
    ensures Step(s, e).written[n] ==
            if e.DeviceResets? then [] else s.written[n] + (if e.HostWrites? && e.n == n then e.data else [])
  {
    assert s.written[n] + [] == s.written[n];
  }

  /** Guest memory has received an exact prefix of the host's stream, and the whole stream whenever
      the system has come to rest. */
  predicate GetsTheStream(mps: nat, es: seq<Event>, n: EpNum)
    requires mps > 0
  {
    var t := Run(Init(mps), es);
    && HostStream(es, n) == Delivered(t.retired[n]) + Pending(t.dev.out[n])
    && (Quiescent(t) ==> Delivered(t.retired[n]) == HostStream(es, n))
  }

  /** A faithful guest gets the stream, as long as a packet's length fits the SIZE register. */
  lemma FaithfulGuestGetsTheStream(mps: nat, es: seq<Event>, n: EpNum)
    requires 0 < mps < 128 && Faithful(Init(mps), es)
    ensures GetsTheStream(mps, es, n)
  {
    NoLostWakeup(mps, es);
    assert InvAt(Run(Init(mps), es), n);
    InitInv(mps);
    FaithfulIsLossless(Init(mps), es, n);
    LosslessDelivers(Run(Init(mps), es).retired[n]);
    WrittenIsTheHostStream(mps, es, n);
  }

  /** At rest no endpoint holds a chunk or a queued byte, however the guest used MAXCNT and SIZE. */
  lemma RestIsEmpty(mps: nat, es: seq<Event>, n: EpNum)
    requires mps > 0
    ensures var t := Run(Init(mps), es);
            Quiescent(t) ==> Pending(t.dev.out[n]) == [] && HostStream(es, n) == AllRetired(t.retired[n])
  {
    WrittenIsTheHostStream(mps, es, n);
    NoLostWakeup(mps, es);
    assert InvAt(Run(Init(mps), es), n);
  }

  // ------------------------------------------------------- the width of SIZE.EPOUT[n]

  /** The host writes one packet, and the guest takes it with one DMA. */
  function OneTransfer(n: EpNum, packet: seq<byte>, maxCnt: Bits7): seq<Event> {
    [HostWrites(n, packet), GuestStartsOut(n, maxCnt)]
  }

  /** With packets of 128 bytes or more the register reads zero for a waiting chunk of 128 bytes, so
      every MAXCNT a guest can program obeys it, and each loses the end of the packet. */
  lemma WidePacketIsCut(mps: nat, n: EpNum, packet: seq<byte>, maxCnt: Bits7)
    requires mps >= 128 && |packet| == 128
    ensures var s := Run(Init(mps), OneTransfer(n, packet, maxCnt)[..1]);
            SizeRegister(s, n) == 0 && s.dev.out[n].presented == Some(packet) && !ReadsTheLength(s, n)
    ensures var es := OneTransfer(n, packet, maxCnt);
            Faithful(Init(mps), es) && Delivered(Run(Init(mps), es).retired[n]) == packet[..maxCnt]
                                    && !GetsTheStream(mps, es, n)
  {
    var es, s := OneTransfer(n, packet, maxCnt), Step(Init(mps), HostWrites(n, packet));
    assert es[..1] == [] + [es[0]] && es == es[..1] + [es[1]];
    RunSnoc(Init(mps), [], es[0]);
    RunSnoc(Init(mps), es[..1], es[1]);
    WideWriteWaits(mps, n, packet);
    var dma := Dma(packet[..maxCnt], packet[maxCnt..]);
    LastChunkTaken(s.dev.out[n], packet, maxCnt, mps);
    StartStep(s, n, maxCnt, EMPTY_EP.(status := true), [dma]);
    assert [] + [dma] == [dma];
    DeliveredOne(dma);
    TransferStream(n, packet, maxCnt);
  }

  lemma WideWriteWaits(mps: nat, n: EpNum, packet: seq<byte>)
    requires mps >= 128 && |packet| == 128
    ensures var s := Step(Init(mps), HostWrites(n, packet));
            s.dev.out[n] == OutEp([], Some(packet), 128, true) && s.retired[n] == []
  {
    OnePacket(packet, mps);
  }

  lemma TransferStream(n: EpNum, packet: seq<byte>, maxCnt: Bits7)
    ensures HostStream(OneTransfer(n, packet, maxCnt), n) == packet
  {
    var es := OneTransfer(n, packet, maxCnt);
    assert es[..1][..0] == [] && [] + packet == packet && packet + [] == packet;
    assert HostStream(es[..1], n) == [] + packet;
  }

  lemma RunSnoc(s: Sys, es: seq<Event>, e: Event)
    requires WfSys(s)
    ensures Run(s, es + [e]) == Step(Run(s, es), e)
    ensures Faithful(s, es + [e]) <==> Faithful(s, es) && FaithfulStep(Run(s, es), e)
  {
    assert (es + [e])[..|es|] == es;
  }

  predicate ReadsTheLength(s: Sys, n: EpNum)
    requires WfSys(s)
  {
    SizeRegister(s, n) == |PresentedBytes(s.dev.out[n])|
  }

  /** In every reachable state the guest reads the length of the waiting chunk, exactly when packets
      are shorter than 128 bytes. */
  lemma SizeReadsTheLength(mps: nat)
    requires mps > 0
    ensures (forall es, n :: ReadsTheLength(Run(Init(mps), es), n)) <==> mps < 128
  {
    if mps < 128 {
      forall es, n ensures ReadsTheLength(Run(Init(mps), es), n) {
        NoLostWakeup(mps, es);
        ShortChunkReadsItsLength(Run(Init(mps), es), n);
      }
    } else {
      WidePacketIsCut(mps, 1, Repeat(0, 128), 0);
    }
  }

  lemma ShortChunkReadsItsLength(s: Sys, n: EpNum)
    requires Inv(s) && s.dev.mps < 128
    ensures ReadsTheLength(s, n)
  {
    assert InvAt(s, n);
  }

  /** Obeying SIZE.EPOUT[n] is enough to get the stream exactly when packets are shorter than 128
      bytes. */
  lemma ObeyingSizeSuffices(mps: nat)
    requires mps > 0
    ensures (forall es, n :: Faithful(Init(mps), es) ==> GetsTheStream(mps, es, n)) <==> mps < 128
  {
    if mps < 128 {
      forall es, n | Faithful(Init(mps), es) ensures GetsTheStream(mps, es, n) {
        FaithfulGuestGetsTheStream(mps, es, n);
      }
    } else {
      WidePacketIsCut(mps, 1, Repeat(0, 128), 0);
    }
  }

  // ------------------------------------------------------- which write-backs are safe

  /** The handler acknowledges with `written` although it read `s.guest.word`. */
  function AckWith(s: Sys, written: Word): Sys
    requires s.guest.Read?
  {
    s.(dev := AckStatus(s.dev, written), guest := Acked(s.guest.word))
  }

  /** The write-back of a plain read/write register: every OUT bit takes the written value. */
  function PlainWriteBack(s: Sys): Sys
    requires s.guest.Read?
  {
    s.(dev := s.dev.(out := map n | n in s.dev.out :: s.dev.out[n].(status := OutBit(n) in s.guest.word)),
       guest := Acked(s.guest.word))
  }

  /** A write-one-to-clear acknowledgement keeps every chunk announced exactly when it names no
      presented chunk that the guest has not read. */
  lemma SafeAcks(s: Sys, written: Word)
    requires Inv(s) && s.guest.Read?
    ensures (forall n: EpNum :: Announced(AckWith(s, written), n)) <==>
            (forall n: EpNum :: OutBit(n) in written && s.dev.out[n].presented.Some? ==> OutBit(n) in s.guest.word)
  {
    var t := AckWith(s, written);
    forall n: EpNum
      ensures Announced(t, n) <==>
              (OutBit(n) in written && s.dev.out[n].presented.Some? ==> OutBit(n) in s.guest.word)
    {
      assert InvAt(s, n);
    }
  }

  /** With a plain read/write register the handler's own write-back loses every chunk that was
      presented after it read the register, and loses no other. */
  lemma PlainWriteBackLosesLateChunks(s: Sys, n: EpNum)
    requires Inv(s) && s.guest.Read?
    ensures Announced(PlainWriteBack(s), n) <==>
            (s.dev.out[n].presented.Some? ==> OutBit(n) in s.guest.word)
    ensures Announced(AckWith(s, s.guest.word), n)
  {
    assert InvAt(s, n);
  }

  // ------------------------------------------------------- Reset clears in two places

  /** Reset clears SIZE.EPOUT[n] and the status bit before it takes the lock, and the queue and
      the presented chunk inside it; `writes` are the host writes that fall in between. */
  function WriteAll(ep: OutEp, writes: seq<seq<byte>>, mps: nat): OutEp {
    if writes == [] then ep
    else
      var before := WriteAll(ep, writes[..|writes| - 1], mps);
      var data := writes[|writes| - 1];
      if data == [] then before else Present(Enqueue(before, data), mps)
  }

  function RacyReset(ep: OutEp, writes: seq<seq<byte>>, mps: nat): OutEp {
    WriteAll(ep.(size := 0, status := false), writes, mps).(queue := [], presented := None)
  }

  lemma {:induction false} WriteAllPresents(ep: OutEp, writes: seq<seq<byte>>, mps: nat)
    requires mps > 0 && ep.size == 0 && !ep.status && (ep.presented.None? ==> ep.queue == [])
    ensures var t := WriteAll(ep, writes, mps);
            var late := ep.presented.None? && Concat(writes) != [];
            && (late ==> t.presented.Some? && t.size > 0 && t.status)
            && (!late ==> t.size == 0 && !t.status && (t.presented.None? ==> t.queue == []))
            && (t.presented.None? <==> ep.presented.None? && !late)
  {
    if writes != [] {
      WriteAllPresents(ep, writes[..|writes| - 1], mps);
      ConcatSnoc(writes[..|writes| - 1], writes[|writes| - 1]);
      assert writes == writes[..|writes| - 1] + [writes[|writes| - 1]];
    }
  }

  /** Reset leaves an endpoint clean unless a host write lands in the gap while no chunk is
      presented; then SIZE.EPOUT[n] and the status bit describe a chunk that no longer exists. */
  lemma ResetIsCleanUnlessRaced(ep: OutEp, writes: seq<seq<byte>>, mps: nat)
    requires mps > 0 && Coherent(ep, mps)
    ensures RacyReset(ep, writes, mps) == EMPTY_EP <==> ep.presented.Some? || Concat(writes) == []
    ensures Coherent(RacyReset(ep, writes, mps), mps) <==> ep.presented.Some? || Concat(writes) == []
  {
    WriteAllPresents(ep.(size := 0, status := false), writes, mps);
  }
}
