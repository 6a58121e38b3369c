/** One CDC channel of the bridge: host bytes written before the endpoints are known are queued and
    flushed when the channel is wired
    (scripts/lib/renode/platforms/models/DualCdcAcmBridge.cs:396-481). */
module BridgeChannel {
  import opened Common

  /** The device offers framework endpoints 0..7 in each direction. */
  predicate HasEndpoint(n: nat) { n < 8 }

  /** The fields of a channel. */
  datatype Chan = Chan(
    inOverride: nat, outOverride: nat, wired: bool, inEndpoint: nat, outEndpoint: nat, pending: seq<byte>)

  function Choose(configured: nat, discovered: nat): nat {
    if configured != 0 then configured else discovered
  }

  /** The locked region of WriteChar, and the byte it decides to send. */
  function Accept(c: Chan, value: byte): (Chan, seq<byte>) {
    if !c.wired then (c.(pending := c.pending + [value]), []) else (c, [value])
  }

  /** The locked region of Wire, and the bytes it takes out for the flush. */
  function WireUp(c: Chan, inEndpoint: nat, outEndpoint: nat): (Chan, seq<byte>) {
    (c.(inEndpoint := Choose(c.inOverride, inEndpoint), outEndpoint := Choose(c.outOverride, outEndpoint),
        wired := true, pending := []),
     c.pending)
  }

  class CdcAcmBridgeChannel {
    const inEndpointOverride: nat
    const outEndpointOverride: nat
    var wired: bool
    var inEndpoint: nat
    var outEndpoint: nat
    var pendingHostData: seq<byte>

    ghost function View(): Chan
      reads this
    {
      Chan(inEndpointOverride, outEndpointOverride, wired, inEndpoint, outEndpoint, pendingHostData)
    }

    constructor (inEndpointOverride: nat, outEndpointOverride: nat)
      ensures View() == Chan(inEndpointOverride, outEndpointOverride, false, 0, 0, [])
    {
      this.inEndpointOverride, this.outEndpointOverride := inEndpointOverride, outEndpointOverride;
      wired, inEndpoint, outEndpoint, pendingHostData := false, 0, 0, [];
    }

    /** `data` is what the caller passes to the OUT endpoint's WriteData after the lock: nothing
        while the bytes are queued or when the endpoint does not exist. */
    method WriteChar(value: byte) returns (data: Option<seq<byte>>)
      modifies this
      ensures var (c, sent) := Accept(old(View()), value);
              && View() == c
              && data == if sent != [] && HasEndpoint(outEndpoint) then Some(sent) else None
      ensures pendingHostData == old(pendingHostData) + if wired then [] else [value]
      ensures data == if wired && outEndpoint < 8 then Some([value]) else None
      ensures wired == old(wired) && inEndpoint == old(inEndpoint) && outEndpoint == old(outEndpoint)
    {
      if !wired {
        pendingHostData := pendingHostData + [value];
        return None;
      }
      data := if HasEndpoint(outEndpoint) then Some([value]) else None;
    }

    method Wire(discoveredIn: nat, discoveredOut: nat) returns (data: Option<seq<byte>>)
      modifies this
      ensures var (c, flush) := WireUp(old(View()), discoveredIn, discoveredOut);
              && View() == c
              && data == if flush != [] && HasEndpoint(outEndpoint) then Some(flush) else None
      ensures wired && pendingHostData == []
      ensures inEndpoint == if inEndpointOverride != 0 then inEndpointOverride else discoveredIn
      ensures outEndpoint == if outEndpointOverride != 0 then outEndpointOverride else discoveredOut
      ensures data == if old(pendingHostData) != [] && outEndpoint < 8 then Some(old(pendingHostData)) else None
    {
      inEndpoint := if inEndpointOverride != 0 then inEndpointOverride else discoveredIn;
      outEndpoint := if outEndpointOverride != 0 then outEndpointOverride else discoveredOut;
      wired := true;
      data := None;
      if pendingHostData != [] {
        var flush := pendingHostData;
        pendingHostData := [];
        if HasEndpoint(outEndpoint) {
          data := Some(flush);
        }
      }
    }
  }

  // ------------------------------------------------------------- interleavings of the two callers

  /** `writing` are bytes whose WriteChar has left its lock and not yet called WriteData, and
      `flush` those Wire holds in the same place. `accepted` lists the bytes in the order WriteChar
      took them, `sent` in the order WriteData got them; `lost` had no endpoint to go to. */
  datatype Sys = Sys(
    chan: Chan, writing: seq<byte>, flush: seq<byte>, accepted: seq<byte>, sent: seq<byte>, lost: seq<byte>)

  datatype Event =
    | WriteLocked(value: byte)
    | WriteSends(i: nat)
    | WireLocked(inEndpoint: nat, outEndpoint: nat)
    | WireSends

  function Init(c: Chan): Sys {
    Sys(c.(wired := false, pending := []), [], [], [], [], [])
  }

  /** WriteData on the endpoint, if there is one. */
  function Emit(s: Sys, data: seq<byte>): Sys {
    if HasEndpoint(s.chan.outEndpoint) then s.(sent := s.sent + data) else s.(lost := s.lost + data)
  }

  /** One step; any number of writer threads may be between their lock and their WriteData. */
  function Step(s: Sys, e: Event): Sys {
    match e
    case WriteLocked(value) =>
      var (c, data) := Accept(s.chan, value);
      s.(chan := c, writing := s.writing + data, accepted := s.accepted + [value])
    case WriteSends(i) =>
      if i < |s.writing| then
        Emit(s, [s.writing[i]]).(writing := s.writing[..i] + s.writing[i + 1..])
      else s
    case WireLocked(inEndpoint, outEndpoint) =>
      if s.flush != [] then s
      else
        var (c, data) := WireUp(s.chan, inEndpoint, outEndpoint);
        s.(chan := c, flush := data)
    case WireSends => Emit(s, s.flush).(flush := [])
  }

  function Run(s: Sys, es: seq<Event>): Sys {
    if es == [] then s else Step(Run(s, es[..|es| - 1]), es[|es| - 1])
  }

  /** The bytes of all WriteChar calls. */
  function Written(es: seq<Event>): seq<byte> {
    if es == [] then []
    else Written(es[..|es| - 1]) + (if es[|es| - 1].WriteLocked? then [es[|es| - 1].value] else [])
  }

  lemma {:induction false} AcceptedAreWritten(c: Chan, es: seq<Event>)
    ensures Run(Init(c), es).accepted == Written(es)
  {
    if es != [] {
      AcceptedAreWritten(c, es[..|es| - 1]);
      assert Written(es[..|es| - 1]) + [] == Written(es[..|es| - 1]);
    }
  }

  /** Every accepted byte is in exactly one place. */
  predicate NothingLost(s: Sys) {
    multiset(s.accepted) ==
    multiset(s.sent) + multiset(s.lost) + multiset(s.writing) + multiset(s.flush) + multiset(s.chan.pending)
  }

  lemma SendLosesNothing(s: Sys, i: nat)
    requires NothingLost(s) && i < |s.writing|
    ensures NothingLost(Step(s, WriteSends(i)))
  {
    MultisetSplit(s.writing, i);
    if HasEndpoint(s.chan.outEndpoint) {
      assert multiset(s.sent + [s.writing[i]]) == multiset(s.sent) + multiset([s.writing[i]]);
    } else {
      assert multiset(s.lost + [s.writing[i]]) == multiset(s.lost) + multiset([s.writing[i]]);
    }
  }

  lemma FlushLosesNothing(s: Sys)
    requires NothingLost(s)
    ensures NothingLost(Step(s, WireSends))
  {
    assert multiset(s.sent + s.flush) == multiset(s.sent) + multiset(s.flush);
    assert multiset(s.lost + s.flush) == multiset(s.lost) + multiset(s.flush);
  }

  lemma StepLosesNothing(s: Sys, e: Event)
    requires NothingLost(s)
    ensures NothingLost(Step(s, e))
  {
    match e
    case WriteLocked(value) =>
    case WriteSends(i) =>
      if i < |s.writing| {
        SendLosesNothing(s, i);
      }
    case WireLocked(inEndpoint, outEndpoint) =>
    case WireSends => FlushLosesNothing(s);
  }

  lemma MultisetSplit(s: seq<byte>, i: nat)
    requires i < |s|
    ensures multiset(s) == multiset(s[..i] + s[i + 1..]) + multiset([s[i]])
  {
    assert s == s[..i] + ([s[i]] + s[i + 1..]);
  }

  /** Wiring chooses an OUT endpoint that exists. */
  predicate ChoiceExists(c: Chan, e: Event) {
    e.WireLocked? ==> HasEndpoint(Choose(c.outOverride, e.outEndpoint))
  }

  predicate AllChoicesExist(c: Chan, es: seq<Event>) {
    forall i :: 0 <= i < |es| ==> ChoiceExists(c, es[i])
  }

  /** Over all interleavings of any writers with Wire no byte is lost or duplicated; bytes fail to
      reach WriteData only while the wired OUT endpoint number names no endpoint. */
  lemma {:induction false} BufferingLosesNothing(c: Chan, es: seq<Event>)
    ensures NothingLost(Run(Init(c), es))
    ensures AllChoicesExist(c, es) ==> Run(Init(c), es).lost == []
  {
    if AllChoicesExist(c, es) {
      LostOnlyWithoutEndpoint(c, es);
    }
    if es != [] {
      BufferingLosesNothing(c, es[..|es| - 1]);
      StepLosesNothing(Run(Init(c), es[..|es| - 1]), es[|es| - 1]);
    }
  }

  lemma {:induction false} LostOnlyWithoutEndpoint(c: Chan, es: seq<Event>)
    requires AllChoicesExist(c, es)
    ensures var s := Run(Init(c), es);
            && s.lost == [] && s.chan.outOverride == c.outOverride
            && (s.chan.wired ==> HasEndpoint(s.chan.outEndpoint))
            && (!s.chan.wired ==> s.writing == [] && s.flush == [])
  {
    if es != [] {
      LostOnlyWithoutEndpoint(c, es[..|es| - 1]);
    }
  }

  /** One writer at a time, and none between Wire's unlock and its flush. */
  predicate Orderly(s: Sys, e: Event) {
    e.WriteLocked? ==> s.writing == [] && s.flush == []
  }

  ghost predicate AllOrderly(s: Sys, es: seq<Event>) {
    es != [] ==> AllOrderly(s, es[..|es| - 1]) && Orderly(Run(s, es[..|es| - 1]), es[|es| - 1])
  }

  predicate InOrder(s: Sys) {
    && s.accepted == s.sent + s.flush + s.writing + s.chan.pending
    && |s.writing| <= 1 && (s.flush == [] || s.writing == [])
    && (if s.chan.wired then s.chan.pending == [] else s.writing == [] && s.flush == [])
  }

  lemma OrderlyStepKeepsOrder(s: Sys, e: Event)
    requires InOrder(s) && Orderly(s, e) && (s.chan.wired ==> HasEndpoint(s.chan.outEndpoint))
    ensures InOrder(Step(s, e))
  {
  }

  /** Then the endpoint gets the bytes in the order they were written. */
  lemma {:induction false} OrderlyRunsKeepOrder(c: Chan, es: seq<Event>)
    requires AllOrderly(Init(c), es)
    requires AllChoicesExist(c, es)
    ensures InOrder(Run(Init(c), es))
  {
    if es != [] {
      LostOnlyWithoutEndpoint(c, es[..|es| - 1]);
      OrderlyRunsKeepOrder(c, es[..|es| - 1]);
      OrderlyStepKeepsOrder(Run(Init(c), es[..|es| - 1]), es[|es| - 1]);
    }
  }

  /** One WriteChar call with nothing in between. */
  function WriteOne(s: Sys, value: byte): (t: Sys)
    requires s.writing == [] && (s.chan.wired ==> HasEndpoint(s.chan.outEndpoint))
    ensures t == if s.chan.wired then s.(accepted := s.accepted + [value], sent := s.sent + [value])
                 else s.(accepted := s.accepted + [value], chan := s.chan.(pending := s.chan.pending + [value]))
  {
    Step(Step(s, WriteLocked(value)), WriteSends(0))
  }

  /** Bytes written one after another by one thread. */
  function WriteAll(s: Sys, bytes: seq<byte>): (t: Sys)
    requires s.writing == [] && (s.chan.wired ==> HasEndpoint(s.chan.outEndpoint))
    ensures t.writing == [] && t.flush == s.flush && t.chan == s.chan.(pending := t.chan.pending)
    decreases |bytes|
  {
    if bytes == [] then s else WriteAll(WriteOne(s, bytes[0]), bytes[1..])
  }

  lemma {:induction false} WriteAllAppends(s: Sys, bytes: seq<byte>)
    requires s.writing == [] && (s.chan.wired ==> HasEndpoint(s.chan.outEndpoint))
    ensures var t := WriteAll(s, bytes);
            && t.accepted == s.accepted + bytes
            && (s.chan.wired ==> t.sent == s.sent + bytes && t.chan.pending == s.chan.pending)
            && (!s.chan.wired ==> t.sent == s.sent && t.chan.pending == s.chan.pending + bytes)
    decreases |bytes|
  {
    if bytes != [] {
      var u, rest := WriteOne(s, bytes[0]), bytes[1..];
      WriteAllAppends(u, rest);
      assert [bytes[0]] + rest == bytes;
      Assoc(s.accepted, [bytes[0]], rest);
      Assoc(s.sent, [bytes[0]], rest);
      Assoc(s.chan.pending, [bytes[0]], rest);
    }
  }

  // ------------------------------------------------------- one writer, also around the flush

  /** One writer at a time. */
  predicate OneWriter(s: Sys, e: Event) {
    e.WriteLocked? ==> s.writing == []
  }

  ghost predicate AllOneWriter(s: Sys, es: seq<Event>) {
    es != [] ==> AllOneWriter(s, es[..|es| - 1]) && OneWriter(Run(s, es[..|es| - 1]), es[|es| - 1])
  }

  /** The bytes written before the channel was wired, those sent while Wire still held the flush, and
      those sent after it. */
  datatype Parts = Parts(early: seq<byte>, overtaking: seq<byte>, late: seq<byte>)

  function NextParts(p: Parts, s: Sys, e: Event): Parts {
    match e
    case WriteLocked(value) => if s.chan.wired then p else p.(early := p.early + [value])
    case WriteSends(i) =>
      if i >= |s.writing| then p
      else if s.flush != [] then p.(overtaking := p.overtaking + [s.writing[i]])
      else p.(late := p.late + [s.writing[i]])
    case _ => p
  }

  function PartsOf(c: Chan, es: seq<Event>): Parts {
    if es == [] then Parts([], [], [])
    else NextParts(PartsOf(c, es[..|es| - 1]), Run(Init(c), es[..|es| - 1]), es[|es| - 1])
  }

  /** The bytes were written in the order early, overtaking, late, and are sent in the order
      overtaking, early, late. */
  predicate FlushedBetween(s: Sys, p: Parts) {
    && |s.writing| <= 1
    && s.accepted == p.early + p.overtaking + p.late + s.writing
    && (if !s.chan.wired then
          s.chan.pending == p.early && s.sent == s.flush == s.writing == p.overtaking == p.late == []
        else
          && s.chan.pending == []
          && if s.flush != [] then s.flush == p.early && s.sent == p.overtaking && p.late == []
             else s.sent == p.overtaking + p.early + p.late)
  }

  lemma OneWriterStep(s: Sys, p: Parts, e: Event)
    requires FlushedBetween(s, p) && OneWriter(s, e) && (s.chan.wired ==> HasEndpoint(s.chan.outEndpoint))
    ensures FlushedBetween(Step(s, e), NextParts(p, s, e))
  {
  }

  /** In every run with one writer at a time the bytes keep their order, but for those written
      between Wire's unlock and its flush, which move to the front. */
  lemma {:induction false} SingleWriterOrder(c: Chan, es: seq<Event>)
    requires AllOneWriter(Init(c), es)
    requires AllChoicesExist(c, es)
    ensures FlushedBetween(Run(Init(c), es), PartsOf(c, es))
  {
    if es != [] {
      var front := es[..|es| - 1];
      LostOnlyWithoutEndpoint(c, front);
      SingleWriterOrder(c, front);
      OneWriterStep(Run(Init(c), front), PartsOf(c, front), es[|es| - 1]);
    }
  }

  /** Moving a part to the front goes unnoticed, whatever the bytes, exactly when it or the part it
      overtakes is empty. */
  lemma SwapGoesUnnoticed(a: nat, b: nat)
    ensures (forall early: seq<byte>, overtaking: seq<byte>, late: seq<byte> | |early| == a && |overtaking| == b ::
               overtaking + early + late == early + overtaking + late) <==> a == 0 || b == 0
  {
    if a == 0 || b == 0 {
      forall early: seq<byte>, overtaking: seq<byte>, late: seq<byte> | |early| == a && |overtaking| == b
        ensures overtaking + early + late == early + overtaking + late
      {
        assert [] + early == early + [] && [] + overtaking == overtaking + [];
      }
    } else {
      var early, overtaking := Repeat(0, a), Repeat(1, b);
      assert (overtaking + early + [])[0] == 1 && (early + overtaking + [])[0] == 0;
    }
  }

  /** Early writes, then Wire, whose flush is overtaken by some writes, then late writes. */
  function WireRace(
    c: Chan, early: seq<byte>, inEndpoint: nat, outEndpoint: nat, overtaking: seq<byte>, late: seq<byte>): Sys
    requires HasEndpoint(Choose(c.outOverride, outEndpoint))
  {
    var wired := Step(WriteAll(Init(c), early), WireLocked(inEndpoint, outEndpoint));
    WriteAll(Step(WriteAll(wired, overtaking), WireSends), late)
  }

  lemma WireRaceSends(
    c: Chan, early: seq<byte>, inEndpoint: nat, outEndpoint: nat, overtaking: seq<byte>, late: seq<byte>)
    requires HasEndpoint(Choose(c.outOverride, outEndpoint))
    ensures var s := WireRace(c, early, inEndpoint, outEndpoint, overtaking, late);
            s.accepted == early + overtaking + late && s.sent == overtaking + early + late
  {
    WriteAllAppends(Init(c), early);
    var wired := Step(WriteAll(Init(c), early), WireLocked(inEndpoint, outEndpoint));
    assert wired.flush == wired.accepted == early && wired.sent == [];
    FlushOvertaken(wired, overtaking);
    WriteAllAppends(Step(WriteAll(wired, overtaking), WireSends), late);
  }

  lemma FlushOvertaken(wired: Sys, overtaking: seq<byte>)
    requires wired.chan.wired && HasEndpoint(wired.chan.outEndpoint) && wired.writing == [] && wired.sent == []
    ensures var s := Step(WriteAll(wired, overtaking), WireSends);
            && s.chan.wired && s.sent == overtaking + wired.flush && s.accepted == wired.accepted + overtaking
  {
    WriteAllAppends(wired, overtaking);
    assert WriteAll(wired, overtaking).sent == overtaking;
  }

  predicate KeepsOrder(s: Sys) { s.sent == s.accepted }

  /** With `a` bytes queued before wiring and `b` written in the gap, the order is kept whatever the
      bytes are exactly when `a` or `b` is zero. */
  lemma OvertakingWritesReorder(c: Chan, inEndpoint: nat, outEndpoint: nat, a: nat, b: nat)
    requires HasEndpoint(Choose(c.outOverride, outEndpoint))
    ensures (forall early, overtaking, late | |early| == a && |overtaking| == b ::
               KeepsOrder(WireRace(c, early, inEndpoint, outEndpoint, overtaking, late))) <==> a == 0 || b == 0
  {
    SwapGoesUnnoticed(a, b);
    forall early, overtaking, late
      ensures KeepsOrder(WireRace(c, early, inEndpoint, outEndpoint, overtaking, late)) <==>
              overtaking + early + late == early + overtaking + late
    {
      WireRaceSends(c, early, inEndpoint, outEndpoint, overtaking, late);
    }
  }
}
