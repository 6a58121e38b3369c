/** The device-to-host pump of one CDC channel: a one-shot read callback on an IN endpoint that is
    re-armed after every delivery (scripts/lib/renode/platforms/models/DualCdcAcmBridge.cs:222-277).
    The framework endpoint is modelled as the comments there describe it: a buffer of chunks behind a
    lock, one callback, and the callback set to null after it returns from a HandlePacket. */
module DeviceToHostPump {
  import opened Common

  /** Where the holder of the endpoint's buffer lock stands; `packet` tells HandlePacket, which
      clears the callback on its way out, from SetDataReadCallbackOneShot, which does not. */
  datatype Phase = Unlocked | Delivering(data: seq<byte>, packet: bool) | Unwinding(packet: bool)

  /** `rearms` counts the re-arm jobs waiting in the thread pool; `sent` and `delivered` are
      histories of the guest's IN transfers and of the bytes handed to the terminal. */
  datatype Pump = Pump(
    buffer: seq<seq<byte>>, armed: bool, phase: Phase, rearms: nat, sent: seq<byte>, delivered: seq<byte>)

  datatype Event =
    | GuestSends(data: seq<byte>, marker: bool)
    | CallbackRuns
    | LockReleased
    | JobRuns

  /** Wiring arms the pump once; chunks sent before that may already wait in the buffer. */
  function Start(early: seq<seq<byte>>): Pump {
    Pump(early, false, Unlocked, 1, Concat(early), [])
  }

  /** SetDataReadCallbackOneShot under the lock: hand over a waiting chunk, or arm. */
  function Arm(p: Pump, packet: bool, otherwise: Phase): Pump {
    if p.buffer != [] then p.(buffer := p.buffer[1..], phase := Delivering(p.buffer[0], packet))
    else p.(armed := true, phase := otherwise)
  }

  /** One step. `deferred` is the bridge as it is; otherwise the callback re-arms synchronously. */
  function Step(p: Pump, e: Event, deferred: bool): Pump {
    match e
    case GuestSends(data, marker) =>
      if !p.phase.Unlocked? then p
      else
        var q := p.(buffer := p.buffer + [data] + (if marker then [[]] else []), sent := p.sent + data);
        if q.armed then q.(buffer := q.buffer[1..], phase := Delivering(q.buffer[0], true)) else q
    case CallbackRuns =>
      if !p.phase.Delivering? then p
      else
        var q := p.(delivered := p.delivered + p.phase.data);
        if deferred then q.(rearms := q.rearms + 1, phase := Unwinding(p.phase.packet))
        else Arm(q, p.phase.packet, Unwinding(p.phase.packet))
    case LockReleased =>
      if !p.phase.Unwinding? then p
      else p.(phase := Unlocked, armed := p.armed && !p.phase.packet)
    case JobRuns =>
      if !p.phase.Unlocked? || p.rearms == 0 then p
      else Arm(p.(rearms := p.rearms - 1), false, Unlocked)
  }

  function Run(p: Pump, es: seq<Event>, deferred: bool): Pump
    decreases |es|
  {
    if es == [] then p else Run(Step(p, es[0], deferred), es[1..], deferred)
  }

  predicate WillClear(ph: Phase) {
    !ph.Unlocked? && ph.packet
  }

  /** How many ways the next chunk has of being delivered: callback armed for good, callback
      running, or re-arm queued. */
  function Tokens(p: Pump): nat {
    (if p.armed && !WillClear(p.phase) then 1 else 0) + (if p.phase.Delivering? then 1 else 0) + p.rearms
  }

  function InFlight(ph: Phase): seq<byte> {
    if ph.Delivering? then ph.data else []
  }

  predicate PumpInv(p: Pump) {
    && Tokens(p) == 1
    && p.sent == p.delivered + InFlight(p.phase) + Concat(p.buffer)
    && (p.armed && !WillClear(p.phase) ==> p.buffer == [])
    && (WillClear(p.phase) ==> p.armed)
  }

  lemma ArmKeepsBytes(p: Pump, packet: bool, otherwise: Phase)
    requires !otherwise.Delivering?
    ensures var q := Arm(p, packet, otherwise);
            InFlight(q.phase) + Concat(q.buffer) == Concat(p.buffer) && q.delivered == p.delivered
  {
  }

  lemma SendKeepsBytes(buffer: seq<seq<byte>>, data: seq<byte>, marker: bool)
    ensures Concat(buffer + [data] + (if marker then [[]] else [])) == Concat(buffer) + data
  {
    ConcatSnoc(buffer, data);
    if marker {
      ConcatSnoc(buffer + [data], []);
      assert Concat(buffer + [data]) + [] == Concat(buffer + [data]);
    } else {
      assert buffer + [data] + [] == buffer + [data];
    }
  }

  lemma SendKeepsToken(p: Pump, data: seq<byte>, marker: bool)
    requires PumpInv(p) && p.phase.Unlocked?
    ensures PumpInv(Step(p, GuestSends(data, marker), true))
  {
    SendKeepsBytes(p.buffer, data, marker);
    Assoc(p.delivered, Concat(p.buffer), data);
    assert p.sent == p.delivered + Concat(p.buffer);
    if p.armed {
      assert p.buffer == [];
    }
  }

  lemma StepKeepsToken(p: Pump, e: Event)
    requires PumpInv(p)
    ensures PumpInv(Step(p, e, true))
  {
    match e
    case GuestSends(data, marker) =>
      if p.phase.Unlocked? {
        SendKeepsToken(p, data, marker);
      }
    case CallbackRuns =>
    case LockReleased =>
    case JobRuns =>
      if p.phase.Unlocked? && p.rearms > 0 {
        ArmKeepsBytes(p.(rearms := p.rearms - 1), false, Unlocked);
      }
  }

  lemma {:induction false} RunKeepsToken(p: Pump, es: seq<Event>)
    requires PumpInv(p)
    ensures PumpInv(Run(p, es, true))
    decreases |es|
  {
    if es != [] {
      StepKeepsToken(p, es[0]);
      RunKeepsToken(Step(p, es[0], true), es[1..]);
    }
  }

  /** The bytes of the guest's IN transfers in a run: those that found the buffer lock free. */
  function GuestStream(p: Pump, es: seq<Event>, deferred: bool): seq<byte>
    decreases |es|
  {
    if es == [] then []
    else (if es[0].GuestSends? && p.phase.Unlocked? then es[0].data else [])
         + GuestStream(Step(p, es[0], deferred), es[1..], deferred)
  }

  lemma {:induction false} SentIsTheGuestStream(p: Pump, es: seq<Event>, deferred: bool)
    ensures Run(p, es, deferred).sent == p.sent + GuestStream(p, es, deferred)
    decreases |es|
  {
    if es != [] {
      var q := Step(p, es[0], deferred);
      SentIsTheGuestStream(q, es[1..], deferred);
      var data := if es[0].GuestSends? && p.phase.Unlocked? then es[0].data else [];
      assert q.sent == p.sent + data by {
        assert p.sent + [] == p.sent;
      }
      Assoc(p.sent, data, GuestStream(q, es[1..], deferred));
    }
  }

  /** In every run exactly one token exists, every byte the guest sent is delivered, being
      delivered or buffered, in order, and nothing is left behind once no job is queued. */
  lemma PumpDeliversInOrder(early: seq<seq<byte>>, es: seq<Event>)
    ensures var p, stream := Run(Start(early), es, true), Concat(early) + GuestStream(Start(early), es, true);
            && Tokens(p) == 1
            && stream == p.delivered + InFlight(p.phase) + Concat(p.buffer)
            && (p.phase.Unlocked? && p.rearms == 0 ==> p.delivered == stream)
  {
    RunKeepsToken(Start(early), es);
    SentIsTheGuestStream(Start(early), es, true);
  }

  // ------------------------------------------------------- the pump never gets stuck

  /** The callback is armed and everything the guest sent has been delivered. */
  predicate Resting(p: Pump) {
    p.phase.Unlocked? && p.armed && p.rearms == 0 && p.buffer == [] && p.delivered == p.sent
  }

  /** The callback runs, the lock is released, a re-arm job runs: what of it is due. */
  function OneRound(p: Pump): Pump {
    Step(Step(Step(p, CallbackRuns, true), LockReleased, true), JobRuns, true)
  }

  lemma RoundAdvances(p: Pump)
    requires PumpInv(p)
    ensures var q := OneRound(p);
            && PumpInv(q) && q.sent == p.sent
            && (Resting(q) || (q.phase.Delivering? && |q.buffer| < |p.buffer|))
  {
    StepKeepsToken(p, CallbackRuns);
    var called := Step(p, CallbackRuns, true);
    StepKeepsToken(called, LockReleased);
    var released := Step(called, LockReleased, true);
    assert released.phase.Unlocked? && released.sent == p.sent && released.buffer == p.buffer;
    StepKeepsToken(released, JobRuns);
    EmptyIsDelivered(OneRound(p));
  }

  lemma EmptyIsDelivered(p: Pump)
    requires PumpInv(p)
    ensures p.buffer == [] && !p.phase.Delivering? ==> p.delivered == p.sent
  {
  }

  predicate NoSends(es: seq<Event>) {
    forall i :: 0 <= i < |es| ==> !es[i].GuestSends?
  }

  /** From every state some callbacks, lock releases and re-arm jobs deliver everything and leave the
      callback armed for the next packet. */
  lemma {:induction false} PumpDrains(p: Pump) returns (more: seq<Event>)
    requires PumpInv(p)
    ensures NoSends(more) && Resting(Run(p, more, true)) && Run(p, more, true).sent == p.sent
    decreases |p.buffer|
  {
    var round := [CallbackRuns, LockReleased, JobRuns];
    RunThree(p, CallbackRuns, LockReleased, JobRuns, true);
    RoundAdvances(p);
    if Resting(OneRound(p)) {
      more := round;
    } else {
      var rest := PumpDrains(OneRound(p));
      more := round + rest;
      RunAppend(p, round, rest, true);
    }
  }

  lemma {:induction false} RunAppend(p: Pump, a: seq<Event>, b: seq<Event>, deferred: bool)
    ensures Run(p, a + b, deferred) == Run(Run(p, a, deferred), b, deferred)
    decreases |a|
  {
    if a == [] {
      assert a + b == b;
    } else {
      assert (a + b)[0] == a[0] && (a + b)[1..] == a[1..] + b;
      RunAppend(Step(p, a[0], deferred), a[1..], b, deferred);
    }
  }

  /** Wherever a run has got to, it can be continued, without the guest, until all that the guest has
      sent is delivered in order and the callback is armed. */
  lemma EverythingCanBeDelivered(early: seq<seq<byte>>, es: seq<Event>) returns (more: seq<Event>)
    ensures NoSends(more)
    ensures var p := Run(Start(early), es + more, true);
            && p.phase.Unlocked? && p.armed && p.rearms == 0 && p.buffer == []
            && p.delivered == Concat(early) + GuestStream(Start(early), es, true)
  {
    RunKeepsToken(Start(early), es);
    SentIsTheGuestStream(Start(early), es, true);
    more := PumpDrains(Run(Start(early), es, true));
    RunAppend(Start(early), es, more, true);
  }

  // ------------------------------------------------------- why the re-arm is deferred

  predicate Dead(p: Pump) {
    p.phase.Unlocked? && !p.armed && p.rearms == 0
  }

  lemma {:induction false} DeadStaysDead(p: Pump, es: seq<Event>, deferred: bool)
    requires Dead(p)
    ensures var q := Run(p, es, deferred); Dead(q) && q.delivered == p.delivered
    decreases |es|
  {
    if es != [] {
      DeadStaysDead(Step(p, es[0], deferred), es[1..], deferred);
    }
  }

  /** With the synchronous re-arm the first packet handed to an armed callback is delivered and
      then nothing ever is: whatever follows, the delivered bytes no longer change. */
  lemma SynchronousRearmDies(p: Pump, data: seq<byte>, marker: bool, es: seq<Event>)
    requires PumpInv(p) && p.phase.Unlocked? && p.armed
    ensures var handled := if marker then [GuestSends(data, marker), CallbackRuns, CallbackRuns, LockReleased]
                           else [GuestSends(data, marker), CallbackRuns, LockReleased];
            var q := Run(Run(p, handled, false), es, false);
            Dead(q) && q.delivered == p.sent + data
  {
    var q1 := Step(p, GuestSends(data, marker), false);
    assert q1.phase == Delivering(data, true) && q1.buffer == if marker then [[]] else [];
    var q2 := Step(q1, CallbackRuns, false);
    var q3 := if marker then Step(q2, CallbackRuns, false) else q2;
    var q4 := Step(q3, LockReleased, false);
    assert Dead(q4) && q4.delivered == p.delivered + data;
    RunThree(p, GuestSends(data, marker), CallbackRuns, LockReleased, false);
    RunFour(p, GuestSends(data, marker), CallbackRuns, CallbackRuns, LockReleased);
    DeadStaysDead(q4, es, false);
  }

  lemma RunThree(p: Pump, a: Event, b: Event, c: Event, deferred: bool)
    ensures Run(p, [a, b, c], deferred) == Step(Step(Step(p, a, deferred), b, deferred), c, deferred)
  {
    assert [a, b, c][1..] == [b, c] && [b, c][1..] == [c] && [c][1..] == [];
    var q := Step(p, a, deferred);
    assert Run(q, [b, c], deferred) == Run(Step(q, b, deferred), [c], deferred);
  }

  lemma RunFour(p: Pump, a: Event, b: Event, c: Event, d: Event)
    ensures Run(p, [a, b, c, d], false) == Step(Step(Step(Step(p, a, false), b, false), c, false), d, false)
  {
    assert [a, b, c, d][1..] == [b, c, d];
    RunThree(Step(p, a, false), b, c, d, false);
  }
}
