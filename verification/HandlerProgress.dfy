/** How fast the guest's handler empties an endpoint: the drain bound over whole runs, and progress
    per pass of the handler, in every interleaving with the other threads. */
module HandlerProgress {
  import opened Common
  import opened BulkOut
  import opened DataStatus
  import opened WakeupRun

  /** The events that neither add bytes to endpoint `n` nor take any away except by DMA. */
  predicate Quiet(e: Event, n: EpNum) {
    match e
    case HostWrites(m, data) => m != n
    case GuestWritesSize(m) => m != n
    case DeviceResets => false
    case _ => true
  }

  predicate AllQuiet(es: seq<Event>, n: EpNum) {
    forall i :: 0 <= i < |es| ==> Quiet(es[i], n)
  }

  function Starts(es: seq<Event>, n: EpNum): nat {
    if es == [] then 0
    else Starts(es[..|es| - 1], n) + (if es[|es| - 1].GuestStartsOut? && es[|es| - 1].n == n then 1 else 0)
  }

  ghost function Tasks(s: Sys, n: EpNum): nat
    requires WfSys(s)
  {
    DrainTasks(s.dev.out[n], s.dev.mps)
  }

  lemma QuietStep(s: Sys, e: Event, n: EpNum)
    requires WfSys(s) && InvAt(s, n) && Quiet(e, n)
    ensures var served := if e.GuestStartsOut? && e.n == n then 1 else 0;
            Tasks(Step(s, e), n) == Tasks(s, n) - Min(served, Tasks(s, n))
  {
    if e.GuestStartsOut? && e.n == n && s.dev.out[n].presented.Some? {
      StartShrinks(s.dev.out[n], e.maxCnt, s.dev.mps);
    }
  }

  /** Without new host bytes endpoint `n` needs exactly DrainTasks STARTEPOUT[n] tasks, whatever
      else happens in between and whatever MAXCNT they use. */
  lemma {:induction false} QuietRunDrains(s: Sys, es: seq<Event>, n: EpNum)
    requires Inv(s) && AllQuiet(es, n)
    ensures Tasks(Run(s, es), n) == Tasks(s, n) - Min(Starts(es, n), Tasks(s, n))
    ensures Pending(Run(s, es).dev.out[n]) == [] <==> Starts(es, n) >= Tasks(s, n)
  {
    RunKeepsInv(s, es);
    assert InvAt(Run(s, es), n);
    if es == [] {
      assert InvAt(s, n);
    } else {
      var front, e := es[..|es| - 1], es[|es| - 1];
      assert Quiet(es[|es| - 1], n) && forall i :: 0 <= i < |front| ==> front[i] == es[i];
      QuietRunDrains(s, front, n);
      RunKeepsInv(s, front);
      assert InvAt(Run(s, front), n);
      QuietStep(Run(s, front), e, n);
    }
  }

  /** Complete passes of the handler: steps that bring it back to Idle. */
  ghost function Passes(s: Sys, es: seq<Event>): nat
    requires WfSys(s)
  {
    if es == [] then 0
    else
      var before := Run(s, es[..|es| - 1]);
      Passes(s, es[..|es| - 1])
      + (if before.guest.Acked? && Step(before, es[|es| - 1]).guest.Idle? then 1 else 0)
  }

  /** After `passes` complete passes at most `start - passes` tasks are left; a pass that has read
      the register owes one more. */
  ghost predicate OnPace(s: Sys, n: EpNum, start: nat, passes: nat)
    requires WfSys(s)
  {
    && Tasks(s, n) <= start - Min(passes, start)
    && (s.guest.Read? && Tasks(s, n) > 0 ==> OutBit(n) in s.guest.word)
    && (s.guest.Acked? && OutBit(n) !in s.guest.owed ==> Tasks(s, n) <= start - Min(passes + 1, start))
  }

  lemma StepKeepsPace(s: Sys, e: Event, n: EpNum, start: nat, passes: nat)
    requires WfSys(s) && InvAt(s, n) && Quiet(e, n) && OnPace(s, n, start, passes)
    ensures var t := Step(s, e);
            OnPace(t, n, start, if s.guest.Acked? && t.guest.Idle? then passes + 1 else passes)
  {
    QuietStep(s, e, n);
    if e.GuestReads? {
      StatusWordBits(s.dev, n);
    }
  }

  /** Every complete pass of the handler brings the endpoint one task closer to empty, so after
      DrainTasks passes nothing is left, in every interleaving. */
  lemma {:induction false} PassesDrain(s: Sys, es: seq<Event>, n: EpNum)
    requires Inv(s) && s.guest.Idle? && AllQuiet(es, n)
    ensures OnPace(Run(s, es), n, Tasks(s, n), Passes(s, es))
  {
    if es != [] {
      var front, e := es[..|es| - 1], es[|es| - 1];
      assert Quiet(es[|es| - 1], n) && forall i :: 0 <= i < |front| ==> front[i] == es[i];
      PassesDrain(s, front, n);
      RunKeepsInv(s, front);
      assert InvAt(Run(s, front), n);
      QuietStep(Run(s, front), e, n);
      StepKeepsPace(Run(s, front), e, n, Tasks(s, n), Passes(s, front));
    }
  }

  lemma EnoughPassesEmpty(s: Sys, es: seq<Event>, n: EpNum)
    requires Inv(s) && s.guest.Idle? && AllQuiet(es, n) && Passes(s, es) >= Tasks(s, n)
    ensures Pending(Run(s, es).dev.out[n]) == [] && Run(s, es).written[n] == AllRetired(Run(s, es).retired[n])
  {
    PassesDrain(s, es, n);
    RunKeepsInv(s, es);
    assert InvAt(Run(s, es), n);
  }
}
