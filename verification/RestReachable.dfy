/** From every reachable state the guest's handler can bring the device to rest, with every host byte
    in guest memory: the machine of WakeupRun never gets stuck. */
module RestReachable {
  import opened Common
  import opened BulkOut
  import opened DataStatus
  import opened WakeupRun
  import opened HandlerProgress

  lemma {:induction false} RunAppend(s: Sys, a: seq<Event>, b: seq<Event>)
    requires WfSys(s)
    ensures Run(s, a + b) == Run(Run(s, a), b)
  {
    if b == [] {
      assert a + b == a;
    } else {
      assert (a + b)[..|a + b| - 1] == a + b[..|b| - 1];
      RunAppend(s, a, b[..|b| - 1]);
    }
  }

  lemma {:induction false} StartsAppend(a: seq<Event>, b: seq<Event>, n: EpNum)
    ensures Starts(a + b, n) == Starts(a, n) + Starts(b, n)
  {
    if b == [] {
      assert a + b == a;
    } else {
      assert (a + b)[..|a + b| - 1] == a + b[..|b| - 1];
      StartsAppend(a, b[..|b| - 1], n);
    }
  }

  /** What the schedule is made of: steps of the handler with the largest MAXCNT, and threads that
      raise EPDATA. */
  predicate Scheduled(e: Event) {
    match e
    case RaiseEpData => true
    case GuestClears => true
    case GuestReads => true
    case GuestAcks => true
    case GuestStartsOut(_, maxCnt) => maxCnt == 127
    case GuestFinishes => true
    case _ => false
  }

  predicate AllScheduled(es: seq<Event>) {
    forall i :: 0 <= i < |es| ==> Scheduled(es[i])
  }

  const LAST_ENDPOINT: EpNum := 7

  /** One DMA on each of the first `k` endpoints. */
  function Serving(k: nat): (es: seq<Event>)
    requires k <= LAST_ENDPOINT
    ensures AllScheduled(es)
  {
    if k == 0 then [] else Serving(k - 1) + [GuestStartsOut(k, 127)]
  }

  lemma {:induction false} ServingStarts(k: nat, n: EpNum)
    requires k <= LAST_ENDPOINT
    ensures Starts(Serving(k), n) == if n <= k then 1 else 0
  {
    if k > 0 {
      ServingStarts(k - 1, n);
    }
  }

  function Head(): seq<Event> { [GuestClears, GuestReads, GuestAcks] }

  /** One pass of the handler, from wherever it stands. */
  function Pass(): (es: seq<Event>)
    ensures AllScheduled(es)
  {
    Head() + Serving(LAST_ENDPOINT) + [GuestFinishes]
  }

  function Passing(k: nat): (es: seq<Event>)
    ensures AllScheduled(es)
  {
    if k == 0 then [] else Passing(k - 1) + Pass()
  }

  lemma HeadStartsNothing(n: EpNum)
    ensures Starts(Head(), n) == 0 && Starts([GuestFinishes], n) == 0
  {
    var head := Head();
    assert head[..2][..1] == head[..1] && head[..1][..0] == [] && [GuestFinishes][..0] == [];
    assert Starts(head[..1], n) == 0 && Starts(head[..2], n) == 0;
  }

  lemma PassStarts(n: EpNum)
    ensures Starts(Pass(), n) == 1
  {
    HeadStartsNothing(n);
    ServingStarts(LAST_ENDPOINT, n);
    StartsAppend(Head(), Serving(LAST_ENDPOINT), n);
    StartsAppend(Head() + Serving(LAST_ENDPOINT), [GuestFinishes], n);
  }

  lemma {:induction false} PassingStarts(k: nat, n: EpNum)
    ensures Starts(Passing(k), n) == k
  {
    if k > 0 {
      PassingStarts(k - 1, n);
      var before := Passing(k - 1);
      OneMorePass(before, n);
    }
  }

  lemma OneMorePass(es: seq<Event>, n: EpNum)
    ensures Starts(es + Pass(), n) == Starts(es, n) + 1
  {
    PassStarts(n);
    StartsAppend(es, Pass(), n);
  }

  /** The guest has acknowledged a word and owes nothing to the first `k` endpoints. */
  ghost predicate Served(g: Guest, k: nat) {
    g.Acked? && forall n: EpNum :: n <= k ==> OutBit(n) !in g.owed
  }

  lemma ServeStep(s: Sys, n: EpNum, maxCnt: Bits7)
    requires WfSys(s) && Served(s.guest, n - 1)
    ensures Served(Step(s, GuestStartsOut(n, maxCnt)).guest, n)
  {
  }

  lemma {:induction false} ServingServes(s: Sys, k: nat)
    requires WfSys(s) && k <= LAST_ENDPOINT && s.guest.Acked?
    ensures Served(Run(s, Serving(k)).guest, k)
  {
    if k > 0 {
      ServingServes(s, k - 1);
      RunSnoc(s, Serving(k - 1), GuestStartsOut(k, 127));
      ServeStep(Run(s, Serving(k - 1)), k, 127);
    }
  }

  lemma RunThree(s: Sys, a: Event, b: Event, c: Event)
    requires WfSys(s)
    ensures Run(s, [a, b, c]) == Step(Step(Step(s, a), b), c)
  {
    assert [a, b, c] == [a] + [b] + [c] && [] + [a] == [a];
    RunSnoc(s, [], a);
    RunSnoc(s, [a], b);
    RunSnoc(s, [a] + [b], c);
  }

  ghost predicate Emptied(s: Sys)
    requires WfSys(s)
  {
    forall n: EpNum :: s.dev.out[n].presented.None?
  }

  lemma HeadSteps(s: Sys)
    requires WfSys(s)
    ensures Run(s, Head()) == Step(Step(Step(s, GuestClears), GuestReads), GuestAcks)
  {
    RunThree(s, GuestClears, GuestReads, GuestAcks);
  }

  lemma ClearStep(s: Sys)
    requires WfSys(s)
    ensures var t := Step(s, GuestClears);
            !t.guest.Idle? && t.raises == s.raises && t.dev.out == s.dev.out && (s.guest.Idle? ==> !t.dev.epData)
  {
  }

  lemma ReadStep(s: Sys)
    requires WfSys(s) && !s.guest.Idle?
    ensures var t := Step(s, GuestReads); (t.guest.Read? || t.guest.Acked?) && t.raises == s.raises && t.dev == s.dev
  {
  }

  lemma AckStep(s: Sys)
    requires WfSys(s) && (s.guest.Read? || s.guest.Acked?)
    ensures var t := Step(s, GuestAcks);
            t.guest.Acked? && t.raises == s.raises && t.dev.epData == s.dev.epData && (Emptied(s) ==> Emptied(t))
  {
  }

  /** The first three accesses leave the guest with a word to serve; a pass from Idle clears EPDATA. */
  lemma HeadAcks(s: Sys)
    requires WfSys(s)
    ensures var t := Run(s, Head());
            && t.guest.Acked? && t.raises == s.raises && (s.guest.Idle? ==> !t.dev.epData)
            && (Emptied(s) ==> Emptied(t))
  {
    HeadSteps(s);
    var cleared := Step(s, GuestClears);
    ClearStep(s);
    ReadStep(cleared);
    AckStep(Step(cleared, GuestReads));
  }

  lemma FinishStep(s: Sys)
    requires WfSys(s) && Served(s.guest, LAST_ENDPOINT)
    ensures Step(s, GuestFinishes) == s.(guest := Idle)
  {
  }

  lemma PassSplits(s: Sys)
    requires WfSys(s)
    ensures Run(s, Pass()) == Step(Run(Run(s, Head()), Serving(LAST_ENDPOINT)), GuestFinishes)
  {
    RunAppend(s, Head(), Serving(LAST_ENDPOINT));
    RunSnoc(s, Head() + Serving(LAST_ENDPOINT), GuestFinishes);
  }

  lemma PassEndsIdle(s: Sys)
    requires WfSys(s)
    ensures Run(s, Pass()).guest == Idle
  {
    PassSplits(s);
    HeadAcks(s);
    ServingServes(Run(s, Head()), LAST_ENDPOINT);
    FinishStep(Run(Run(s, Head()), Serving(LAST_ENDPOINT)));
  }

  /** Threads that have left the lock raise EPDATA one after the other. */
  function Raising(k: nat): (es: seq<Event>)
    ensures AllScheduled(es)
  {
    if k == 0 then [] else Raising(k - 1) + [RaiseEpData]
  }

  lemma {:induction false} RaisingRaises(s: Sys, k: nat)
    requires WfSys(s) && k <= s.raises
    ensures var t := Run(s, Raising(k));
            t.raises == s.raises - k && t.guest == s.guest && t.dev.out == s.dev.out && (k > 0 ==> t.dev.epData)
  {
    if k > 0 {
      RaisingRaises(s, k - 1);
      RunSnoc(s, Raising(k - 1), RaiseEpData);
    }
  }

  lemma SilentStep(s: Sys, n: EpNum, maxCnt: Bits7)
    requires WfSys(s) && Emptied(s)
    ensures var t := Step(s, GuestStartsOut(n, maxCnt));
            Emptied(t) && t.raises == s.raises && t.dev.epData == s.dev.epData
  {
  }

  lemma {:induction false} ServingKeepsSilence(s: Sys, k: nat)
    requires WfSys(s) && k <= LAST_ENDPOINT && Emptied(s)
    ensures var t := Run(s, Serving(k)); Emptied(t) && t.raises == s.raises && t.dev.epData == s.dev.epData
  {
    if k > 0 {
      ServingKeepsSilence(s, k - 1);
      RunSnoc(s, Serving(k - 1), GuestStartsOut(k, 127));
      SilentStep(Run(s, Serving(k - 1)), k, 127);
    }
  }

  /** With nothing left to do, one more pass ends at rest. */
  lemma LastPass(s: Sys)
    requires WfSys(s) && Emptied(s) && s.guest.Idle? && s.raises == 0
    ensures Quiescent(Run(s, Pass()))
  {
    PassSplits(s);
    HeadAcks(s);
    var acked := Run(s, Head());
    ServingServes(acked, LAST_ENDPOINT);
    ServingKeepsSilence(acked, LAST_ENDPOINT);
    FinishStep(Run(acked, Serving(LAST_ENDPOINT)));
  }

  ghost function MostTasks(s: Sys, k: nat): (m: nat)
    requires WfSys(s) && k <= LAST_ENDPOINT
    ensures forall n: EpNum :: n <= k ==> Tasks(s, n) <= m
  {
    if k == 0 then 0
    else
      var rest := MostTasks(s, k - 1);
      if Tasks(s, k) > rest then Tasks(s, k) else rest
  }

  lemma {:induction false} PassesEmpty(s: Sys, k: nat)
    requires Inv(s) && k > 0 && forall n: EpNum :: Tasks(s, n) <= k
    ensures var t := Run(s, Passing(k)); Emptied(t) && t.guest == Idle
  {
    var t := Run(s, Passing(k));
    RunKeepsInv(s, Passing(k));
    forall n: EpNum ensures t.dev.out[n].presented.None? {
      PassingStarts(k, n);
      assert AllQuiet(Passing(k), n) by {
        forall i | 0 <= i < |Passing(k)| ensures Quiet(Passing(k)[i], n) {
          assert Scheduled(Passing(k)[i]);
        }
      }
      QuietRunDrains(s, Passing(k), n);
      assert InvAt(t, n);
    }
    RunAppend(s, Passing(k - 1), Pass());
    PassEndsIdle(Run(s, Passing(k - 1)));
  }

  /** From every reachable state some steps of the handler and of threads already past their lock
      lead to rest. */
  lemma RestIsReachable(s: Sys) returns (more: seq<Event>)
    requires Inv(s)
    ensures AllScheduled(more) && Quiescent(Run(s, more))
  {
    var k := MostTasks(s, LAST_ENDPOINT) + 1;
    PassesEmpty(s, k);
    var last := RestFromEmptied(Run(s, Passing(k)));
    more := Passing(k) + last;
    RunAppend(s, Passing(k), last);
  }

  lemma RestFromEmptied(s: Sys) returns (more: seq<Event>)
    requires WfSys(s) && Emptied(s) && s.guest.Idle?
    ensures AllScheduled(more) && Quiescent(Run(s, more))
  {
    RaisingRaises(s, s.raises);
    LastPass(Run(s, Raising(s.raises)));
    more := Raising(s.raises) + Pass();
    RunAppend(s, Raising(s.raises), Pass());
  }

  lemma {:induction false} ScheduledIsFaithful(s: Sys, es: seq<Event>, more: seq<Event>)
    requires WfSys(s) && Faithful(s, es) && AllScheduled(more)
    ensures Faithful(s, es + more)
    decreases |more|
  {
    if more == [] {
      assert es + more == es;
    } else {
      var front, e := more[..|more| - 1], more[|more| - 1];
      ScheduledIsFaithful(s, es, front);
      assert es + more == es + front + [e] && Scheduled(more[|more| - 1]);
      RunSnoc(s, es + front, e);
    }
  }

  lemma {:induction false} ScheduledAddsNoBytes(es: seq<Event>, more: seq<Event>, n: EpNum)
    requires AllScheduled(more)
    ensures HostStream(es + more, n) == HostStream(es, n)
    decreases |more|
  {
    if more == [] {
      assert es + more == es;
    } else {
      var front, e := more[..|more| - 1], more[|more| - 1];
      ScheduledAddsNoBytes(es, front, n);
      assert (es + more)[..|es + more| - 1] == es + front && Scheduled(more[|more| - 1]);
      assert HostStream(es + front, n) + [] == HostStream(es + front, n);
    }
  }

  /** Wherever a faithful run has got to, it can be continued to a state at rest in which every byte
      the host has written is in guest memory. */
  lemma StreamCanArrive(mps: nat, es: seq<Event>) returns (more: seq<Event>)
    requires 0 < mps < 128 && Faithful(Init(mps), es)
    ensures AllScheduled(more) && Faithful(Init(mps), es + more)
    ensures var t := Run(Init(mps), es + more);
            Quiescent(t) && forall n: EpNum :: Delivered(t.retired[n]) == HostStream(es, n)
  {
    NoLostWakeup(mps, es);
    more := RestIsReachable(Run(Init(mps), es));
    RunAppend(Init(mps), es, more);
    ScheduledIsFaithful(Init(mps), es, more);
    forall n: EpNum ensures Delivered(Run(Init(mps), es + more).retired[n]) == HostStream(es, n) {
      FaithfulGuestGetsTheStream(mps, es + more, n);
      ScheduledAddsNoBytes(es, more, n);
    }
  }
}
