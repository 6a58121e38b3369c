/** What the guest reads from EPDATASTATUS over whole runs, told from the events alone
    (scripts/lib/renode/platforms/models/NRF_USBD_Full.cs:204-259, 309-322, 414-434). */
module StatusHistory {
  import opened Common
  import opened BulkOut
  import opened DataStatus
  import opened WakeupRun

  /** The guest writes back a word that names bit `b`. */
  predicate Acknowledges(s: Sys, e: Event, b: nat) {
    e.GuestAcks? && s.guest.Read? && b in s.guest.word
  }

  /** An IN transfer of endpoint `n` was completed and not acknowledged since. */
  function InCompleted(mps: nat, es: seq<Event>, n: EpNum): bool
    requires mps > 0
  {
    if es == [] then false
    else
      var s, e := Run(Init(mps), es[..|es| - 1]), es[|es| - 1];
      if e.DeviceResets? || Acknowledges(s, e, n) then false
      else if e.GuestSendsIn? && e.n == n then true
      else InCompleted(mps, es[..|es| - 1], n)
  }

  /** The event offers the guest another chunk on endpoint `n`. */
  predicate Presents(s: Sys, e: Event, n: EpNum)
    requires WfSys(s)
  {
    var ep := s.dev.out[n];
    match e
    case HostWrites(m, data) => m == n && data != [] && ep.presented.None?
    case GuestStartsOut(m, _) => m == n && ep.presented.Some? && ep.queue != []
    case GuestWritesSize(m) => m == n && ep.queue != []
    case _ => false
  }

  /** A chunk was presented on endpoint `n` and not acknowledged since. */
  function OutOffered(mps: nat, es: seq<Event>, n: EpNum): bool
    requires mps > 0
  {
    if es == [] then false
    else
      var s, e := Run(Init(mps), es[..|es| - 1]), es[|es| - 1];
      if e.DeviceResets? || Acknowledges(s, e, 16 + n) then false
      else if Presents(s, e, n) then true
      else OutOffered(mps, es[..|es| - 1], n)
  }

  lemma InStep(s: Sys, e: Event, n: EpNum)
    requires WfSys(s)
    ensures n in Step(s, e).dev.inStatus <==>
            !e.DeviceResets? && !Acknowledges(s, e, n) && ((e.GuestSendsIn? && e.n == n) || n in s.dev.inStatus)
  {
  }

  lemma OutStep(s: Sys, e: Event, n: EpNum)
    requires WfSys(s) && BytesAt(s, n)
    ensures Step(s, e).dev.out[n].status <==>
            !e.DeviceResets? && !Acknowledges(s, e, 16 + n) && (Presents(s, e, n) || s.dev.out[n].status)
  {
  }

  lemma WordBits(d: Usbd, n: EpNum)
    requires Wf(d)
    ensures n in StatusWord(d) <==> n in d.inStatus
    ensures 16 + n in StatusWord(d) <==> d.out[n].status
    ensures forall b :: b in StatusWord(d) ==> 1 <= b <= 7 || 17 <= b <= 23
  {
  }

  /** In every run bit n reads one exactly while a completed IN transfer of endpoint n is not
      acknowledged, bit 16 + n exactly while a chunk offered on it is not, and no other bit ever. */
  lemma {:induction false} StatusReads(mps: nat, es: seq<Event>, n: EpNum)
    requires mps > 0
    ensures var word := StatusWord(Run(Init(mps), es).dev);
            && (n in word <==> InCompleted(mps, es, n))
            && (16 + n in word <==> OutOffered(mps, es, n))
            && forall b :: b in word ==> 1 <= b <= 7 || 17 <= b <= 23
  {
    WordBits(Run(Init(mps), es).dev, n);
    if es != [] {
      var front := es[..|es| - 1];
      StatusReads(mps, front, n);
      WordBits(Run(Init(mps), front).dev, n);
      NoLostWakeup(mps, front);
      assert InvAt(Run(Init(mps), front), n);
      InStep(Run(Init(mps), front), es[|es| - 1], n);
      OutStep(Run(Init(mps), front), es[|es| - 1], n);
    }
  }
}
