/** The register interface of the fake CCM peripheral: when the transform runs
    (scripts/lib/renode/platforms/models/ccm.py:67-123, 190-241). */
module FakeCcm {
  import opened Common
  import opened Memory
  import opened CcmTransform

  const TASKS_KSGEN := 0x000
  const TASKS_CRYPT := 0x004
  const TASKS_STOP := 0x008
  const EVENTS_ENDKSGEN := 0x100
  const EVENTS_ENDCRYPT := 0x104
  const EVENTS_ERROR := 0x108
  const SHORTS := 0x200
  const MICSTATUS := 0x400
  const MODE := 0x504
  const INPTR := 0x50C
  const OUTPTR := 0x510

  /** The state kept for one machine, and that machine's memory. */
  datatype Ccm = Ccm(
    regs: map<nat, nat>, endksgen: nat, endcrypt: nat, error: nat, micstatus: nat, pending: Option<Op>, mem: Mem)

  /** A register access, or a write to memory by anyone else on the bus. */
  datatype Event = Read(offset: nat) | Write(offset: nat, value: nat) | BusWrite(at: int, stored: byte)

  function Reg(c: Ccm, offset: nat): nat {
    if offset in c.regs then c.regs[offset] else 0
  }

  function Snapshot(c: Ccm): Op {
    Op(Reg(c, MODE) % 2 == 1, Reg(c, INPTR), Reg(c, OUTPTR))
  }

  /** The flags a transform leaves; a failed one keeps MICSTATUS. */
  function Report(c: Ccm, op: Op, mem: Mem, outcome: Outcome): Ccm {
    c.(pending := None, mem := mem, endcrypt := 1,
       error := if outcome.Failed? then 1 else 0,
       micstatus := if outcome.Failed? then c.micstatus else if op.decrypt then 1 else 0)
  }

  function Transformed(c: Ccm): Ccm {
    if c.pending.None? then c
    else
      var op := c.pending.value;
      var (mem, outcome) := Transform(c.mem, op);
      Report(c, op, mem, outcome)
  }

  /** Record the operation; the peripheral as it is (`eager`) also performs it. */
  function Scheduled(c: Ccm, eager: bool): Ccm {
    var scheduled := c.(pending := Some(Snapshot(c)));
    if eager then Transformed(scheduled) else scheduled
  }

  function HandleRead(c: Ccm, offset: nat): (Ccm, nat) {
    var d := if offset == EVENTS_ENDCRYPT || offset == MICSTATUS then Transformed(c) else c;
    (d, if offset == EVENTS_ENDKSGEN then d.endksgen
        else if offset == EVENTS_ENDCRYPT then d.endcrypt
        else if offset == EVENTS_ERROR then d.error
        else if offset == MICSTATUS then d.micstatus
        else Reg(d, offset))
  }

  function HandleWrite(c: Ccm, offset: nat, value: nat, eager: bool): Ccm {
    if offset == TASKS_KSGEN then
      var d := c.(endksgen := 1);
      if Reg(d, SHORTS) % 2 == 1 then Scheduled(d, eager) else d
    else if offset == TASKS_CRYPT then Scheduled(c, eager)
    else if offset == TASKS_STOP then c.(pending := None)
    else if offset == EVENTS_ENDKSGEN then c.(endksgen := value)
    else if offset == EVENTS_ENDCRYPT then c.(endcrypt := value)
    else if offset == EVENTS_ERROR then c.(error := value)
    else c.(regs := c.regs[offset := value])
  }

  function Step(c: Ccm, e: Event, eager: bool): Ccm {
    match e
    case Read(offset) => HandleRead(c, offset).0
    case Write(offset, value) => HandleWrite(c, offset, value, eager)
    case BusWrite(at, stored) => c.(mem := c.mem[at := stored])
  }

  function Run(c: Ccm, es: seq<Event>, eager: bool): Ccm {
    if es == [] then c else Step(Run(c, es[..|es| - 1], eager), es[|es| - 1], eager)
  }

  function PowerUp(mem: Mem): Ccm {
    Ccm(map[], 0, 0, 0, 0, None, mem)
  }

  // ------------------------------------------------------------- in place

  class Peripheral {
    var regs: map<nat, nat>
    var endksgen: nat
    var endcrypt: nat
    var error: nat
    var micstatus: nat
    var pending: Option<Op>
    var mem: Mem

    ghost function View(): Ccm
      reads this
    {
      Ccm(regs, endksgen, endcrypt, error, micstatus, pending, mem)
    }

    constructor (mem: Mem)
      ensures View() == PowerUp(mem)
    {
      regs, endksgen, endcrypt, error, micstatus, pending, this.mem := map[], 0, 0, 0, 0, None, mem;
    }

    /** The copy loop of both directions. */
    method CopyPayload(inptr: nat, outptr: nat, count: nat)
      modifies `mem
      ensures mem == Copy(old(mem), inptr + PAY, outptr + PAY, count)
    {
      for i := 0 to count
        invariant mem == Copy(old(mem), inptr + PAY, outptr + PAY, i)
      {
        mem := mem[outptr + PAY + i := Peek(mem, inptr + PAY + i)];
      }
    }

    method DoTransform()
      modifies this
      ensures View() == Transformed(old(View()))
    {
      if pending == None {
        return;
      }
      var op := pending.value;
      pending := None;
      if op.inptr != 0 && op.outptr != 0 {
        var header, length := Peek(mem, op.inptr), Peek(mem, op.inptr + 1);
        mem := mem[op.outptr := header];
        if length == 0 {
          mem := mem[op.outptr + 1 := 0];
        } else if op.decrypt {
          var plainLength: byte := if length < MIC_LEN then 0 else length - MIC_LEN;
          mem := mem[op.outptr + 1 := plainLength];
          mem := mem[op.outptr + 2 := 0];
          CopyPayload(op.inptr, op.outptr, plainLength);
        } else if length + MIC_LEN > 255 {
          // WriteByte raises: the value does not fit a byte.
          error := 1;
          endcrypt := 1;
          return;
        } else {
          mem := mem[op.outptr + 1 := length + MIC_LEN];
          mem := mem[op.outptr + 2 := 0];
          CopyPayload(op.inptr, op.outptr, length);
          AppendMic(op.outptr + PAY + length);
        }
      }
      endcrypt := 1;
      error := 0;
      micstatus := if op.decrypt then 1 else 0;
    }

    method AppendMic(at: int)
      modifies `mem
      ensures mem == Mic(old(mem), at, MIC_LEN)
    {
      for i := 0 to MIC_LEN
        invariant mem == Mic(old(mem), at, i)
      {
        mem := mem[at + i := MIC_BYTE];
      }
    }

    method Schedule()
      modifies this
      ensures View() == Scheduled(old(View()), true)
    {
      var mode := if MODE in regs then regs[MODE] else 0;
      var inptr := if INPTR in regs then regs[INPTR] else 0;
      var outptr := if OUTPTR in regs then regs[OUTPTR] else 0;
      pending := Some(Op(mode % 2 == 1, inptr, outptr));
      DoTransform();
    }

    method OnRead(offset: nat) returns (value: nat)
      modifies this
      ensures (View(), value) == HandleRead(old(View()), offset)
    {
      if offset == EVENTS_ENDCRYPT || offset == MICSTATUS {
        DoTransform();
      }
      if offset == EVENTS_ENDKSGEN {
        value := endksgen;
      } else if offset == EVENTS_ENDCRYPT {
        value := endcrypt;
      } else if offset == EVENTS_ERROR {
        value := error;
      } else if offset == MICSTATUS {
        value := micstatus;
      } else {
        value := if offset in regs then regs[offset] else 0;
      }
    }

    method OnWrite(offset: nat, value: nat)
      modifies this
      ensures View() == HandleWrite(old(View()), offset, value, true)
    {
      if offset == TASKS_KSGEN {
        endksgen := 1;
        if (if SHORTS in regs then regs[SHORTS] else 0) % 2 == 1 {
          Schedule();
        }
      } else if offset == TASKS_CRYPT {
        Schedule();
      } else if offset == TASKS_STOP {
        pending := None;
      } else if offset == EVENTS_ENDKSGEN {
        endksgen := value;
      } else if offset == EVENTS_ENDCRYPT {
        endcrypt := value;
      } else if offset == EVENTS_ERROR {
        error := value;
      } else {
        regs := regs[offset := value];
      }
    }
  }

  // ------------------------------------------------------------- what firmware sees

  /** At every request boundary no transform is pending, so a register read never changes memory
      or state. */
  lemma {:induction false} ReadsArePure(mem: Mem, es: seq<Event>, offset: nat)
    ensures var c := Run(PowerUp(mem), es, true);
            c.pending == None && Step(c, Read(offset), true) == c
  {
    if es != [] {
      ReadsArePure(mem, es[..|es| - 1], offset);
    }
  }

  /** The value last written to a register; zero if none was. */
  function LastWrite(es: seq<Event>, offset: nat): nat {
    if es == [] then 0
    else
      var e := es[|es| - 1];
      if e.Write? && e.offset == offset then e.value else LastWrite(es[..|es| - 1], offset)
  }

  /** Every register but the three tasks and the three events holds what was last written to it, and
      all of those but MICSTATUS (0x400) read it back. */
  lemma {:induction false} RegistersHoldLastWrite(mem: Mem, es: seq<Event>, offset: nat, eager: bool)
    requires offset !in {0x000, 0x004, 0x008, 0x100, 0x104, 0x108}
    ensures Reg(Run(PowerUp(mem), es, eager), offset) == LastWrite(es, offset)
    ensures offset != 0x400 ==> HandleRead(Run(PowerUp(mem), es, eager), offset).1 == LastWrite(es, offset)
  {
    if es != [] {
      RegistersHoldLastWrite(mem, es[..|es| - 1], offset, eager);
      StepOnRegister(Run(PowerUp(mem), es[..|es| - 1], eager), es[|es| - 1], offset, eager);
    }
  }

  lemma StepOnRegister(c: Ccm, e: Event, offset: nat, eager: bool)
    requires offset !in {0x000, 0x004, 0x008, 0x100, 0x104, 0x108}
    ensures Reg(Step(c, e, eager), offset) == if e.Write? && e.offset == offset then e.value else Reg(c, offset)
  {
  }

  /** A write to CRYPT (0x004), or to KSGEN (0x000) while the shortcut in SHORTS (0x200) is set. */
  predicate Starts(before: seq<Event>, e: Event) {
    e.Write? && (e.offset == 0x004 || (e.offset == 0x000 && LastWrite(before, 0x200) % 2 == 1))
  }

  /** What a start does to memory and to what the registers read: ENDCRYPT (0x104) reads one, ERROR
      (0x108) reads one exactly if an encryption was too long for its length byte, and MICSTATUS (0x400)
      shows a decryption, unless there was an error. A null pointer leaves memory alone. */
  predicate Performed(c: Ccm, e: Event, t: Ccm, mode: nat, inptr: nat, outptr: nat)
    requires e.Write?
  {
    var skipped := inptr == 0 || outptr == 0;
    var tooLong := !skipped && mode % 2 == 0 && Peek(c.mem, inptr + 1) > 251;
    && t.mem == Transform(c.mem, Op(mode % 2 == 1, inptr, outptr)).0
    && (skipped ==> t.mem == c.mem)
    && HandleRead(t, 0x104).1 == 1
    && HandleRead(t, 0x108).1 == (if tooLong then 1 else 0)
    && HandleRead(t, 0x400).1 == (if tooLong then HandleRead(c, 0x400).1 else mode % 2)
    && HandleRead(t, 0x100).1 == (if e.offset == 0x000 then 1 else HandleRead(c, 0x100).1)
  }

  /** A start transforms memory from where INPTR (0x50C) was last pointed to where OUTPTR (0x510) was,
      in the direction last written to MODE (0x504). */
  lemma StartIsPerformed(mem: Mem, es: seq<Event>, e: Event)
    requires Starts(es, e)
    ensures Performed(Run(PowerUp(mem), es, true), e, Run(PowerUp(mem), es + [e], true),
                      LastWrite(es, 0x504), LastWrite(es, 0x50C), LastWrite(es, 0x510))
  {
    StepFollows(mem, es, e);
    RegistersHoldLastWrite(mem, es, 0x504, true);
    RegistersHoldLastWrite(mem, es, 0x50C, true);
    RegistersHoldLastWrite(mem, es, 0x510, true);
    RegistersHoldLastWrite(mem, es, 0x200, true);
    ReadsArePure(mem, es, 0x400);
    StartStep(Run(PowerUp(mem), es, true), e);
  }

  lemma StepFollows(mem: Mem, es: seq<Event>, e: Event)
    ensures Run(PowerUp(mem), es + [e], true) == Step(Run(PowerUp(mem), es, true), e, true)
  {
    assert (es + [e])[..|es|] == es;
  }

  lemma StartStep(c: Ccm, e: Event)
    requires c.pending == None && e.Write?
    requires e.offset == 0x004 || (e.offset == 0x000 && Reg(c, 0x200) % 2 == 1)
    ensures Performed(c, e, Step(c, e, true), Reg(c, 0x504), Reg(c, 0x50C), Reg(c, 0x510))
  {
  }

  /** Nothing else transforms memory or sets those flags: an event register reads what was written to it,
      KSGEN without the shortcut sets ENDKSGEN (0x100), and STOP (0x008) and reads change nothing. */
  lemma OtherwiseNothingHappens(mem: Mem, es: seq<Event>, e: Event)
    requires !Starts(es, e)
    ensures var c, t := Run(PowerUp(mem), es, true), Run(PowerUp(mem), es + [e], true);
            && t.mem == (if e.BusWrite? then c.mem[e.at := e.stored] else c.mem)
            && HandleRead(t, 0x100).1 == (if e.Write? && e.offset == 0x100 then e.value
                                          else if e.Write? && e.offset == 0x000 then 1 else HandleRead(c, 0x100).1)
            && HandleRead(t, 0x104).1 == (if e.Write? && e.offset == 0x104 then e.value else HandleRead(c, 0x104).1)
            && HandleRead(t, 0x108).1 == (if e.Write? && e.offset == 0x108 then e.value else HandleRead(c, 0x108).1)
            && HandleRead(t, 0x400).1 == HandleRead(c, 0x400).1
  {
    StepFollows(mem, es, e);
    RegistersHoldLastWrite(mem, es, 0x200, true);
    ReadsArePure(mem, es, 0x104);
    ReadsArePure(mem, es + [e], 0x104);
    OtherStep(Run(PowerUp(mem), es, true), e);
  }

  lemma OtherStep(c: Ccm, e: Event)
    requires c.pending == None
    requires !(e.Write? && (e.offset == 0x004 || (e.offset == 0x000 && Reg(c, 0x200) % 2 == 1)))
    ensures var t := Step(c, e, true);
            && t.pending == None && t.mem == (if e.BusWrite? then c.mem[e.at := e.stored] else c.mem)
            && t.endksgen == (if e.Write? && e.offset == 0x100 then e.value
                              else if e.Write? && e.offset == 0x000 then 1 else c.endksgen)
            && t.endcrypt == (if e.Write? && e.offset == 0x104 then e.value else c.endcrypt)
            && t.error == (if e.Write? && e.offset == 0x108 then e.value else c.error)
            && t.micstatus == c.micstatus
  {
  }

  // ------------------------------------------------------------- eager against lazy

  /** The writes that start a transform. */
  predicate Triggers(c: Ccm, e: Event) {
    e.Write? && (e.offset == TASKS_CRYPT || (e.offset == TASKS_KSGEN && Reg(c, SHORTS) % 2 == 1))
  }

  /** The operation is neither skipped for a null pointer nor failed for its length. */
  predicate Performs(m: Mem, op: Op) {
    op.inptr != 0 && op.outptr != 0 && Fits(op, InLength(m, op))
  }

  /** Right after a trigger the eager peripheral already shows what the lazy one shows after the
      first ENDCRYPT read, for any memory that agrees on the input record by then: the same flags and
      the same output record. */
  lemma EagerIsTheFirstLazyRead(c: Ccm, e: Event, later: Mem)
    requires Triggers(c, e) && forall a :: Reads(c.mem, Snapshot(c), a) ==> Peek(c.mem, a) == Peek(later, a)
    ensures var eager := Step(c, e, true);
            var (lazy, value) := HandleRead(Step(c, e, false).(mem := later), EVENTS_ENDCRYPT);
            && eager.pending == lazy.pending == None && value == 1
            && eager.(mem := lazy.mem) == lazy
            && forall a :: Writes(c.mem, Snapshot(c), a) ==> Peek(eager.mem, a) == Peek(lazy.mem, a)
  {
    DependsOnlyOnInput(c.mem, later, Snapshot(c));
  }

  /** Until that read the lazy peripheral shows whatever the output record held before: its memory is
      that of the eager one exactly when the record was already there. */
  lemma LazyShowsStaleOutput(c: Ccm, e: Event)
    requires Triggers(c, e)
    requires var op := Snapshot(c); Performs(c.mem, op) && Safe(op.inptr, op.outptr, Copied(c.mem, op))
    ensures var op := Snapshot(c);
            SameMemory(Step(c, e, true).mem, Step(c, e, false).mem) <==>
            Load(c.mem, op.outptr, |Expected(c.mem, op)|) == Expected(c.mem, op)
  {
    var op := Snapshot(c);
    TransformIsExact(c.mem, op);
    SameWithRecord(c.mem, Transform(c.mem, op).0, op.outptr, Expected(c.mem, op));
  }

  /** Memories that differ at most in a record are the same exactly when both hold it. */
  lemma SameWithRecord(m: Mem, t: Mem, at: int, record: seq<byte>)
    requires Load(t, at, |record|) == record
    requires forall a :: a < at || a >= at + |record| ==> Peek(t, a) == Peek(m, a)
    ensures SameMemory(t, m) <==> Load(m, at, |record|) == record
  {
    forall a | Load(m, at, |record|) == record ensures Peek(t, a) == Peek(m, a) {
      if at <= a < at + |record| {
        assert Load(t, at, |record|)[a - at] == Load(m, at, |record|)[a - at];
      }
    }
  }

  // ------------------------------------------------------------- eager refines lazy, over whole runs

  /** The eager peripheral is where the lazy one gets by performing what it has pending. */
  ghost predicate Ahead(eager: Ccm, lazy: Ccm) {
    var t := Transformed(lazy);
    eager.(mem := t.mem) == t && SameMemory(eager.mem, t.mem)
  }

  /** While an operation is pending in the lazy peripheral nobody starts or stops another one, writes
      the event registers that it will set, or writes its two records. */
  predicate LeavesPendingAlone(lazy: Ccm, e: Event) {
    lazy.pending.Some? ==>
      match e
      case Read(_) => true
      case Write(offset, _) =>
        !Triggers(lazy, e) && offset != TASKS_STOP && offset != EVENTS_ENDCRYPT && offset != EVENTS_ERROR
      case BusWrite(at, _) => !Reads(lazy.mem, lazy.pending.value, at) && !Writes(lazy.mem, lazy.pending.value, at)
  }

  ghost predicate AllLeavePendingAlone(mem: Mem, es: seq<Event>) {
    es != [] ==>
      && AllLeavePendingAlone(mem, es[..|es| - 1])
      && LeavesPendingAlone(Run(PowerUp(mem), es[..|es| - 1], false), es[|es| - 1])
  }

  lemma TriggerKeepsAhead(eager: Ccm, lazy: Ccm, e: Event)
    requires Ahead(eager, lazy) && lazy.pending.None? && Triggers(lazy, e)
    ensures Ahead(Step(eager, e, true), Step(lazy, e, false))
  {
    SameInSameOut(eager.mem, lazy.mem, Snapshot(lazy));
  }

  lemma WriteKeepsAhead(eager: Ccm, lazy: Ccm, e: Event)
    requires Ahead(eager, lazy) && e.Write? && LeavesPendingAlone(lazy, e) && !Triggers(lazy, e)
    ensures Ahead(Step(eager, e, true), Step(lazy, e, false))
  {
  }

  lemma BusWriteKeepsAhead(eager: Ccm, lazy: Ccm, e: Event)
    requires Ahead(eager, lazy) && e.BusWrite? && LeavesPendingAlone(lazy, e)
    ensures Ahead(Step(eager, e, true), Step(lazy, e, false))
  {
    var t, t' := Transformed(lazy), Transformed(Step(lazy, e, false));
    if lazy.pending.Some? {
      FarWriteCommutes(lazy.mem, lazy.pending.value, e.at, e.stored);
    }
    assert SameMemory(t'.mem, t.mem[e.at := e.stored]);
    forall a ensures Peek(eager.mem[e.at := e.stored], a) == Peek(t'.mem, a) {
      assert Peek(eager.mem, a) == Peek(t.mem, a) && Peek(t'.mem, a) == Peek(t.mem[e.at := e.stored], a);
    }
  }

  lemma StepKeepsAhead(eager: Ccm, lazy: Ccm, e: Event)
    requires Ahead(eager, lazy) && LeavesPendingAlone(lazy, e)
    ensures Ahead(Step(eager, e, true), Step(lazy, e, false))
  {
    if e.BusWrite? {
      BusWriteKeepsAhead(eager, lazy, e);
    } else if e.Write? {
      if Triggers(lazy, e) {
        TriggerKeepsAhead(eager, lazy, e);
      } else {
        WriteKeepsAhead(eager, lazy, e);
      }
    }
  }

  lemma {:induction false} RunStaysAhead(mem: Mem, es: seq<Event>)
    requires AllLeavePendingAlone(mem, es)
    ensures Ahead(Run(PowerUp(mem), es, true), Run(PowerUp(mem), es, false))
  {
    if es != [] {
      var front := es[..|es| - 1];
      RunStaysAhead(mem, front);
      StepKeepsAhead(Run(PowerUp(mem), front, true), Run(PowerUp(mem), front, false), es[|es| - 1]);
    }
  }

  /** Firmware that leaves a pending operation alone cannot tell the eager peripheral from a lazy one
      by its registers, except by ERROR while an operation is pending; and whenever none is pending the
      two are in the same state with the same memory. */
  lemma EagerRefinesLazy(mem: Mem, es: seq<Event>, offset: nat)
    requires AllLeavePendingAlone(mem, es)
    ensures var eager, lazy := Run(PowerUp(mem), es, true), Run(PowerUp(mem), es, false);
            && (lazy.pending.None? ==> eager.(mem := lazy.mem) == lazy && SameMemory(eager.mem, lazy.mem))
            && (offset != EVENTS_ERROR || lazy.pending.None? ==>
                  HandleRead(eager, offset).1 == HandleRead(lazy, offset).1)
  {
    RunStaysAhead(mem, es);
  }
}
