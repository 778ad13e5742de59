/**
 Blocks on loan: what a reader that peeked may rely on while the writer goes on. A block lent by `peek` stays where
 it is and keeps its bytes until the reader gives it back, as long as the writer does not fill the one reservation
 that completes the lap.
 */
module StreamLoans {
  import opened StreamRing

  /**
   Any call but those that give loans back. Writers fill reservations they hold, short of the lap; `LapSafe` rules
   out a reservation that overflows and the calls that the position tests cannot judge.
   */
  predicate WhileLent(r: Ring, op: Op)
    requires r.WellFormed()
  {
    && LapSafe(r, op)
    && !op.Consume? && !op.Unpeek? && !op.Reset?
    && (op.WriteThrough? ==>
          exists place | r.used < place <= r.used + r.reserved :: place < r.Count() && r.At(place) == op.slot)
  }

  predicate WhileLentRun(r: Ring, ops: seq<Op>)
    requires r.WellFormed() && forall op | op in ops :: Legal(r.Count(), r.blockSize, op)
    decreases |ops|
  {
    ops == [] ||
    (assert ops[0] in ops;
     StepWellFormed(r, ops[0]);
     WhileLent(r, ops[0]) && WhileLentRun(Step(r, ops[0]).0, ops[1..]))
  }

  /** The blocks on loan in `r` are where they were and as they were. */
  ghost predicate LoansKept(r: Ring, after: Ring)
    requires r.Coherent()
  {
    && after.Coherent() && after.Count() == r.Count()
    && after.dataStart == r.dataStart && r.peeked <= after.peeked
    && forall k | 0 <= k < r.peeked :: after.slots[r.At(k)] == r.slots[r.At(k)]
  }

  lemma StepKeepsLoans(r: Ring, op: Op)
    requires r.Coherent() && 0 < r.peeked && Legal(r.Count(), r.blockSize, op) && WhileLent(r, op)
    ensures LoansKept(r, Step(r, op).0)
  {
    hide Ring.Unread, Ring.Outstanding, Ring.At, LoansKept;
    hide PushStep, PopStep, PeekStep, ConsumeStep, ReserveStep, CommitStep;
    CoherentIffLapSafe(r, op);
    if op.WriteThrough? {
      FillKeepsLoans(r, op.slot, op.data);
    } else if op.Push? {
      PushKeepsLoans(r, op.data);
    } else if op.PushNull? {
      PushKeepsLoans(r, r.silence);
    } else {
      OthersMoveCounters(r, op);
      CountersKeepLoans(r, Step(r, op).0);
    }
  }

  lemma OthersMoveCounters(r: Ring, op: Op)
    requires r.Coherent() && 0 < r.peeked && Legal(r.Count(), r.blockSize, op) && WhileLent(r, op)
    requires !op.WriteThrough? && !op.Push? && !op.PushNull?
    ensures
      var after := Step(r, op).0;
      after.slots == r.slots && after.dataStart == r.dataStart && r.peeked <= after.peeked
  {
    hide Ring.Unread, Ring.Outstanding, NullBlock, StateEvent;
  }

  lemma FillKeepsLoans(r: Ring, slot: nat, data: Block)
    requires r.Coherent() && slot < r.Count() && |data| == r.blockSize && WhileLent(r, WriteThrough(slot, data))
    requires r.(slots := r.slots[slot := data]).Coherent()
    ensures LoansKept(r, r.(slots := r.slots[slot := data]))
  {
    hide Ring.Unread, Ring.Outstanding;
    var place :| r.used < place <= r.used + r.reserved && place < r.Count() && r.At(place) == slot;
    forall k | 0 <= k < r.peeked
      ensures r.At(k) != slot
    {
      SameSlotIffFullLap(r, k, place);
    }
  }

  /** What only moves counters and the writer's positions keeps the loans. */
  lemma CountersKeepLoans(r: Ring, after: Ring)
    requires r.Coherent() && after.Coherent()
    requires after.slots == r.slots && after.dataStart == r.dataStart && r.peeked <= after.peeked
    ensures LoansKept(r, after)
  {
  }

  lemma PushKeepsLoans(r: Ring, data: Block)
    requires r.Coherent() && 0 < r.peeked && PushStep(r, data).0.Coherent()
    ensures LoansKept(r, PushStep(r, data).0)
  {
    hide Ring.Unread, Ring.Outstanding;
    if PushStep(r, data).1.ok && r.used < r.Count() {
      forall k | 0 <= k < r.peeked
        ensures r.At(k) != r.At(r.used)
      {
        SameSlotIffFullLap(r, k, r.used);
      }
    }
  }

  lemma {:induction false} RunKeepsLoans(r: Ring, ops: seq<Op>)
    requires r.Coherent() && 0 < r.peeked
    requires (forall op | op in ops :: Legal(r.Count(), r.blockSize, op)) && WhileLentRun(r, ops)
    ensures LoansKept(r, Run(r, ops).0)
    decreases |ops|
  {
    if ops != [] {
      hide WhileLent, Step;
      RunHead(r, ops);
      StepWellFormed(r, ops[0]);
      StepKeepsLoans(r, ops[0]);
      RunKeepsLoans(Step(r, ops[0]).0, ops[1..]);
      forall k | 0 <= k < r.peeked
        ensures Step(r, ops[0]).0.At(k) == r.At(k)
      {
      }
    }
  }

  /**
   A successful peek lends the oldest block not yet peeked. Whatever is called next, until the loans are given
   back, the span shows that block, which stays the same unread block of the stream.
   */
  lemma {:induction false} LentBlockStays(r: Ring, ops: seq<Op>)
    requires r.Coherent() && PeekStep(r).1.ok
    requires forall op | op in ops :: Legal(r.Count(), r.blockSize, op)
    requires PeekStep(r).0.WellFormed() && WhileLentRun(PeekStep(r).0, ops)
    ensures
      var (lent, reply) := PeekStep(r);
      var after := Run(lent, ops).0;
      && reply.span.SlotSpan? && reply.span.slot < r.Count()
      && r.peeked < r.used && reply.data == r.Unread()[r.peeked]
      && after.Coherent() && r.peeked < after.peeked
      && after.slots[reply.span.slot] == reply.data
      && after.Unread()[r.peeked] == reply.data
  {
    hide Run, WhileLentRun, Ring.WellFormed;
    var lent := PeekStep(r).0;
    PeekLends(r);
    RunKeepsLoans(lent, ops);
    LoanIsUnread(lent, Run(lent, ops).0, r.peeked);
  }

  lemma PeekLends(r: Ring)
    requires r.Coherent() && PeekStep(r).1.ok
    ensures
      var (lent, reply) := PeekStep(r);
      && lent.Coherent() && lent.peeked == r.peeked + 1 && lent.Count() == r.Count()
      && lent.blockSize == r.blockSize
      && reply.span == SlotSpan(lent.At(r.peeked))
      && r.peeked < r.used && reply.data == r.Unread()[r.peeked] == lent.slots[lent.At(r.peeked)]
  {
    PeekCoherence(r);
  }

  lemma LoanIsUnread(r: Ring, after: Ring, k: nat)
    requires r.Coherent() && LoansKept(r, after) && k < r.peeked
    ensures k < after.used && after.Unread()[k] == after.slots[r.At(k)] == r.slots[r.At(k)]
  {
    assert after.At(k) == r.At(k);
  }
}
