/**
 The copying interface of the stream, with zero-copy reading, refines a bounded queue of blocks.
 */
module StreamFifo {
  import opened Sequences
  import opened StreamRing

  /**
   A bounded queue whose first `peeked` blocks are on loan to the reader. `silence` is what an underflow shows:
   zeros, until a reader pops into the null span it was shown.
   */
  datatype Fifo = Fifo(capacity: nat, blockSize: nat, unread: seq<Block>, peeked: nat, silence: Block)
  {
    predicate Valid() {
      peeked <= |unread| <= capacity
    }
  }

  /** What a caller of the stream can tell apart: the return value, the event and the bytes. */
  datatype Observation = Observation(ok: bool, event: Event, data: Block)

  function Observe(reply: Reply): Observation {
    Observation(reply.ok, reply.event, reply.data)
  }

  function ObserveAll(replies: seq<Reply>): (observations: seq<Observation>)
    ensures |observations| == |replies|
  {
    seq(|replies|, i requires 0 <= i < |replies| => Observe(replies[i]))
  }

  function FifoPush(f: Fifo, data: Block): (result: (Fifo, Observation))
    requires f.Valid()
    ensures result.0.Valid()
  {
    if |data| != f.blockSize then (f, Observation(false, NoEvent, []))
    else if |f.unread| == f.capacity then (f, Observation(false, StreamOverflow, []))
    else
      (f.(unread := f.unread + [data]),
       Observation(true, StateEvent(|f.unread| + 1, f.capacity), []))
  }

  function FifoPop(f: Fifo, size: nat, intoNull: bool): (result: (Fifo, Observation))
    requires f.Valid()
    ensures result.0.Valid()
  {
    if size != f.blockSize || f.peeked != 0 then (f, Observation(false, NoEvent, []))
    else if f.unread == [] then (f, Observation(false, StreamUnderFlow, f.silence))
    else
      (f.(unread := f.unread[1..], silence := if intoNull then f.unread[0] else f.silence),
       Observation(true, StateEvent(|f.unread| - 1, f.capacity), f.unread[0]))
  }

  function FifoPeek(f: Fifo): (result: (Fifo, Observation))
    requires f.Valid()
    ensures result.0.Valid()
  {
    if f.peeked < |f.unread| then (f.(peeked := f.peeked + 1), Observation(true, NoEvent, f.unread[f.peeked]))
    else (f, Observation(false, StreamUnderFlow, f.silence))
  }

  function FifoConsume(f: Fifo): (result: (Fifo, Observation))
    requires f.Valid()
    ensures result.0.Valid()
  {
    (f.(unread := f.unread[f.peeked..], peeked := 0),
     Observation(true, StateEvent(|f.unread| - f.peeked, f.capacity), []))
  }

  /** Every call except the zero-copy writer's. */
  predicate Copying(op: Op) {
    op.Push? || op.PushNull? || op.Pop? || op.Peek? || op.Consume? || op.Unpeek? || op.Reset?
  }

  function FifoStep(f: Fifo, op: Op): (result: (Fifo, Observation))
    requires f.Valid() && Copying(op)
    ensures result.0.Valid()
  {
    match op
    case Push(data) => FifoPush(f, data)
    case PushNull => FifoPush(f, f.silence)
    case Pop(size, into) => FifoPop(f, size, into == NullSpan)
    case Peek => FifoPeek(f)
    case Consume => FifoConsume(f)
    case Unpeek => (f.(peeked := 0), Observation(true, NoEvent, []))
    case Reset => (f.(unread := [], peeked := 0, silence := NullBlock(f.blockSize)), Observation(true, NoEvent, []))
  }

  function FifoRun(f: Fifo, ops: seq<Op>): (result: (Fifo, seq<Observation>))
    requires f.Valid() && forall op | op in ops :: Copying(op)
    ensures |result.1| == |ops| && result.0.Valid()
    decreases |ops|
  {
    if ops == [] then (f, [])
    else
      assert ops[0] in ops;
      var (mid, observation) := FifoStep(f, ops[0]);
      var (last, observations) := FifoRun(mid, ops[1..]);
      (last, [observation] + observations)
  }

  /** No `pop` is attempted while every one of the N blocks is peeked. */
  predicate NeverPopsAllPeeked(f: Fifo, ops: seq<Op>)
    requires f.Valid()
    requires forall op | op in ops :: Copying(op)
    decreases |ops|
  {
    ops == [] ||
    (assert ops[0] in ops;
     && !(ops[0].Pop? && ops[0].size == f.blockSize && f.peeked == f.capacity)
     && NeverPopsAllPeeked(FifoStep(f, ops[0]).0, ops[1..]))
  }

  /** The block a call puts into the queue, if it does. */
  function AcceptedBy(f: Fifo, op: Op): seq<Block>
    requires f.Valid() && Copying(op)
  {
    if op.Push? && FifoStep(f, op).1.ok then [op.data]
    else if op.PushNull? && FifoStep(f, op).1.ok then [f.silence]
    else []
  }

  /** The blocks a call takes out: a popped one, the peeked ones that a consume drops, or all on a reset. */
  function TakenBy(f: Fifo, op: Op): seq<Block>
    requires f.Valid() && Copying(op)
  {
    if op.Pop? && FifoStep(f, op).1.ok then [FifoStep(f, op).1.data]
    else if op.Consume? then f.unread[..f.peeked]
    else if op.Reset? then f.unread
    else []
  }

  function Accepted(f: Fifo, ops: seq<Op>): seq<Block>
    requires f.Valid() && forall op | op in ops :: Copying(op)
    decreases |ops|
  {
    if ops == [] then []
    else
      assert ops[0] in ops;
      AcceptedBy(f, ops[0]) + Accepted(FifoStep(f, ops[0]).0, ops[1..])
  }

  function Taken(f: Fifo, ops: seq<Op>): seq<Block>
    requires f.Valid() && forall op | op in ops :: Copying(op)
    decreases |ops|
  {
    if ops == [] then []
    else
      assert ops[0] in ops;
      TakenBy(f, ops[0]) + Taken(FifoStep(f, ops[0]).0, ops[1..])
  }

  /** Nothing is lost, duplicated, invented or reordered on the way through. */
  lemma {:induction false} FifoConservesBlocks(f: Fifo, ops: seq<Op>)
    requires f.Valid() && forall op | op in ops :: Copying(op)
    ensures f.unread + Accepted(f, ops) == Taken(f, ops) + FifoRun(f, ops).0.unread
    decreases |ops|
  {
    if ops == [] {
    } else {
      assert ops[0] in ops;
      var op, rest := ops[0], ops[1..];
      var mid := FifoStep(f, op).0;
      var last := FifoRun(mid, rest).0;
      assert FifoRun(f, ops).0 == last;
      FifoStepConservesBlocks(f, op);
      FifoConservesBlocks(mid, rest);
      Rejoin(f.unread, AcceptedBy(f, op), Accepted(mid, rest),
              TakenBy(f, op), mid.unread, Taken(mid, rest), last.unread);
    }
  }

  lemma Rejoin<T>(a: seq<T>, b: seq<T>, c: seq<T>, d: seq<T>, middle: seq<T>, e: seq<T>, z: seq<T>)
    requires a + b == d + middle && middle + c == e + z
    ensures a + (b + c) == (d + e) + z
  {
    assert a + (b + c) == (a + b) + c;
    assert (d + middle) + c == d + (middle + c);
    assert d + (e + z) == (d + e) + z;
  }

  lemma FifoStepConservesBlocks(f: Fifo, op: Op)
    requires f.Valid() && Copying(op)
    ensures f.unread + AcceptedBy(f, op) == TakenBy(f, op) + FifoStep(f, op).0.unread
  {
  }

  /** The queue a stream stands for between zero-copy writes. */
  ghost function Queue(r: Ring): (queue: Fifo)
    requires r.Coherent()
    ensures queue.Valid()
  {
    Fifo(r.Count(), r.blockSize, r.Unread(), r.peeked, r.silence)
  }

  /** Step by step, stream and queue answer alike and stay in correspondence. */
  lemma StepRefinesFifo(r: Ring, op: Op)
    requires r.Coherent() && r.reserved == 0 && Copying(op) && Legal(r.Count(), r.blockSize, op)
    requires LapSafe(r, op) && SparesUnread(r, op)
    ensures
      var (after, reply) := Step(r, op);
      && after.Coherent() && after.reserved == 0
      && FifoStep(Queue(r), op) == (Queue(after), Observe(reply))
  {
    CoherentIffLapSafe(r, op);
    match op
    case Push(data) => PushRefines(r, data);
    case PushNull => PushRefines(r, r.silence);
    case Pop(size, into) => PopRefines(r, size, into);
    case Peek => PeekRefines(r);
    case Consume => ConsumeRefines(r);
    case Unpeek => SuffixOfWindow(r, Step(r, op).0);
    case Reset => assert Step(r, op).0.Unread() == [];
  }

  lemma PushRefines(r: Ring, data: Block)
    requires r.Coherent() && r.reserved == 0 && PushStep(r, data).0.Coherent()
    ensures
      var (after, reply) := PushStep(r, data);
      FifoPush(Queue(r), data) == (Queue(after), Observe(reply))
  {
    hide Ring.Outstanding, NullBlock;
    var (after, reply) := PushStep(r, data);
    if reply.ok {
      assert |data| == r.blockSize && r.used < r.Count();
      forall j | 0 <= j < r.used
        ensures after.Unread()[j] == r.Unread()[j]
      {
        assert after.At(j) == r.At(j);
        SameSlotIffFullLap(r, j, r.used);
      }
      assert after.Unread()[r.used] == data by { assert after.At(r.used) == r.dataEnd; }
      assert after.Unread() == r.Unread() + [data];
    }
  }

  lemma PopRefines(r: Ring, size: nat, into: Span)
    requires r.Coherent() && r.reserved == 0 && Legal(r.Count(), r.blockSize, Pop(size, into))
    requires LapSafe(r, Pop(size, into)) && SparesUnread(r, Pop(size, into))
    ensures
      var (after, reply) := PopStep(r, size, into);
      && after.Coherent()
      && FifoPop(Queue(r), size, into == NullSpan) == (Queue(after), Observe(reply))
  {
    var (after, reply) := PopStep(r, size, into);
    PopCoherence(r, size, into);
    if reply.ok {
      assert r.peeked == 0;
      if into.SlotSpan? {
        PopIntoSlotKeepsSuffix(r, size, into.slot);
      } else {
        SuffixOfWindow(r, after);
      }
      assert r.Unread()[0] == r.slots[r.dataStart];
    }
  }

  lemma PeekRefines(r: Ring)
    requires r.Coherent() && r.reserved == 0 && PeekStep(r).0.Coherent()
    ensures
      var (after, reply) := PeekStep(r);
      FifoPeek(Queue(r)) == (Queue(after), Observe(reply))
  {
    hide Ring.Outstanding, NullBlock;
    SuffixOfWindow(r, PeekStep(r).0);
  }

  lemma ConsumeRefines(r: Ring)
    requires r.Coherent() && r.reserved == 0 && ConsumeStep(r).0.Coherent()
    ensures
      var (after, reply) := ConsumeStep(r);
      FifoConsume(Queue(r)) == (Queue(after), Observe(reply))
  {
    SuffixOfWindow(r, ConsumeStep(r).0);
  }

  /** No pop of the run lands in the stream's own memory on a block that is left unread. */
  predicate SparesUnreadRun(r: Ring, ops: seq<Op>)
    requires r.WellFormed() && forall op | op in ops :: Legal(r.Count(), r.blockSize, op)
    decreases |ops|
  {
    ops == [] ||
    (assert ops[0] in ops;
     StepWellFormed(r, ops[0]);
     SparesUnread(r, ops[0]) && SparesUnreadRun(Step(r, ops[0]).0, ops[1..]))
  }

  /**
   On every run of pushes, pops, peeks, consumes, unpeeks and resets a stream answers byte for byte like the
   bounded queue, and ends up standing for the queue's last state.
   */
  lemma {:induction false} RunRefinesFifo(r: Ring, ops: seq<Op>)
    requires r.Coherent() && r.reserved == 0
    requires forall op | op in ops :: Copying(op) && Legal(r.Count(), r.blockSize, op)
    requires SparesUnreadRun(r, ops)
    requires NeverPopsAllPeeked(Queue(r), ops)
    ensures
      var (last, replies) := Run(r, ops);
      && last.Coherent() && last.reserved == 0
      && FifoRun(Queue(r), ops) == (Queue(last), ObserveAll(replies))
    decreases |ops|
  {
    if ops == [] {
    } else {
      RunHead(r, ops);
      StepRefinesFifo(r, ops[0]);
      StepWellFormed(r, ops[0]);
      var (mid, reply) := Step(r, ops[0]);
      RunRefinesFifo(mid, ops[1..]);
      ObserveHead(reply, Run(mid, ops[1..]).1);
    }
  }

  lemma ObserveHead(reply: Reply, rest: seq<Reply>)
    ensures ObserveAll([reply] + rest) == [Observe(reply)] + ObserveAll(rest)
  {
  }

  /** Callers can tell a stream from the bounded queue exactly when they pop with all N blocks peeked. */
  lemma {:induction false} AnswersLikeFifoIff(r: Ring, ops: seq<Op>)
    requires r.Coherent() && r.reserved == 0
    requires forall op | op in ops :: Copying(op) && Legal(r.Count(), r.blockSize, op)
    requires SparesUnreadRun(r, ops)
    ensures FifoRun(Queue(r), ops).1 == ObserveAll(Run(r, ops).1) <==> NeverPopsAllPeeked(Queue(r), ops)
    decreases |ops|
  {
    if ops == [] {
    } else {
      RunHead(r, ops);
      FifoHead(Queue(r), ops);
      var (mid, reply) := Step(r, ops[0]);
      ObserveHead(reply, Run(mid, ops[1..]).1);
      if LapSafe(r, ops[0]) {
        StepRefinesFifo(r, ops[0]);
        AnswersLikeFifoIff(mid, ops[1..]);
        PrefixCancels([Observe(reply)], FifoRun(Queue(mid), ops[1..]).1, ObserveAll(Run(mid, ops[1..]).1));
      } else {
        PopOverFullPeekTells(r, ops[0]);
        assert FifoRun(Queue(r), ops).1[0] != ObserveAll(Run(r, ops).1)[0];
      }
    }
  }

  lemma {:induction false} FifoHead(f: Fifo, ops: seq<Op>)
    requires f.Valid() && (forall op | op in ops :: Copying(op)) && ops != []
    ensures ops[0] in ops
    ensures FifoRun(f, ops).1 == [FifoStep(f, ops[0]).1] + FifoRun(FifoStep(f, ops[0]).0, ops[1..]).1
    ensures NeverPopsAllPeeked(f, ops) <==>
      && !(ops[0].Pop? && ops[0].size == f.blockSize && f.peeked == f.capacity)
      && NeverPopsAllPeeked(FifoStep(f, ops[0]).0, ops[1..])
  {
    assert ops[0] in ops;
  }

  /** The one unsafe copying call: the stream pops, the queue refuses. */
  lemma PopOverFullPeekTells(r: Ring, op: Op)
    requires r.Coherent() && r.reserved == 0 && Copying(op) && Legal(r.Count(), r.blockSize, op) && !LapSafe(r, op)
    ensures op.Pop? && op.size == r.blockSize && r.peeked == r.Count()
    ensures Step(r, op).1.ok && !FifoStep(Queue(r), op).1.ok
  {
  }

  /**
   On such a run, what was unread and what was accepted on the way is what was taken out, followed by what the
   stream still holds unread: nothing lost, duplicated, invented or reordered.
   */
  lemma {:induction false} StreamConservesBlocks(r: Ring, ops: seq<Op>)
    requires r.Coherent() && r.reserved == 0
    requires forall op | op in ops :: Copying(op) && Legal(r.Count(), r.blockSize, op)
    requires SparesUnreadRun(r, ops)
    requires NeverPopsAllPeeked(Queue(r), ops)
    ensures
      var last := Run(r, ops).0;
      last.Coherent() && r.Unread() + Accepted(Queue(r), ops) == Taken(Queue(r), ops) + last.Unread()
  {
    RunRefinesFifo(r, ops);
    FifoConservesBlocks(Queue(r), ops);
  }

  // ---------------------------------------------------------------------------------------------
  // What goes wrong off the safe path

  /** A pop with all N blocks peeked goes ahead, and the next consume drives the block count below zero. */
  lemma PopOverFullPeekUnderflows(r: Ring)
    requires r.Coherent() && r.peeked == r.Count()
    ensures
      var (popped, reply) := PopStep(r, r.blockSize, NoSpan);
      reply.ok && popped.WellFormed() && ConsumeStep(popped).0.used == SIZE_MODULUS - 1
  {
    StepWellFormed(r, Pop(r.blockSize, NoSpan));
  }

  /** A reservation that overflows while blocks are peeked has the same effect on the next consume. */
  lemma OverflowWhilePeekedUnderflows(r: Ring)
    requires r.Coherent() && r.used + r.reserved == r.Count() && 0 < r.peeked
    ensures
      var (overflowed, reply) := ReserveStep(r);
      !reply.ok && overflowed.WellFormed() && ConsumeStep(overflowed).0.used == SIZE_MODULUS - r.peeked
  {
    StepWellFormed(r, Reserve);
  }

  /** A push over a full lap of reservations goes ahead, and the next commit counts more blocks than there are. */
  lemma PushOverFullReservationOverfills(r: Ring, data: Block)
    requires r.Coherent() && r.reserved == r.Count() && |data| == r.blockSize && r.Count() + 1 < SIZE_MODULUS
    ensures
      var (pushed, reply) := PushStep(r, data);
      reply.ok && pushed.WellFormed() && CommitStep(pushed).0.used == r.Count() + 1
  {
    StepWellFormed(r, Push(data));
  }
}
