/**
 Zero-copy writing. `reserve` steps before it hands out a block, so the block at the end of the data is never
 given to a writer: what is read lags one block behind what is committed.

 A client keeps the spans it was handed and may fill any of them, in any order and as often as it likes, until
 it commits or releases. A log that only appends says what its readers must see.
 */
module StreamZeroCopy {
  import opened Options
  import opened StreamRing

  /** A stream together with the spans its writer currently holds. */
  datatype Client = Client(ring: Ring, spans: seq<nat>)

  datatype ClientOp = Call(op: Op) | Fill(k: nat, data: Block)

  /** A client fills only spans it holds. */
  ghost predicate Allowed(c: Client, act: ClientOp) {
    && c.ring.WellFormed()
    && (act.Call? ==> Legal(c.ring.Count(), c.ring.blockSize, act.op))
    && (act.Fill? ==>
          act.k < |c.spans| && Legal(c.ring.Count(), c.ring.blockSize, WriteThrough(c.spans[act.k], act.data)))
  }

  ghost function ClientStep(c: Client, act: ClientOp): (Client, Reply)
    requires Allowed(c, act)
  {
    match act
    case Fill(k, data) =>
      var (ring, reply) := Step(c.ring, WriteThrough(c.spans[k], data));
      (Client(ring, c.spans), reply)
    case Call(op) =>
      var (ring, reply) := Step(c.ring, op);
      var spans :=
        if op.Reserve? && reply.span.SlotSpan? then (if reply.ok then c.spans else []) + [reply.span.slot]
        else if op.Commit? || op.Release? || op.Reset? then []
        else c.spans;
      (Client(ring, spans), reply)
  }

  /**
   The append-only reading of a zero-copy run. `history[0]` is what slot 0 held at the reset and `history[i]`
   is what was written into the i-th committed reservation; a reservation nobody wrote to stays `None`. The last
   entry is not readable yet, and a push takes its place: that reservation is lost. A reservation that completes
   the lap shares its block with the oldest unread one. One that overflows drops what is unread, and the history
   starts over with the oldest of the dropped blocks. `silence` is what an underflow shows: zeros, until a reader
   pops into the null span it was shown.
   */
  datatype Log = Log(
    count: nat,
    blockSize: nat,
    history: seq<Option<Block>>,
    read: nat,
    peeked: nat,
    pending: seq<Option<Block>>,
    silence: Option<Block>)
  {
    ghost predicate Valid() {
      && 0 < count
      && read + peeked < |history|
      && |history| - 1 - read + |pending| <= count
    }

    function Used(): nat
      requires read < |history|
    {
      |history| - 1 - read
    }

    /** A push goes ahead: the size is right and nothing is reserved. */
    predicate Pushes(size: nat) {
      size == blockSize && pending == []
    }

    /** From the next block to read to the last reservation. */
    function Window(): seq<Option<Block>>
      requires read < |history|
    {
      history[read..] + pending
    }

    /** What is known of the block `place` places after the oldest unread one, before anybody writes there. */
    function Untouched(place: nat): Option<Block>
      requires read < |history|
    {
      if place == count then history[read] else None
    }
  }

  /** `data` is what the reader must see; `None` promises nothing. */
  datatype Promise = Promise(ok: bool, event: Event, data: Option<Block>)

  predicate Keeps(promise: Promise, reply: Reply) {
    && reply.ok == promise.ok
    && reply.event == promise.event
    && (promise.data.Some? ==> reply.data == promise.data.value)
  }

  /** The steps of a client that keeps to the spans it holds and to lap-safe calls, and pops out of the ring. */
  predicate Disciplined(l: Log, act: ClientOp)
    requires l.read < |l.history|
  {
    match act
    case Fill(k, data) => k < |l.pending| && |data| == l.blockSize
    case Call(op) =>
      match op
      case Push(data) => |data| == l.blockSize ==> |l.pending| != l.count
      case PushNull => |l.pending| != l.count
      case Pop(size, into) => !into.SlotSpan? && (size == l.blockSize ==> l.peeked != l.count)
      case Reserve => l.Used() + |l.pending| < l.count || l.peeked == 0
      case WriteThrough(_, _) => false
      case _ => true
  }

  function LogStep(l: Log, act: ClientOp): (result: (Log, Promise))
    requires l.Valid() && Disciplined(l, act)
    ensures result.0.Valid() && result.0.count == l.count && result.0.blockSize == l.blockSize
  {
    match act
    case Fill(k, data) => (LogFill(l, k, data), Promise(true, NoEvent, None))
    case Call(op) =>
      match op
      case Pop(size, into) =>
        if size != l.blockSize || l.peeked != 0 then (l, Promise(false, NoEvent, None))
        else if l.Used() == 0 then (l, Promise(false, StreamUnderFlow, l.silence))
        else (l.(read := l.read + 1, silence := if into == NullSpan then l.history[l.read] else l.silence),
              Promise(true, StateEvent(l.Used() - 1, l.count), l.history[l.read]))
      case Peek =>
        if l.peeked < l.Used() then
          (l.(peeked := l.peeked + 1), Promise(true, NoEvent, l.history[l.read + l.peeked]))
        else (l, Promise(false, StreamUnderFlow, l.silence))
      case Consume =>
        (l.(read := l.read + l.peeked, peeked := 0), Promise(true, StateEvent(l.Used() - l.peeked, l.count), None))
      case Unpeek => (l.(peeked := 0), Promise(true, NoEvent, None))
      case Reserve =>
        var place := l.Used() + |l.pending| + 1;
        if place <= l.count then
          (l.(pending := l.pending + [l.Untouched(place)]), Promise(true, NoEvent, l.Untouched(place)))
        else
          (l.(history := [l.history[l.read]], read := 0, pending := [l.Untouched(1)]),
           Promise(false, StreamOverflow, l.Untouched(1)))
      case Commit =>
        (l.(history := l.history + l.pending, pending := []),
         Promise(true, StateEvent(l.Used() + |l.pending|, l.count), None))
      case Release => (l.(pending := []), Promise(true, NoEvent, None))
      case Push(data) => LogPush(l, |data|, Some(data))
      case PushNull => LogPush(l, l.blockSize, l.silence)
      case Reset =>
        (Log(l.count, l.blockSize, [None], 0, 0, [], Some(NullBlock(l.blockSize))), Promise(true, NoEvent, None))
  }

  /** Filling the reservation that completes the lap overwrites the oldest unread block as well. */
  function LogFill(l: Log, k: nat, data: Block): (log: Log)
    requires l.Valid() && k < |l.pending|
    ensures log.Valid()
  {
    l.(pending := l.pending[k := Some(data)],
       history := if l.Used() + 1 + k == l.count then l.history[l.read := Some(data)] else l.history)
  }

  /** What is pushed replaces the newest entry, and the entry behind it is nobody's yet. */
  function LogPush(l: Log, size: nat, data: Option<Block>): (result: (Log, Promise))
    requires l.Valid()
    ensures result.0.Valid() && result.0.count == l.count && result.0.blockSize == l.blockSize
  {
    if !l.Pushes(size) then (l, Promise(false, NoEvent, None))
    else if l.Used() == l.count then (l, Promise(false, StreamOverflow, None))
    else
      var pushed := l.(history := l.history[|l.history| - 1 := data]);
      (pushed.(history := pushed.history + [pushed.Untouched(l.Used() + 1)]),
       Promise(true, StateEvent(l.Used() + 1, l.count), None))
  }

  /** From the oldest unread block on, the ring holds everything the window promises. */
  ghost predicate Holds(r: Ring, window: seq<Option<Block>>)
    requires r.WellFormed()
  {
    && |window| <= r.Count() + 1
    && forall j | 0 <= j < |window| :: window[j].Some? ==> r.slots[r.At(j)] == window[j].value
  }

  predicate Shows(r: Ring, silence: Option<Block>) {
    silence.Some? ==> r.silence == silence.value
  }

  ghost predicate Corresponds(c: Client, l: Log) {
    && l.Valid()
    && c.ring.Coherent()
    && Shows(c.ring, l.silence)
    && c.ring.Count() == l.count && c.ring.blockSize == l.blockSize
    && c.ring.used == l.Used() && c.ring.peeked == l.peeked && c.ring.reserved == |l.pending|
    && c.spans == c.ring.Outstanding()
    && Holds(c.ring, l.Window())
  }

  lemma StepFollowsLog(c: Client, l: Log, act: ClientOp)
    requires Corresponds(c, l) && Disciplined(l, act)
    ensures Allowed(c, act)
    ensures
      var (client, reply) := ClientStep(c, act);
      var (log, promise) := LogStep(l, act);
      Corresponds(client, log) && Keeps(promise, reply)
  {
    hide Holds, Ring.Unread, Ring.Outstanding, NullBlock;
    match act
    case Fill(k, data) => FillFollowsLog(c, l, k, data);
    case Call(op) =>
      CoherentIffLapSafe(c.ring, op);
      if op.Reserve? {
        ReserveFollowsLog(c, l);
      } else if op.Commit? {
        CommitFollowsLog(c, l);
      } else if op.Release? {
        ReleaseFollowsLog(c, l);
      } else if op.Push? {
        PushFollowsLog(c, l, op.data, Some(op.data));
      } else if op.PushNull? {
        PushFollowsLog(c, l, c.ring.silence, l.silence);
      } else if op.Reset? {
        ResetFollowsLog(c, l);
      } else {
        ReaderFollowsLog(c, l, op);
      }
  }

  lemma HoldsAt(r: Ring, window: seq<Option<Block>>, j: nat)
    requires r.WellFormed() && Holds(r, window) && j < |window|
    ensures j <= r.Count() && (window[j].Some? ==> r.slots[r.At(j)] == window[j].value)
  {
  }

  /** Moving the start of the ring along its slots drops the front of the window. */
  lemma {:induction false} WindowMoves(r: Ring, after: Ring, window: seq<Option<Block>>, gone: nat)
    requires r.WellFormed() && after.WellFormed() && after.slots == r.slots
    requires Holds(r, window) && gone < |window| && after.dataStart == r.At(gone)
    ensures Holds(after, window[gone..])
  {
    forall j | 0 <= j < |window| - gone
      ensures after.At(j) == r.At(gone + j)
    {
    }
  }

  /** The window after filling a place; the two ends of a window of a whole lap are the same block. */
  function FilledWindow(window: seq<Option<Block>>, place: nat, count: nat, block: Option<Block>)
      : (filled: seq<Option<Block>>)
    requires place < |window|
    ensures |filled| == |window|
  {
    if place == count then window[place := block][0 := block] else window[place := block]
  }

  /** Filling one place of a window changes that place and no other, but for its other end. */
  lemma FillChangesWindow(r: Ring, window: seq<Option<Block>>, place: nat, data: Block)
    requires r.Coherent() && Holds(r, window) && |data| == r.blockSize
    requires place < |window| && (place > 0 || |window| <= r.Count())
    ensures
      var after := Step(r, WriteThrough(r.At(place), data)).0;
      && after.Coherent() && after.Outstanding() == r.Outstanding()
      && Holds(after, FilledWindow(window, place, r.Count(), Some(data)))
  {
    hide Ring.Unread, Ring.Outstanding;
    var slot := r.At(place);
    OverwriteMovesNothing(r, slot, data);
    var after := Step(r, WriteThrough(slot, data)).0;
    var filled := FilledWindow(window, place, r.Count(), Some(data));
    forall j | 0 <= j < |window| && filled[j].Some?
      ensures after.slots[after.At(j)] == filled[j].value
    {
      assert after.At(j) == r.At(j);
      if j != place {
        SameSlotIffFullLap(r, if j < place then j else place, if j < place then place else j);
      }
    }
  }

  lemma FillFollowsLog(c: Client, l: Log, k: nat, data: Block)
    requires Corresponds(c, l) && k < |l.pending| && |data| == l.blockSize
    ensures Allowed(c, Fill(k, data))
    ensures
      Corresponds(ClientStep(c, Fill(k, data)).0, LogFill(l, k, data))
  {
    hide Holds, Ring.Unread;
    var place := c.ring.used + 1 + k;
    assert c.spans[k] == c.ring.At(place);
    FillChangesWindow(c.ring, l.Window(), place, data);
    assert LogFill(l, k, data).Window() == FilledWindow(l.Window(), place, l.count, Some(data));
  }

  lemma {:induction false} ReserveFollowsLog(c: Client, l: Log)
    requires Corresponds(c, l) && Disciplined(l, Call(Reserve))
    ensures
      var (client, reply) := ClientStep(c, Call(Reserve));
      var (log, promise) := LogStep(l, Call(Reserve));
      Corresponds(client, log) && Keeps(promise, reply)
  {
    hide Holds, Ring.Unread, Ring.Outstanding;
    if l.Used() + |l.pending| < l.count {
      ReservedFollowsLog(c, l);
    } else {
      OverflowFollowsLog(c, l);
    }
  }

  lemma ReservedFollowsLog(c: Client, l: Log)
    requires Corresponds(c, l) && l.Used() + |l.pending| < l.count
    ensures
      var (client, reply) := ClientStep(c, Call(Reserve));
      var (log, promise) := LogStep(l, Call(Reserve));
      Corresponds(client, log) && Keeps(promise, reply)
  {
    hide Holds, Ring.Unread, Ring.Outstanding;
    ReserveMovesWindow(c.ring, l.Window(), l.Untouched(l.Used() + |l.pending| + 1));
    var place := l.Used() + |l.pending| + 1;
    assert l.(pending := l.pending + [l.Untouched(place)]).Window() == l.Window() + [l.Untouched(place)];
  }

  lemma ReserveMovesWindow(r: Ring, window: seq<Option<Block>>, untouched: Option<Block>)
    requires r.Coherent() && r.used + r.reserved < r.Count() && Holds(r, window) && |window| == r.used + r.reserved + 1
    requires untouched == if |window| == r.Count() then window[0] else None
    ensures
      var (after, reply) := ReserveStep(r);
      var slot := r.At(|window|);
      && reply.ok && reply.event == NoEvent && reply.span == SlotSpan(slot) && reply.data == r.slots[slot]
      && (untouched.Some? ==> reply.data == untouched.value)
      && after.Coherent() && after == r.(writeReservation := slot, reserved := r.reserved + 1)
      && after.Outstanding() == r.Outstanding() + [slot]
      && Holds(after, window + [untouched])
  {
    hide Holds, Ring.Unread, Ring.Outstanding;
    var after := ReserveStep(r).0;
    ReserveCoherence(r);
    assert Next(r.writeReservation, r.Count()) == r.At(|window|);
    WindowExtended(r, after, window, untouched);
    HoldsAt(after, window + [untouched], |window|);
    assert after.At(|window|) == r.At(|window|);
    ReserveExtendsOutstanding(r, after);
  }

  /** One more place at the end, of which nothing is known unless it is the other end of the lap. */
  lemma WindowExtended(r: Ring, after: Ring, window: seq<Option<Block>>, untouched: Option<Block>)
    requires r.WellFormed() && after.WellFormed() && after.slots == r.slots && after.dataStart == r.dataStart
    requires Holds(r, window) && 0 < |window| <= r.Count()
    requires untouched == if |window| == r.Count() then window[0] else None
    ensures Holds(after, window + [untouched])
  {
    forall j | 0 <= j <= |window|
      ensures after.At(j) == r.At(j)
    {
    }
    SameSlotIffFullLap(r, 0, |window|);
  }

  /** Nothing is left of the old window but its first block, which is now at the end of no data. */
  lemma OverflowFollowsLog(c: Client, l: Log)
    requires Corresponds(c, l) && l.Used() + |l.pending| == l.count && l.peeked == 0
    ensures
      var (client, reply) := ClientStep(c, Call(Reserve));
      var (log, promise) := LogStep(l, Call(Reserve));
      Corresponds(client, log) && Keeps(promise, reply)
  {
    hide Holds, Ring.Unread;
    var r := c.ring;
    var after := ReserveStep(r).0;
    ReserveCoherence(r);
    FirstOfWindow(r, after, l.Window());
    WindowExtended(after, after, [l.Window()[0]], l.Untouched(1));
    HoldsAt(after, [l.Window()[0]] + [l.Untouched(1)], 1);
    var log := LogStep(l, Call(Reserve)).0;
    assert log.Window() == [l.Window()[0]] + [l.Untouched(1)];
    assert after.Outstanding() == [after.At(1)];
  }

  lemma FirstOfWindow(r: Ring, after: Ring, window: seq<Option<Block>>)
    requires r.WellFormed() && after.WellFormed() && after.slots == r.slots && after.dataStart == r.dataStart
    requires Holds(r, window) && window != []
    ensures Holds(after, [window[0]])
  {
    assert after.At(0) == r.At(0);
  }

  lemma ReserveExtendsOutstanding(r: Ring, after: Ring)
    requires r.Coherent() && r.used + r.reserved < r.Count()
    requires after.slots == r.slots && after.dataStart == r.dataStart && after.used == r.used
    requires after.reserved == r.reserved + 1
    ensures after.Outstanding() == r.Outstanding() + [r.At(r.used + r.reserved + 1)]
  {
    forall k | 0 <= k < r.reserved
      ensures after.Outstanding()[k] == r.Outstanding()[k]
    {
      assert after.At(r.used + 1 + k) == r.At(r.used + 1 + k);
    }
    assert after.At(after.used + 1 + r.reserved) == r.At(r.used + r.reserved + 1);
  }

  lemma CommitFollowsLog(c: Client, l: Log)
    requires Corresponds(c, l) && CommitStep(c.ring).0.Coherent()
    ensures
      var (client, reply) := ClientStep(c, Call(Commit));
      var (log, promise) := LogStep(l, Call(Commit));
      Corresponds(client, log) && Keeps(promise, reply)
  {
    hide Holds, Ring.Unread;
    var after := CommitStep(c.ring).0;
    WindowMoves(c.ring, after, l.Window(), 0);
    assert l.(history := l.history + l.pending, pending := []).Window() == l.Window() == l.Window()[0..];
  }

  lemma ReleaseFollowsLog(c: Client, l: Log)
    requires Corresponds(c, l) && Step(c.ring, Release).0.Coherent()
    ensures
      var (client, reply) := ClientStep(c, Call(Release));
      var (log, promise) := LogStep(l, Call(Release));
      Corresponds(client, log) && Keeps(promise, reply)
  {
    var after := Step(c.ring, Release).0;
    var kept := l.Window()[..l.Used() + 1];
    assert l.(pending := []).Window() == kept == kept[0..];
    WindowMoves(c.ring, after, kept, 0);
  }

  lemma PushFollowsLog(c: Client, l: Log, data: Block, known: Option<Block>)
    requires Corresponds(c, l) && (|data| == l.blockSize ==> |l.pending| != l.count)
    requires known.Some? ==> known.value == data
    ensures
      var (after, reply) := PushStep(c.ring, data);
      var (log, promise) := LogPush(l, |data|, known);
      Corresponds(Client(after, c.spans), log) && Keeps(promise, reply)
  {
    hide Holds, NullBlock, Ring.Unread, Ring.Outstanding;
    if l.Pushes(|data|) && l.Used() < l.count {
      PushedFollowsLog(c, l, data, known);
    } else {
      PushRefused(c.ring, data);
      assert LogPush(l, |data|, known).0 == l;
      assert Client(c.ring, c.spans) == c;
    }
  }

  lemma PushRefused(r: Ring, data: Block)
    requires r.Coherent()
    requires |data| != r.blockSize || 0 < r.reserved < r.Count() || (r.reserved == 0 && r.used == r.Count())
    ensures
      PushStep(r, data)
      == (r, Quiet(false, if |data| == r.blockSize && r.reserved == 0 then StreamOverflow else NoEvent))
  {
    if r.reserved > 0 {
      SameSlotIffFullLap(r, r.used, r.used + r.reserved);
    }
  }

  lemma PushedFollowsLog(c: Client, l: Log, data: Block, known: Option<Block>)
    requires Corresponds(c, l) && l.Pushes(|data|) && l.Used() < l.count
    requires known.Some? ==> known.value == data
    ensures
      var (after, reply) := PushStep(c.ring, data);
      var (log, promise) := LogPush(l, |data|, known);
      Corresponds(Client(after, c.spans), log) && Keeps(promise, reply)
  {
    hide Holds, Ring.Unread, Ring.Outstanding, Ring.WellFormed, NullBlock, StateEvent;
    var pushed := l.(history := l.history[|l.history| - 1 := known]);
    PushMovesWindow(c.ring, l.Window(), data, known);
    assert pushed.Window() == l.Window()[c.ring.used := known];
    assert LogPush(l, |data|, known).0.Window() == pushed.Window() + [pushed.Untouched(l.Used() + 1)];
  }

  lemma PushMovesWindow(r: Ring, window: seq<Option<Block>>, data: Block, known: Option<Block>)
    requires r.Coherent() && r.reserved == 0 && r.used < r.Count() && |data| == r.blockSize
    requires Holds(r, window) && |window| == r.used + 1 && (known.Some? ==> known.value == data)
    ensures
      var (after, reply) := PushStep(r, data);
      var pushed := window[r.used := known];
      && reply == Quiet(true, StateEvent(r.used + 1, r.Count()))
      && after.Coherent() && after.Count() == r.Count() && after.blockSize == r.blockSize
      && after.silence == r.silence && after.used == r.used + 1 && after.peeked == r.peeked && after.reserved == 0
      && after.Outstanding() == [] == r.Outstanding()
      && Holds(after, pushed + [if r.used + 1 == r.Count() then pushed[0] else None])
  {
    hide Holds, NullBlock, Ring.Unread, Ring.Outstanding;
    var after := PushStep(r, data).0;
    var filled := Step(r, WriteThrough(r.At(r.used), data)).0;
    FillChangesWindow(r, window, r.used, data);
    PushCoherence(r, data);
    WindowForgets(filled, window[r.used := Some(data)], r.used, known);
    assert window[r.used := Some(data)][r.used := known] == window[r.used := known];
    var pushed := window[r.used := known];
    WindowExtended(filled, after, pushed, if r.used + 1 == r.Count() then pushed[0] else None);
    NoneOutstanding(r);
    NoneOutstanding(after);
  }

  lemma WindowForgets(r: Ring, window: seq<Option<Block>>, place: nat, known: Option<Block>)
    requires r.WellFormed() && Holds(r, window) && place < |window|
    requires known.Some? ==> known == window[place]
    ensures Holds(r, window[place := known])
  {
  }

  lemma NoneOutstanding(r: Ring)
    requires r.Coherent() && r.reserved == 0
    ensures r.Outstanding() == []
  {
  }

  lemma ResetFollowsLog(c: Client, l: Log)
    requires Corresponds(c, l)
    ensures
      var (client, reply) := ClientStep(c, Call(Reset));
      var (log, promise) := LogStep(l, Call(Reset));
      Corresponds(client, log) && Keeps(promise, reply)
  {
    assert Fresh(c.ring.blockSize, c.ring.slots).Outstanding() == [];
  }

  lemma ReaderKeepsCorrespondence(c: Client, l: Log, after: Ring, log: Log)
    requires Corresponds(c, l) && after.Coherent() && log.Valid()
    requires Shows(after, log.silence)
    requires after.slots == c.ring.slots && after.reserved == c.ring.reserved && after.blockSize == c.ring.blockSize
    requires after.used <= c.ring.used && after.dataStart == c.ring.At(c.ring.used - after.used)
    requires log == l.(read := log.read, peeked := log.peeked, silence := log.silence)
    requires after.used == log.Used() && after.peeked == log.peeked
    ensures Corresponds(Client(after, c.spans), log)
  {
    var gone := c.ring.used - after.used;
    SuffixOfWindow(c.ring, after);
    WindowMoves(c.ring, after, l.Window(), gone);
    assert log.Window() == l.Window()[gone..];
  }

  lemma ReaderFollowsLog(c: Client, l: Log, op: Op)
    requires Corresponds(c, l) && ((op.Pop? && !op.into.SlotSpan?) || op.Peek? || op.Consume? || op.Unpeek?)
    requires Step(c.ring, op).0.Coherent()
    ensures
      var (client, reply) := ClientStep(c, Call(op));
      var (log, promise) := LogStep(l, Call(op));
      Corresponds(client, log) && Keeps(promise, reply)
  {
    hide Corresponds, Keeps, Ring.Coherent;
    match op
    case Pop(size, into) => PopFollowsLog(c, l, size, into);
    case Peek => PeekFollowsLog(c, l);
    case Consume => ConsumeFollowsLog(c, l);
    case Unpeek => UnpeekFollowsLog(c, l);
  }

  lemma ConsumeFollowsLog(c: Client, l: Log)
    requires Corresponds(c, l) && Step(c.ring, Consume).0.Coherent()
    ensures
      var (client, reply) := ClientStep(c, Call(Consume));
      var (log, promise) := LogStep(l, Call(Consume));
      Corresponds(client, log) && Keeps(promise, reply)
  {
    hide Holds, NullBlock;
    ReaderStepMoves(c.ring, Consume);
    ReaderKeepsCorrespondence(c, l, Step(c.ring, Consume).0, LogStep(l, Call(Consume)).0);
  }

  lemma UnpeekFollowsLog(c: Client, l: Log)
    requires Corresponds(c, l) && Step(c.ring, Unpeek).0.Coherent()
    ensures
      var (client, reply) := ClientStep(c, Call(Unpeek));
      var (log, promise) := LogStep(l, Call(Unpeek));
      Corresponds(client, log) && Keeps(promise, reply)
  {
    hide Holds, NullBlock;
    ReaderStepMoves(c.ring, Unpeek);
    ReaderKeepsCorrespondence(c, l, Step(c.ring, Unpeek).0, LogStep(l, Call(Unpeek)).0);
  }

  lemma PopFollowsLog(c: Client, l: Log, size: nat, into: Span)
    requires Corresponds(c, l) && !into.SlotSpan? && PopStep(c.ring, size, into).0.Coherent()
    ensures
      var (client, reply) := ClientStep(c, Call(Pop(size, into)));
      var (log, promise) := LogStep(l, Call(Pop(size, into)));
      Corresponds(client, log) && Keeps(promise, reply)
  {
    hide NullBlock, Holds, Ring.Unread, Ring.Outstanding;
    if size == l.blockSize && l.peeked == 0 && l.Used() > 0 {
      PoppedFollowsLog(c, l, into);
    } else {
      assert PopStep(c.ring, size, into).0 == c.ring;
    }
  }

  lemma PoppedFollowsLog(c: Client, l: Log, into: Span)
    requires Corresponds(c, l) && !into.SlotSpan? && PopStep(c.ring, l.blockSize, into).0.Coherent()
    requires l.peeked == 0 && l.Used() > 0
    ensures
      var (after, reply) := PopStep(c.ring, l.blockSize, into);
      var (log, promise) := LogStep(l, Call(Pop(l.blockSize, into)));
      Corresponds(Client(after, c.spans), log) && Keeps(promise, reply)
  {
    hide NullBlock, Holds, Ring.Unread, Ring.Outstanding;
    var after := PopStep(c.ring, l.blockSize, into).0;
    ReaderStepMoves(c.ring, Pop(l.blockSize, into));
    HoldsAt(c.ring, l.Window(), 0);
    assert l.Window()[0] == l.history[l.read];
    ReaderKeepsCorrespondence(c, l, after, LogStep(l, Call(Pop(l.blockSize, into))).0);
  }

  lemma PeekFollowsLog(c: Client, l: Log)
    requires Corresponds(c, l) && PeekStep(c.ring).0.Coherent()
    ensures
      var (client, reply) := ClientStep(c, Call(Peek));
      var (log, promise) := LogStep(l, Call(Peek));
      Corresponds(client, log) && Keeps(promise, reply)
  {
    hide NullBlock, Holds, Ring.Unread, Ring.Outstanding;
    var (after, reply) := PeekStep(c.ring);
    if reply.ok {
      HoldsAt(c.ring, l.Window(), l.peeked);
      assert l.Window()[l.peeked] == l.history[l.read + l.peeked];
      ReaderKeepsCorrespondence(c, l, after, LogStep(l, Call(Peek)).0);
    }
  }

  // ---------------------------------------------------------------------------------------------
  // Runs

  predicate DisciplinedRun(l: Log, acts: seq<ClientOp>)
    requires l.Valid()
    decreases |acts|
  {
    acts == [] || (Disciplined(l, acts[0]) && DisciplinedRun(LogStep(l, acts[0]).0, acts[1..]))
  }

  function LogRun(l: Log, acts: seq<ClientOp>): (promises: seq<Promise>)
    requires l.Valid() && DisciplinedRun(l, acts)
    ensures |promises| == |acts|
    decreases |acts|
  {
    if acts == [] then []
    else
      var (log, promise) := LogStep(l, acts[0]);
      [promise] + LogRun(log, acts[1..])
  }

  ghost predicate AllowedRun(c: Client, acts: seq<ClientOp>)
    decreases |acts|
  {
    acts == [] || (Allowed(c, acts[0]) && AllowedRun(ClientStep(c, acts[0]).0, acts[1..]))
  }

  ghost function ClientRun(c: Client, acts: seq<ClientOp>): (replies: seq<Reply>)
    requires AllowedRun(c, acts)
    ensures |replies| == |acts|
    decreases |acts|
  {
    if acts == [] then []
    else
      var (client, reply) := ClientStep(c, acts[0]);
      [reply] + ClientRun(client, acts[1..])
  }

  lemma {:induction false} RunFollowsLog(c: Client, l: Log, acts: seq<ClientOp>)
    requires Corresponds(c, l) && DisciplinedRun(l, acts)
    ensures AllowedRun(c, acts)
    ensures forall i | 0 <= i < |acts| :: Keeps(LogRun(l, acts)[i], ClientRun(c, acts)[i])
    decreases |acts|
  {
    if acts == [] {
    } else {
      StepFollowsLog(c, l, acts[0]);
      var client := ClientStep(c, acts[0]).0;
      var log := LogStep(l, acts[0]).0;
      RunFollowsLog(client, log, acts[1..]);
      forall i | 0 < i < |acts|
        ensures Keeps(LogRun(l, acts)[i], ClientRun(c, acts)[i])
      {
        assert LogRun(l, acts)[i] == LogRun(log, acts[1..])[i - 1];
        assert ClientRun(c, acts)[i] == ClientRun(client, acts[1..])[i - 1];
      }
    }
  }

  /** The log of a stream just reset. */
  function Started(blockSize: nat, slots: seq<Block>): Log
    requires slots != []
  {
    Log(|slots|, blockSize, [Some(slots[0])], 0, 0, [], Some(NullBlock(blockSize)))
  }

  /** Since a reset, every disciplined run of a client, laps and overflows included, reads what the log promises. */
  lemma {:induction false} ZeroCopyLagsOneBlock(blockSize: nat, slots: seq<Block>, acts: seq<ClientOp>)
    requires Fresh(blockSize, slots).WellFormed()
    requires DisciplinedRun(Started(blockSize, slots), acts)
    ensures AllowedRun(Client(Fresh(blockSize, slots), []), acts)
    ensures
      var promises := LogRun(Started(blockSize, slots), acts);
      var replies := ClientRun(Client(Fresh(blockSize, slots), []), acts);
      forall i | 0 <= i < |acts| :: Keeps(promises[i], replies[i])
  {
    var ring := Fresh(blockSize, slots);
    var log := Started(blockSize, slots);
    assert log.Window() == [Some(slots[0])];
    assert ring.Outstanding() == [];
    assert Corresponds(Client(ring, []), log);
    RunFollowsLog(Client(ring, []), log, acts);
  }
}
