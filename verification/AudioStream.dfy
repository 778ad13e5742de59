/**
 The audio stream as it sits in memory: one byte buffer of `blockCount` blocks, positions that are byte
 offsets into it, and counters. Every method is proved to be the corresponding step of the block ring.
 */
module AudioStream {
  import opened StreamRing

  // ---------------------------------------------------------------------------------------------
  // Bytes and blocks

  lemma BlockInRange(slot: nat, size: nat, count: nat)
    requires slot < count
    ensures slot * size + size <= count * size
  {
    assert (slot + 1) * size <= count * size;
  }

  lemma BlocksApart(low: nat, high: nat, size: nat)
    requires low < high
    ensures low * size + size <= high * size
  {
    BlockInRange(low, size, high);
  }

  ghost function BlockAt(bytes: seq<Byte>, size: nat, count: nat, slot: nat): (block: Block)
    requires |bytes| == count * size && slot < count
    ensures |block| == size
  {
    BlockInRange(slot, size, count);
    bytes[slot * size..slot * size + size]
  }

  lemma SliceIsBlock(bytes: seq<Byte>, size: nat, count: nat, slot: nat)
    requires |bytes| == count * size && slot < count
    ensures slot * size + size <= |bytes|
    ensures bytes[slot * size..slot * size + size] == Blocks(bytes, size, count)[slot]
  {
    BlockInRange(slot, size, count);
  }

  ghost function Blocks(bytes: seq<Byte>, size: nat, count: nat): (blocks: seq<Block>)
    requires |bytes| == count * size
    ensures |blocks| == count
    ensures forall slot | 0 <= slot < count :: |blocks[slot]| == size
  {
    seq(count, slot requires 0 <= slot < count => BlockAt(bytes, size, count, slot))
  }

  /** Copying one block's worth of bytes to a block boundary replaces that block and no other. */
  lemma CopyReplacesBlock(before: seq<Byte>, after: seq<Byte>, size: nat, count: nat, slot: nat, data: Block)
    requires |before| == |after| == count * size && slot < count && |data| == size
    requires slot * size + size <= |after|
    requires after[slot * size..slot * size + size] == data
    requires forall i | 0 <= i < |before| && !(slot * size <= i < slot * size + size) :: after[i] == before[i]
    ensures Blocks(after, size, count) == Blocks(before, size, count)[slot := data]
  {
    forall other | 0 <= other < count && other != slot
      ensures BlockAt(after, size, count, other) == BlockAt(before, size, count, other)
    {
      BlockInRange(other, size, count);
      if other < slot {
        BlocksApart(other, slot, size);
      } else {
        BlocksApart(slot, other, size);
      }
    }
  }

  /** A position: an offset into the buffer that advances by whole blocks and wraps at the end. */
  datatype BlockIterator = BlockIterator(bufSize: nat, curPos: nat, stepSize: nat)
  {
    function Incremented(): BlockIterator {
      if curPos + stepSize == bufSize then this.(curPos := 0) else this.(curPos := curPos + stepSize)
    }

    function Decremented(): BlockIterator
      requires stepSize <= bufSize && (curPos == 0 || stepSize <= curPos)
    {
      if curPos == 0 then this.(curPos := bufSize - stepSize) else this.(curPos := curPos - stepSize)
    }

    /** The position is at block `slot` of a buffer of `count` blocks. */
    ghost predicate IsAt(slot: nat, count: nat) {
      && slot < count
      && bufSize == count * stepSize
      && curPos == slot * stepSize
    }
  }

  lemma IncrementIsNext(it: BlockIterator, slot: nat, count: nat)
    requires it.IsAt(slot, count) && 0 < it.stepSize
    ensures it.Incremented().IsAt(Next(slot, count), count) && it.Incremented().stepSize == it.stepSize
  {
    assert slot * it.stepSize + it.stepSize == (slot + 1) * it.stepSize;
    if slot + 1 < count {
      BlocksApart(slot + 1, count, it.stepSize);
    }
  }

  /** Decrementing is the inverse of incrementing, on every block of every buffer. */
  lemma DecrementUndoesIncrement(it: BlockIterator, slot: nat, count: nat)
    requires it.IsAt(slot, count) && 0 < it.stepSize
    ensures
      var next := it.Incremented();
      && next.stepSize <= next.bufSize && (next.curPos == 0 || next.stepSize <= next.curPos)
      && next.Decremented() == it
  {
    BlockInRange(slot, it.stepSize, count);
    assert slot * it.stepSize + it.stepSize == (slot + 1) * it.stepSize;
    if slot + 1 < count {
      BlocksApart(slot + 1, count, it.stepSize);
    } else {
      assert (slot + 1) * it.stepSize == count * it.stepSize;
    }
  }

  lemma PositionsAgree(a: BlockIterator, b: BlockIterator, i: nat, j: nat, count: nat)
    requires a.IsAt(i, count) && b.IsAt(j, count) && a.stepSize == b.stepSize && 0 < a.stepSize
    ensures a.curPos == b.curPos <==> i == j
  {
    if i < j {
      BlocksApart(i, j, a.stepSize);
    } else if j < i {
      BlocksApart(j, i, a.stepSize);
    }
  }

  /** An address and a size, as the stream hands out and takes in. */
  datatype ByteSpan = ByteSpan(memory: array<Byte>, offset: nat, dataSize: nat)
  {
    ghost predicate InBounds() {
      offset + dataSize <= memory.Length
    }

    ghost function Bytes(): seq<Byte>
      requires InBounds()
      reads memory
    {
      memory[offset..offset + dataSize]
    }
  }

  class Stream {
    const blockSize: nat
    const blockCount: nat
    const buffer: array<Byte>
    const emptyBuffer: array<Byte>
    var blocksUsed: nat
    var peekCount: nat
    var reserveCount: nat
    var dataStart: BlockIterator
    var dataEnd: BlockIterator
    var peekPosition: BlockIterator
    var writeReservationPosition: BlockIterator
    /** Every event broadcast to the listeners so far. */
    var broadcasts: seq<Event>
    /** The blocks the four positions are at. */
    ghost var slots: (nat, nat, nat, nat)

    ghost predicate Valid()
      reads this, buffer, emptyBuffer
    {
      && 0 < blockSize
      && 0 < blockCount < SIZE_MODULUS
      && buffer != emptyBuffer
      && buffer.Length == blockCount * blockSize
      && emptyBuffer.Length == blockSize
      && blocksUsed < SIZE_MODULUS && peekCount < SIZE_MODULUS && reserveCount < SIZE_MODULUS
      && dataStart.stepSize == dataEnd.stepSize == peekPosition.stepSize == blockSize
      && writeReservationPosition.stepSize == blockSize
      && dataStart.IsAt(slots.0, blockCount)
      && dataEnd.IsAt(slots.1, blockCount)
      && peekPosition.IsAt(slots.2, blockCount)
      && writeReservationPosition.IsAt(slots.3, blockCount)
    }

    /** The block ring this stream implements. */
    ghost function View(): (ring: Ring)
      reads this, buffer, emptyBuffer
      requires Valid()
      ensures ring.WellFormed()
    {
      Ring(blockSize, Blocks(buffer[..], blockSize, blockCount), emptyBuffer[..],
           slots.0, slots.1, slots.2, slots.3, blocksUsed, peekCount, reserveCount)
    }

    /**
     Sizes are taken as they come. What is built is a stream if they are positive and the buffer's size, a 32-bit
     product, is the true one; otherwise there is no block to be at, or the buffer is shorter than its blocks.
     */
    constructor (blockSize: nat, blockCount: nat)
      requires blockSize < SIZE_MODULUS && blockCount < SIZE_MODULUS
      ensures fresh(buffer) && fresh(emptyBuffer)
      ensures this.blockSize == blockSize && this.blockCount == blockCount && broadcasts == []
      ensures buffer.Length == blockSize * blockCount % SIZE_MODULUS
      ensures Valid() <==> 0 < blockSize && 0 < blockCount && blockSize * blockCount < SIZE_MODULUS
      ensures Valid() ==> View() == Fresh(blockSize, View().slots)
    {
      var bytes := blockSize * blockCount % SIZE_MODULUS;
      this.blockSize := blockSize;
      this.blockCount := blockCount;
      buffer := new Byte[bytes](_ => 0);
      emptyBuffer := new Byte[blockSize](_ => 0);
      var start := BlockIterator(bytes, 0, blockSize);
      dataStart, dataEnd, peekPosition, writeReservationPosition := start, start, start, start;
      blocksUsed, peekCount, reserveCount := 0, 0, 0;
      broadcasts := [];
      slots := (0, 0, 0, 0);
      new;
      assert emptyBuffer[..] == NullBlock(blockSize);
      if 0 < blockSize && 0 < blockCount {
        assert blockSize * blockCount > 0;
      }
    }

    method BroadcastEvent(event: Event)
      modifies this`broadcasts
      ensures broadcasts == old(broadcasts) + (if event == NoEvent then [] else [event])
    {
      if event != NoEvent {
        broadcasts := broadcasts + [event];
      }
    }

    method BroadcastStateEvents()
      modifies this`broadcasts
      ensures broadcasts == old(broadcasts) + Trace(StateEvent(blocksUsed, blockCount))
    {
      if blocksUsed == blockCount / 2 {
        BroadcastEvent(StreamHalfUsed);
      } else if blocksUsed == 0 {
        BroadcastEvent(StreamEmpty);
      } else if blocksUsed == blockCount {
        BroadcastEvent(StreamFull);
      }
    }

    /** Copies a span in. The caller's bytes may come from anywhere, this stream's own blocks included. */
    method Push(span: ByteSpan) returns (ok: bool)
      requires Valid() && span.InBounds()
      modifies this, buffer
      ensures Valid()
      ensures
        var (after, reply) := PushStep(old(View()), old(span.Bytes()));
        View() == after && ok == reply.ok && broadcasts == old(broadcasts) + Trace(reply.event)
    {
      hide Blocks, Next, StateEvent, NullBlock, BlockIterator.Incremented;
      PositionsAgree(dataEnd, writeReservationPosition, slots.1, slots.3, blockCount);
      if span.dataSize != blockSize {
        return false;
      }
      if dataEnd.curPos != writeReservationPosition.curPos {
        return false;
      }
      if blocksUsed == blockCount {
        BroadcastEvent(StreamOverflow);
        return false;
      }
      BlockInRange(slots.1, blockSize, blockCount);
      ghost var before, data, slot := buffer[..], span.Bytes(), slots.1;
      var offset := dataEnd.curPos;
      forall i | 0 <= i < blockSize {
        buffer[offset + i] := span.memory[span.offset + i];
      }
      CopyReplacesBlock(before, buffer[..], blockSize, blockCount, slot, data);
      IncrementIsNext(dataEnd, slot, blockCount);
      dataEnd := dataEnd.Incremented();
      blocksUsed := SizeAdd(blocksUsed, 1);
      writeReservationPosition := dataEnd;
      slots := (slots.0, Next(slot, blockCount), slots.2, Next(slot, blockCount));
      BroadcastStateEvents();
      return true;
    }

    method GetNullSpan() returns (span: ByteSpan)
      requires Valid()
      ensures span == ByteSpan(emptyBuffer, 0, blockSize)
    {
      return ByteSpan(emptyBuffer, 0, blockSize);
    }

    /** Pushes the block behind the null span. */
    method PushEmpty() returns (ok: bool)
      requires Valid()
      modifies this, buffer
      ensures Valid()
      ensures
        var (after, reply) := Step(old(View()), StreamRing.PushNull);
        View() == after && ok == reply.ok && broadcasts == old(broadcasts) + Trace(reply.event)
    {
      var span := GetNullSpan();
      assert span.Bytes() == emptyBuffer[..];
      ok := Push(span);
    }

    /** What a span handed to `Pop` is to the stream; `slot` is the block it was handed out as, if it was. */
    ghost function Target(span: ByteSpan, slot: nat): Span
      reads this
    {
      if span.memory == emptyBuffer then NullSpan else if span.memory == buffer then SlotSpan(slot) else NoSpan
    }

    /** Copies the block at the start of the data; a span of the stream's own memory changes that too. */
    method CopyOldestTo(span: ByteSpan, ghost slot: nat)
      requires Valid() && span.InBounds() && span.dataSize == blockSize
      requires span.memory == buffer ==> slot < blockCount && Denotes(span, SlotSpan(slot))
      modifies span.memory
      ensures Valid()
      ensures
        var was := old(View());
        var data := was.slots[was.dataStart];
        && span.Bytes() == data
        && View() == was.(slots := if span.memory == buffer then was.slots[slot := data] else was.slots,
                          silence := if span.memory == emptyBuffer then data else was.silence)
      ensures forall i | 0 <= i < span.memory.Length && !(span.offset <= i < span.offset + blockSize) ::
          span.memory[i] == old(span.memory[i])
    {
      hide Blocks, Next, NullBlock, BlockIterator.Incremented;
      ghost var was := View();
      ghost var before := buffer[..];
      SliceIsBlock(before, blockSize, blockCount, slots.0);
      var offset := dataStart.curPos;
      forall i | 0 <= i < blockSize {
        span.memory[span.offset + i] := buffer[offset + i];
      }
      assert span.Bytes() == before[offset..offset + blockSize] == was.slots[was.dataStart];
      if span.memory == buffer {
        BlockInRange(slot, blockSize, blockCount);
        CopyReplacesBlock(before, buffer[..], blockSize, blockCount, slot, span.Bytes());
      } else {
        assert buffer[..] == before;
        assert span.memory == emptyBuffer ==> span.Bytes() == emptyBuffer[..];
      }
    }

    /**
     Copies the oldest block out, or replaces the caller's span by the null span. The caller's memory may be the
     null block or a block of the ring, if the span is one that the stream handed out.
     */
    method Pop(span: ByteSpan, ghost slot: nat) returns (ok: bool, out: ByteSpan)
      requires Valid() && span.InBounds()
      requires span.memory == buffer ==> slot < blockCount && Denotes(span, SlotSpan(slot))
      modifies this, span.memory
      ensures Valid()
      ensures
        var (after, reply) := PopStep(old(View()), span.dataSize, Target(span, slot));
        && View() == after && ok == reply.ok && broadcasts == old(broadcasts) + Trace(reply.event)
        && out == (if reply.span == NullSpan then ByteSpan(emptyBuffer, 0, blockSize) else span)
        && (ok ==> span.Bytes() == reply.data)
      ensures forall i | 0 <= i < span.memory.Length && !(ok && span.offset <= i < span.offset + span.dataSize) ::
          span.memory[i] == old(span.memory[i])
    {
      out := span;
      PositionsAgree(dataStart, peekPosition, slots.0, slots.2, blockCount);
      if span.dataSize != blockSize {
        return false, out;
      }
      if dataStart.curPos != peekPosition.curPos {
        return false, out;
      }
      if blocksUsed == 0 {
        out := GetNullSpan();
        BroadcastEvent(StreamUnderFlow);
        return false, out;
      }
      hide Blocks, Next, StateEvent, NullBlock, BlockIterator.Incremented;
      CopyOldestTo(span, slot);
      IncrementIsNext(dataStart, slots.0, blockCount);
      dataStart := dataStart.Incremented();
      blocksUsed := SizeSub(blocksUsed, 1);
      peekPosition := dataStart;
      slots := (Next(slots.0, blockCount), slots.1, Next(slots.0, blockCount), slots.3);
      BroadcastStateEvents();
      return true, out;
    }

    method Consume()
      requires Valid()
      modifies this
      ensures Valid()
      ensures
        var (after, reply) := ConsumeStep(old(View()));
        View() == after && broadcasts == old(broadcasts) + Trace(reply.event)
    {
      blocksUsed := SizeSub(blocksUsed, peekCount);
      peekCount := 0;
      dataStart := peekPosition;
      slots := (slots.2, slots.1, slots.2, slots.3);
      BroadcastStateEvents();
    }

    /** Lends the next unread block to the reader, in place. */
    method Peek() returns (ok: bool, span: ByteSpan)
      requires Valid()
      modifies this
      ensures Valid()
      ensures
        var (after, reply) := PeekStep(old(View()));
        && View() == after && ok == reply.ok && broadcasts == old(broadcasts) + Trace(reply.event)
        && Denotes(span, reply.span)
        && span.InBounds() && span.Bytes() == reply.data
    {
      if peekCount < blocksUsed {
        hide Blocks;
        SliceIsBlock(buffer[..], blockSize, blockCount, slots.2);
        span := ByteSpan(buffer, peekPosition.curPos, blockSize);
        IncrementIsNext(peekPosition, slots.2, blockCount);
        peekPosition := peekPosition.Incremented();
        peekCount := SizeAdd(peekCount, 1);
        slots := (slots.0, slots.1, Next(slots.2, blockCount), slots.3);
        return true, span;
      }
      span := GetNullSpan();
      BroadcastEvent(StreamUnderFlow);
      return false, span;
    }

    method Unpeek()
      requires Valid()
      modifies this
      ensures Valid()
      ensures View() == Step(old(View()), StreamRing.Unpeek).0 && broadcasts == old(broadcasts)
    {
      peekPosition := dataStart;
      peekCount := 0;
      slots := (slots.0, slots.1, slots.0, slots.3);
    }

    /** Lends the block after the last reservation to the writer, in place. */
    method Reserve() returns (ok: bool, span: ByteSpan)
      requires Valid()
      modifies this
      ensures Valid()
      ensures
        var (after, reply) := ReserveStep(old(View()));
        && View() == after && ok == reply.ok && broadcasts == old(broadcasts) + Trace(reply.event)
        && Denotes(span, reply.span)
        && span.InBounds() && span.Bytes() == reply.data
    {
      hide Blocks, Next, StateEvent, NullBlock, BlockIterator.Incremented;
      if SizeSub(blockCount, blocksUsed) > reserveCount {
        IncrementIsNext(writeReservationPosition, slots.3, blockCount);
        writeReservationPosition := writeReservationPosition.Incremented();
        reserveCount := SizeAdd(reserveCount, 1);
        slots := (slots.0, slots.1, slots.2, Next(slots.3, blockCount));
        SliceIsBlock(buffer[..], blockSize, blockCount, slots.3);
        span := ByteSpan(buffer, writeReservationPosition.curPos, blockSize);
        return true, span;
      }
      blocksUsed := 0;
      dataEnd := peekPosition;
      reserveCount := 1;
      writeReservationPosition := peekPosition;
      IncrementIsNext(peekPosition, slots.2, blockCount);
      writeReservationPosition := writeReservationPosition.Incremented();
      slots := (slots.0, slots.2, slots.2, Next(slots.2, blockCount));
      SliceIsBlock(buffer[..], blockSize, blockCount, slots.3);
      span := ByteSpan(buffer, writeReservationPosition.curPos, blockSize);
      BroadcastEvent(StreamOverflow);
      return false, span;
    }

    method Commit()
      requires Valid()
      modifies this
      ensures Valid()
      ensures
        var (after, reply) := CommitStep(old(View()));
        View() == after && broadcasts == old(broadcasts) + Trace(reply.event)
    {
      blocksUsed := SizeAdd(blocksUsed, reserveCount);
      reserveCount := 0;
      dataEnd := writeReservationPosition;
      slots := (slots.0, slots.3, slots.2, slots.3);
      BroadcastStateEvents();
    }

    method Release()
      requires Valid()
      modifies this
      ensures Valid()
      ensures View() == Step(old(View()), StreamRing.Release).0 && broadcasts == old(broadcasts)
    {
      reserveCount := 0;
      writeReservationPosition := dataEnd;
      slots := (slots.0, slots.1, slots.2, slots.1);
    }

    method Reset()
      requires Valid()
      modifies this, emptyBuffer
      ensures Valid()
      ensures View() == Step(old(View()), StreamRing.Reset).0 && broadcasts == old(broadcasts)
    {
      hide Blocks, Next, StateEvent;
      dataStart := BlockIterator(blockSize * blockCount, 0, blockSize);
      dataEnd := dataStart;
      peekPosition := dataStart;
      writeReservationPosition := dataStart;
      forall i | 0 <= i < emptyBuffer.Length {
        emptyBuffer[i] := 0;
      }
      blocksUsed, peekCount, reserveCount := 0, 0, 0;
      slots := (0, 0, 0, 0);
      assert emptyBuffer[..] == NullBlock(blockSize);
      assert buffer[..] == old(buffer[..]);
    }

    /** The memory span a ring span stands for. */
    ghost predicate Denotes(span: ByteSpan, target: Span)
      reads this
    {
      && span.dataSize == blockSize
      && match target
         case NoSpan => false
         case NullSpan => span.memory == emptyBuffer && span.offset == 0
         case SlotSpan(slot) => span.memory == buffer && span.offset == slot * blockSize
    }

    /** The holder of a span writes a whole block through it; the stream takes no part in this. */
    method WriteThrough(span: ByteSpan, ghost slot: nat, data: Block)
      requires Valid() && slot < blockCount && |data| == blockSize && Denotes(span, SlotSpan(slot))
      modifies buffer
      ensures Valid()
      ensures View() == Step(old(View()), StreamRing.WriteThrough(slot, data)).0
    {
      BlockInRange(slot, blockSize, blockCount);
      ghost var before := buffer[..];
      forall i | 0 <= i < blockSize {
        span.memory[span.offset + i] := data[i];
      }
      CopyReplacesBlock(before, buffer[..], blockSize, blockCount, slot, data);
    }
  }

  function Trace(event: Event): seq<Event> {
    if event == NoEvent then [] else [event]
  }
}
