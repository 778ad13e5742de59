/**
 How large a stream is made. Durations that the program holds as floating point are exact rationals here, and
 casts to whole numbers truncate.
 */
module StreamSizing {
  import opened Options
  import opened Powers
  import AudioStream

  const BITS_IN_BYTE: nat := 8
  const MICRO: nat := 1_000_000
  const DEFAULT_BUFFERING: nat := 24
  const UINT_MODULUS: nat := 0x1_0000_0000

  datatype AudioFormat = AudioFormat(sampleRate: nat, bitWidth: nat, channels: nat)
  {
    /** The product is taken in 32 bits. */
    function GetBitrate(): nat {
      sampleRate * bitWidth * channels % UINT_MODULUS
    }

    function BytesPerSecond(): nat {
      GetBitrate() / BITS_IN_BYTE
    }

    function IsNull(): bool {
      this == AudioFormat(0, 0, 0)
    }

    function BytesToMicroseconds(bytes: nat): nat
      requires BytesPerSecond() > 0
    {
      bytes * MICRO / BytesPerSecond()
    }

    function MicrosecondsToBytes(duration: nat): nat {
      duration * BytesPerSecond() / MICRO
    }
  }

  function CeilDiv(a: nat, b: nat): nat
    requires b > 0
  {
    (a + b - 1) / b
  }

  lemma CeilDivCovers(a: nat, b: nat)
    requires b > 0
    ensures a <= CeilDiv(a, b) * b
  {
  }

  /** Dividing and multiplying back. */
  lemma FloorDivWithin(a: nat, b: nat)
    requires b > 0
    ensures a / b * b <= a < a / b * b + b
  {
  }

  /**
   Bytes to microseconds and back never grows, and loses no more than the bytes of one microsecond, rounded up:
   at most one byte up to a million bytes per second.
   */
  lemma ConversionLosesLittle(f: AudioFormat, bytes: nat)
    requires f.BytesPerSecond() > 0
    ensures
      var back := f.MicrosecondsToBytes(f.BytesToMicroseconds(bytes));
      && back <= bytes <= back + CeilDiv(f.BytesPerSecond(), MICRO)
      && (f.BytesPerSecond() <= MICRO ==> bytes <= back + 1)
  {
    var rate, us := f.BytesPerSecond(), f.BytesToMicroseconds(bytes);
    FloorDivWithin(bytes * MICRO, rate);
    FloorDivWithin(us * rate, MICRO);
    CeilDivCovers(rate, MICRO);
    LossBounded(bytes, f.MicrosecondsToBytes(us), us * rate, rate, CeilDiv(rate, MICRO));
    if rate <= MICRO {
      LossBounded(bytes, f.MicrosecondsToBytes(us), us * rate, rate, 1);
    }
  }

  lemma LossBounded(bytes: nat, back: nat, product: nat, rate: nat, loss: nat)
    requires product <= bytes * MICRO < product + rate
    requires back * MICRO <= product < back * MICRO + MICRO
    requires rate <= loss * MICRO
    ensures back <= bytes <= back + loss
  {
  }

  // ---------------------------------------------------------------------------------------------
  // Constraints

  datatype Traits = Traits(blockSizeConstraint: Option<nat>, timeConstraint: Option<nat>)

  datatype Error = InvalidBlockSize | BlockSizeMismatch | NoTiming | NoFormat | Undefined

  datatype Result<T> = Ok(value: T) | Failed(error: Error)

  /** All given block sizes are positive and equal; the first offence is reported. */
  method GetBlockSizeConstraint(traitsList: seq<Traits>) returns (size: Result<Option<nat>>)
    ensures size.Ok? <==> forall i, j | 0 <= i < |traitsList| && 0 <= j < |traitsList|
        && traitsList[i].blockSizeConstraint.Some? && traitsList[j].blockSizeConstraint.Some? ::
          traitsList[i].blockSizeConstraint == traitsList[j].blockSizeConstraint != Some(0)
    ensures size.Ok? && size.value.Some? ==>
        && size.value.value > 0
        && exists i | 0 <= i < |traitsList| :: traitsList[i].blockSizeConstraint == size.value
    ensures size.Ok? && size.value.None? ==>
        forall i | 0 <= i < |traitsList| :: traitsList[i].blockSizeConstraint.None?
  {
    var blockSize: Option<nat> := None;
    for k := 0 to |traitsList|
      invariant blockSize.None? ==> forall i | 0 <= i < k :: traitsList[i].blockSizeConstraint.None?
      invariant blockSize.Some? ==>
          && blockSize.value > 0
          && (exists i | 0 <= i < k :: traitsList[i].blockSizeConstraint == blockSize)
          && forall i | 0 <= i < k :: traitsList[i].blockSizeConstraint in {None, blockSize}
    {
      var candidate := traitsList[k].blockSizeConstraint;
      if candidate.None? {
        continue;
      }
      if candidate.value == 0 {
        return Failed(InvalidBlockSize);
      }
      if blockSize.None? {
        blockSize := candidate;
      } else if blockSize != candidate {
        return Failed(BlockSizeMismatch);
      }
    }
    return Ok(blockSize);
  }

  function OrZero(t: Option<nat>): nat {
    if t.Some? then t.value else 0
  }

  /** The leftmost of the largest constraints; it fails if that one is absent. */
  method GetTimingConstraints(constraints: seq<Option<nat>>) returns (timing: Result<nat>)
    requires constraints != []
    ensures timing.Ok? ==>
        && Some(timing.value) in constraints
        && forall t | t in constraints :: OrZero(t) <= timing.value
    ensures timing.Failed? <==> constraints[0].None? && forall t | t in constraints :: OrZero(t) == 0
  {
    var largest := constraints[0];
    for k := 1 to |constraints|
      invariant largest in constraints[..k]
      invariant forall t | t in constraints[..k] :: OrZero(t) <= OrZero(largest)
      invariant largest.None? ==> constraints[0].None?
      invariant OrZero(largest) == 0 ==> largest == constraints[0]
    {
      assert constraints[..k + 1] == constraints[..k] + [constraints[k]];
      if OrZero(constraints[k]) > OrZero(largest) {
        largest := constraints[k];
      }
    }
    assert constraints[..|constraints|] == constraints;
    return if largest.Some? then Ok(largest.value) else Failed(NoTiming);
  }

  // ---------------------------------------------------------------------------------------------
  // Sizing

  function FloorLog2(x: nat): nat
    requires x > 0
  {
    if x == 1 then 0 else FloorLog2(x / 2) + 1
  }

  /** Zero for zero and for what needs all 32 bits. */
  function CeilPowerOfTwo(x: nat): nat
    requires x < UINT_MODULUS
  {
    if x == 0 || x >= UINT_MODULUS / 2 then 0
    else if Pow2(FloorLog2(x)) == x then x
    else Pow2(FloorLog2(x) + 1)
  }

  lemma {:induction false} FloorLogBounds(x: nat)
    requires x > 0
    ensures Pow2(FloorLog2(x)) <= x < Pow2(FloorLog2(x) + 1)
  {
    if x > 1 {
      FloorLogBounds(x / 2);
    }
  }

  /** The least power of two not below the argument. */
  lemma {:induction false} CeilPowerOfTwoIsLeast(x: nat, k: nat)
    requires 0 < x < UINT_MODULUS / 2
    ensures x <= CeilPowerOfTwo(x) < 2 * x
    ensures Pow2(k) >= x ==> Pow2(k) >= CeilPowerOfTwo(x)
  {
    FloorLogBounds(x);
    if x <= Pow2(k) < CeilPowerOfTwo(x) {
      if k <= FloorLog2(x) {
        Pow2Grows(k, FloorLog2(x));
      } else {
        Pow2Grows(FloorLog2(x) + 1, k);
      }
    }
  }

  lemma CeilPowerOfTwoFits(x: nat)
    requires x < UINT_MODULUS
    ensures CeilPowerOfTwo(x) < UINT_MODULUS
    ensures 0 < CeilPowerOfTwo(x) ==> LeastPower(CeilPowerOfTwo(x), x)
  {
    if 0 < x < UINT_MODULUS / 2 {
      CeilPowerOfTwoIsLeast(x, 0);
      assert CeilPowerOfTwo(x) == Pow2(if Pow2(FloorLog2(x)) == x then FloorLog2(x) else FloorLog2(x) + 1);
    }
  }

  /** A power of two that is not below the number, but whose half is. */
  ghost predicate LeastPower(power: nat, x: nat) {
    (exists k :: power == Pow2(k)) && x <= power < 2 * x
  }

  /** The blocks that cover the timing, in milliseconds. */
  function Blocks(f: AudioFormat, timing: nat, blockSize: nat): nat
    requires f.BytesPerSecond() > 0 && f.BytesToMicroseconds(blockSize) > 0
  {
    CeilDiv(timing * 1000, f.BytesToMicroseconds(blockSize))
  }

  /** How many blocks a stream gets: those, 24 times over, in 32 bits. */
  function Buffering(f: AudioFormat, timing: nat, blockSize: nat): (buffering: nat)
    requires f.BytesPerSecond() > 0 && f.BytesToMicroseconds(blockSize) > 0
    ensures buffering < UINT_MODULUS
  {
    Blocks(f, timing, blockSize) * DEFAULT_BUFFERING % UINT_MODULUS
  }

  /** The blocks hold at least 24 times the bytes of the timing. */
  predicate Covers(f: AudioFormat, timing: nat, blockSize: nat, buffering: nat) {
    blockSize * buffering >= DEFAULT_BUFFERING * f.MicrosecondsToBytes(timing * 1000)
  }

  /** The blocks cover the timing exactly when their number does not wrap around. */
  lemma StreamCoversTimingIff(f: AudioFormat, timing: nat, blockSize: nat)
    requires f.BytesPerSecond() > 0 && f.BytesToMicroseconds(blockSize) > 0
    ensures Covers(f, timing, blockSize, Buffering(f, timing, blockSize))
       <==> Blocks(f, timing, blockSize) * DEFAULT_BUFFERING < UINT_MODULUS
  {
    hide Covers, Blocks, AudioFormat.BytesPerSecond, AudioFormat.BytesToMicroseconds;
    if Blocks(f, timing, blockSize) * DEFAULT_BUFFERING < UINT_MODULUS {
      BlocksCoverTiming(f, timing, blockSize);
      assert Buffering(f, timing, blockSize) == Blocks(f, timing, blockSize) * DEFAULT_BUFFERING;
    } else {
      WrappedFallsShort(f, timing, blockSize);
    }
  }

  lemma BlocksCoverTiming(f: AudioFormat, timing: nat, blockSize: nat)
    requires f.BytesPerSecond() > 0 && f.BytesToMicroseconds(blockSize) > 0
    ensures Covers(f, timing, blockSize, Blocks(f, timing, blockSize) * DEFAULT_BUFFERING)
  {
    var rate, us := f.BytesPerSecond(), f.BytesToMicroseconds(blockSize);
    var blocks := Blocks(f, timing, blockSize);
    CeilDivCovers(timing * 1000, us);
    FloorDivWithin(blockSize * MICRO, rate);
    FloorDivWithin(timing * 1000 * rate, MICRO);
    TimesMonotone(timing * 1000, blocks * us, rate);
    TimesMonotone(us * rate, blockSize * MICRO, blocks);
    var bytes := f.MicrosecondsToBytes(timing * 1000);
    assert bytes * MICRO <= blocks * (us * rate) <= blocks * (blockSize * MICRO) by {
      assert (blocks * us) * rate == blocks * (us * rate);
    }
    assert blocks * (blockSize * MICRO) == (blocks * blockSize) * MICRO;
    assert bytes <= blocks * blockSize;
    assert blockSize * (blocks * DEFAULT_BUFFERING) == DEFAULT_BUFFERING * (blocks * blockSize);
  }

  /** What is lost in rounding a block's duration and the number of blocks never makes up for a wrap-around. */
  lemma WrappedFallsShort(f: AudioFormat, timing: nat, blockSize: nat)
    requires f.BytesPerSecond() > 0 && f.BytesToMicroseconds(blockSize) > 0
    requires Blocks(f, timing, blockSize) * DEFAULT_BUFFERING >= UINT_MODULUS
    ensures !Covers(f, timing, blockSize, Buffering(f, timing, blockSize))
  {
    var rate, us := f.BytesPerSecond(), f.BytesToMicroseconds(blockSize);
    var blocks, buffering := Blocks(f, timing, blockSize), Buffering(f, timing, blockSize);
    var time, bytes := timing * 1000, f.MicrosecondsToBytes(timing * 1000);
    assert blockSize > 0;
    FloorDivWithin(blockSize * MICRO, rate);
    FloorDivWithin(time * rate, MICRO);
    CeilDivWithin(time, us);
    WrappedCount(timing, us, blocks, buffering);
    ShortOfBytes(time, us, rate, bytes, blockSize, buffering);
  }

  lemma CeilDivWithin(a: nat, b: nat)
    requires b > 0
    ensures a + b > CeilDiv(a, b) * b >= a
  {
  }

  /** The wrapped number of blocks, even if each lasted a microsecond longer, lasts less than 24 times the timing. */
  lemma WrappedCount(timing: nat, us: nat, blocks: nat, buffering: nat)
    requires us > 0 && timing * 1000 <= blocks * us < timing * 1000 + us
    requires blocks * DEFAULT_BUFFERING >= UINT_MODULUS && buffering == blocks * DEFAULT_BUFFERING % UINT_MODULUS
    ensures (buffering + DEFAULT_BUFFERING) * (us + 1) <= DEFAULT_BUFFERING * (timing * 1000)
  {
    var total := blocks * DEFAULT_BUFFERING;
    var laps := total / UINT_MODULUS;
    assert total == laps * UINT_MODULUS + buffering && laps >= 1;
    if us == 1 {
      assert blocks == timing * 1000;
    } else {
      assert total * us == DEFAULT_BUFFERING * (blocks * us);
      WholeLapsOutweigh(laps, us, buffering);
    }
  }

  lemma WholeLapsOutweigh(laps: nat, us: nat, buffering: nat)
    requires laps >= 1 && us >= 2 && buffering < UINT_MODULUS
    ensures (buffering + DEFAULT_BUFFERING) * (us + 1) + DEFAULT_BUFFERING * us
         <= (laps * UINT_MODULUS + buffering) * us
  {
    TimesMonotone(1, laps, UINT_MODULUS);
    TimesMonotone(UINT_MODULUS + buffering, laps * UINT_MODULUS + buffering, us);
  }

  lemma ShortOfBytes(time: nat, us: nat, rate: nat, bytes: nat, blockSize: nat, buffering: nat)
    requires blockSize > 0 && blockSize * MICRO < us * rate + rate
    requires time * rate < bytes * MICRO + MICRO
    requires (buffering + DEFAULT_BUFFERING) * (us + 1) <= DEFAULT_BUFFERING * time
    ensures blockSize * buffering < DEFAULT_BUFFERING * bytes
  {
    var more := buffering + DEFAULT_BUFFERING;
    TimesMonotone(more * (us + 1), DEFAULT_BUFFERING * time, rate);
    TimesMonotone(blockSize * MICRO, us * rate + rate, more);
    Regrouped(more, us, rate, time);
    FewerBytes(more * blockSize, bytes, time * rate) by {
      assert more * (blockSize * MICRO) == (more * blockSize) * MICRO;
    }
    TimesMonotone(1, blockSize, DEFAULT_BUFFERING);
    assert more * blockSize == blockSize * buffering + DEFAULT_BUFFERING * blockSize;
  }

  lemma Regrouped(more: nat, us: nat, rate: nat, time: nat)
    ensures more * (us * rate + rate) == (more * (us + 1)) * rate
    ensures (DEFAULT_BUFFERING * time) * rate == DEFAULT_BUFFERING * (time * rate)
  {
    assert us * rate + rate == (us + 1) * rate;
  }

  lemma FewerBytes(blocks: nat, bytes: nat, product: nat)
    requires blocks * MICRO <= DEFAULT_BUFFERING * product && product < bytes * MICRO + MICRO
    ensures blocks < DEFAULT_BUFFERING * bytes + DEFAULT_BUFFERING
  {
  }

  /** A stream of such blocks has a buffer for all of them, at least one, and covers the timing. */
  predicate Serves(f: AudioFormat, timing: nat, blockSize: nat, buffering: nat) {
    0 < buffering && blockSize * buffering < UINT_MODULUS && Covers(f, timing, blockSize, buffering)
  }

  /** It does exactly when there is a timing to cover and all the bytes wanted can be counted in 32 bits. */
  lemma StreamServesTimingIff(f: AudioFormat, timing: nat, blockSize: nat)
    requires f.BytesPerSecond() > 0 && f.BytesToMicroseconds(blockSize) > 0
    ensures Serves(f, timing, blockSize, Buffering(f, timing, blockSize))
       <==> 0 < timing && blockSize * (Blocks(f, timing, blockSize) * DEFAULT_BUFFERING) < UINT_MODULUS
  {
    var wanted := Blocks(f, timing, blockSize) * DEFAULT_BUFFERING;
    assert blockSize > 0;
    StreamCoversTimingIff(f, timing, blockSize);
    BlocksWanted(f, timing, blockSize);
    hide Covers, Blocks, AudioFormat.BytesPerSecond, AudioFormat.BytesToMicroseconds;
    TimesMonotone(1, blockSize, wanted);
  }

  lemma BlocksWanted(f: AudioFormat, timing: nat, blockSize: nat)
    requires f.BytesPerSecond() > 0 && f.BytesToMicroseconds(blockSize) > 0
    ensures Blocks(f, timing, blockSize) == 0 <==> timing == 0
  {
    CeilDivWithin(timing * 1000, f.BytesToMicroseconds(blockSize));
  }

  /** A thousand seconds of stereo at 48 kHz in blocks of one byte: a tenth of the blocks are left. */
  lemma LongTimingWraps()
    ensures
      var f := AudioFormat(48000, 16, 2);
      && f.BytesPerSecond() == 192_000 && f.BytesToMicroseconds(1) == 5
      && Buffering(f, 1_000_000, 1) == 505_032_704
      && !Covers(f, 1_000_000, 1, Buffering(f, 1_000_000, 1))
  {
    StreamCoversTimingIff(AudioFormat(48000, 16, 2), 1_000_000, 1);
  }

  /** Nearly as long in blocks of 4096 bytes: the blocks are there, and a buffer of eight of them. */
  lemma LongTimingWrapsBuffer()
    ensures
      var f := AudioFormat(48000, 16, 2);
      && f.BytesPerSecond() == 192_000 && f.BytesToMicroseconds(4096) == 21_333
      && Buffering(f, 932_060, 4096) == 1_048_584
      && Covers(f, 932_060, 4096, 1_048_584) && !Serves(f, 932_060, 4096, 1_048_584)
      && 4096 * 1_048_584 % UINT_MODULUS == 8 * 4096
  {
    StreamServesTimingIff(AudioFormat(48000, 16, 2), 932_060, 4096);
    StreamCoversTimingIff(AudioFormat(48000, 16, 2), 932_060, 4096);
  }

  lemma TimesMonotone(a: nat, b: nat, factor: nat)
    requires a <= b
    ensures a * factor <= b * factor && factor * a <= factor * b
  {
  }

  /** Some timing is asked for, and the bytes wanted for each can be counted in 32 bits. */
  predicate Countable(f: AudioFormat, timings: set<Option<nat>>, blockSize: nat)
    requires f.BytesPerSecond() > 0 && f.BytesToMicroseconds(blockSize) > 0
  {
    && (exists t | t in timings :: OrZero(t) > 0)
    && (forall t | t in timings :: blockSize * (Blocks(f, OrZero(t), blockSize) * DEFAULT_BUFFERING) < UINT_MODULUS)
  }

  /** A stream made for the longest timing serves all of them exactly when they are countable. */
  lemma AllServedIff(f: AudioFormat, timings: set<Option<nat>>, longest: nat, blockSize: nat)
    requires f.BytesPerSecond() > 0 && f.BytesToMicroseconds(blockSize) > 0
    requires Some(longest) in timings && forall t | t in timings :: OrZero(t) <= longest
    ensures (forall t | t in timings :: Serves(f, OrZero(t), blockSize, Buffering(f, longest, blockSize)))
       <==> Countable(f, timings, blockSize)
  {
    hide Blocks, Buffering, AudioFormat.BytesPerSecond, AudioFormat.BytesToMicroseconds;
    hide AudioFormat.MicrosecondsToBytes;
    StreamServesTimingIff(f, longest, blockSize);
    forall t | t in timings
      ensures f.MicrosecondsToBytes(OrZero(t) * 1000) <= f.MicrosecondsToBytes(longest * 1000)
      ensures blockSize * (Blocks(f, OrZero(t), blockSize) * DEFAULT_BUFFERING)
           <= blockSize * (Blocks(f, longest, blockSize) * DEFAULT_BUFFERING)
    {
      LongerHasMoreBytes(f, OrZero(t) * 1000, longest * 1000);
      LongerHasMoreBlocks(f, OrZero(t), longest, blockSize);
    }
    assert OrZero(Some(longest)) == longest;
  }

  /** The longest of the timings asked for. */
  function Longest(source: Traits, sink: Traits, period: Option<nat>): (longest: nat)
    ensures forall t | t in {sink.timeConstraint, source.timeConstraint, period} :: OrZero(t) <= longest
    ensures exists t | t in {sink.timeConstraint, source.timeConstraint, period} :: OrZero(t) == longest
  {
    var a, b, c := OrZero(sink.timeConstraint), OrZero(source.timeConstraint), OrZero(period);
    var longest := if a >= b && a >= c then a else if b >= c then b else c;
    assert OrZero(sink.timeConstraint) == longest || OrZero(source.timeConstraint) == longest
        || OrZero(period) == longest;
    longest
  }

  lemma NoTimeForNothing(f: AudioFormat)
    ensures f.BytesPerSecond() > 0 ==> f.BytesToMicroseconds(0) == 0
    ensures f.IsNull() ==> f.BytesPerSecond() == 0
  {
  }

  lemma ListOfThree<T>(a: T, b: T, c: T)
    ensures forall t :: t in [a, b, c] <==> t in {a, b, c}
    ensures [a, b, c][0] == a
  {
    assert [a, b, c][1] == b && [a, b, c][2] == c;
  }

  lemma LongestIs(source: Traits, sink: Traits, period: Option<nat>, timing: nat)
    requires Some(timing) in {sink.timeConstraint, source.timeConstraint, period}
    requires forall t | t in {sink.timeConstraint, source.timeConstraint, period} :: OrZero(t) <= timing
    ensures timing == Longest(source, sink, period)
  {
    assert OrZero(Some(timing)) == timing;
  }

  /** What a stream is made with. */
  datatype Sizing = Sizing(blockSize: nat, buffering: nat)

  /**
   Negotiates block size and buffering between two endpoints. `Undefined` stands for a division by zero, or a
   cast of a number that does not fit its type.
   */
  method NegotiateSizing(source: Traits, sink: Traits, period: Option<nat>, f: AudioFormat)
      returns (sizing: Result<Sizing>)
    ensures sizing.Ok? ==>
        && !f.IsNull()
        && (forall t | t in {source, sink} && t.blockSizeConstraint.Some? ::
              t.blockSizeConstraint == Some(sizing.value.blockSize))
        && f.BytesPerSecond() > 0 && f.BytesToMicroseconds(sizing.value.blockSize) > 0
        && ((forall t | t in {sink.timeConstraint, source.timeConstraint, period} ::
               Serves(f, OrZero(t), sizing.value.blockSize, sizing.value.buffering))
            <==> Countable(f, {sink.timeConstraint, source.timeConstraint, period}, sizing.value.blockSize))
    ensures sizing.Ok? ==> sizing.value.buffering < UINT_MODULUS
    ensures sizing.Ok? && source.blockSizeConstraint.None? && sink.blockSizeConstraint.None? ==>
        && sizing.value.blockSize < UINT_MODULUS
        && LeastPower(sizing.value.blockSize, f.MicrosecondsToBytes(Longest(source, sink, period) * 1000))
    ensures f.IsNull() ==> sizing.Failed?
    ensures
      && f.BytesPerSecond() > 0 && period.Some? && period.value > 0
      && source.blockSizeConstraint.Some? && f.BytesToMicroseconds(source.blockSizeConstraint.value) > 0
      && (sink.blockSizeConstraint.Some? ==> sink.blockSizeConstraint == source.blockSizeConstraint)
      && (forall t | t in {sink.timeConstraint, source.timeConstraint, period} ::
            Blocks(f, OrZero(t), source.blockSizeConstraint.value) < UINT_MODULUS)
      ==> sizing.Ok?
  {
    hide CeilPowerOfTwo, AudioFormat.MicrosecondsToBytes;
    hide Serves, Blocks, Countable, Longest, LeastPower, AudioFormat.BytesPerSecond, AudioFormat.BytesToMicroseconds;
    var constraints := [sink.timeConstraint, source.timeConstraint, period];
    NoTimeForNothing(f);
    ListOfThree(sink.timeConstraint, source.timeConstraint, period);
    assert period in constraints;
    var timing := GetTimingConstraints(constraints);
    if timing.Failed? {
      return Failed(timing.error);
    }
    var traitsList := [source, sink];
    assert traitsList[0] == source && traitsList[1] == sink;
    var constraint := GetBlockSizeConstraint(traitsList);
    if constraint.Failed? {
      return Failed(constraint.error);
    }
    if f.IsNull() {
      return Failed(NoFormat);
    }
    var blockSize;
    if constraint.value.Some? {
      blockSize := constraint.value.value;
    } else {
      var bytes := f.MicrosecondsToBytes(timing.value * 1000);
      if bytes >= UINT_MODULUS {
        return Failed(Undefined);
      }
      CeilPowerOfTwoFits(bytes);
      blockSize := CeilPowerOfTwo(bytes);
    }
    if f.BytesPerSecond() == 0 || f.BytesToMicroseconds(blockSize) == 0 {
      return Failed(Undefined);
    }
    if Blocks(f, timing.value, blockSize) >= UINT_MODULUS {
      return Failed(Undefined);
    }
    assert Some(timing.value) in {sink.timeConstraint, source.timeConstraint, period};
    LongestIs(source, sink, period, timing.value);
    AllServedIff(f, {sink.timeConstraint, source.timeConstraint, period}, timing.value, blockSize);
    var buffering := Buffering(f, timing.value, blockSize);
    return Ok(Sizing(blockSize, buffering));
  }

  /** The argument types are 32 bits wide, a given block size included. */
  predicate FitsSize(t: Traits) {
    t.blockSizeConstraint.Some? ==> t.blockSizeConstraint.value < UINT_MODULUS
  }

  /**
   Makes the stream. It is one that works, and covers every timing given, exactly when some timing is positive and
   all the bytes wanted can be counted in 32 bits.
   */
  method MakeStream(source: Traits, sink: Traits, period: Option<nat>, f: AudioFormat)
      returns (made: Result<AudioStream.Stream>)
    requires FitsSize(source) && FitsSize(sink)
    ensures made.Ok? ==>
        var blockSize, blockCount := made.value.blockSize, made.value.blockCount;
        && fresh(made.value)
        && (source.blockSizeConstraint.None? && sink.blockSizeConstraint.None? ==>
              LeastPower(blockSize, f.MicrosecondsToBytes(Longest(source, sink, period) * 1000)))
        && (forall t | t in {source, sink} && t.blockSizeConstraint.Some? :: t.blockSizeConstraint == Some(blockSize))
        && made.value.buffer.Length == blockSize * blockCount % UINT_MODULUS
        && f.BytesPerSecond() > 0 && f.BytesToMicroseconds(blockSize) > 0
        && (&& made.value.Valid()
            && (forall t | t in {sink.timeConstraint, source.timeConstraint, period} ::
                  Covers(f, OrZero(t), blockSize, blockCount))
            <==> Countable(f, {sink.timeConstraint, source.timeConstraint, period}, blockSize))
  {
    var sizing := NegotiateSizing(source, sink, period, f);
    if sizing.Failed? {
      return Failed(sizing.error);
    }
    hide Covers, Countable, AudioFormat.BytesPerSecond;
    var blockSize, buffering := sizing.value.blockSize, sizing.value.buffering;
    assert blockSize < UINT_MODULUS by {
      assert source in {source, sink} && sink in {source, sink};
    }
    var stream := new AudioStream.Stream(blockSize, buffering);
    assert blockSize > 0;
    assert period in {sink.timeConstraint, source.timeConstraint, period};
    return Ok(stream);
  }

  lemma LongerHasMoreBlocks(f: AudioFormat, shorter: nat, longer: nat, blockSize: nat)
    requires f.BytesPerSecond() > 0 && f.BytesToMicroseconds(blockSize) > 0 && shorter <= longer
    ensures blockSize * (Blocks(f, shorter, blockSize) * DEFAULT_BUFFERING)
         <= blockSize * (Blocks(f, longer, blockSize) * DEFAULT_BUFFERING)
  {
    hide AudioFormat.BytesPerSecond, AudioFormat.BytesToMicroseconds, CeilDiv;
    CeilDivGrows(shorter * 1000, longer * 1000, f.BytesToMicroseconds(blockSize));
    var few, many := Blocks(f, shorter, blockSize), Blocks(f, longer, blockSize);
    TimesMonotone(few, many, DEFAULT_BUFFERING);
    TimesMonotone(few * DEFAULT_BUFFERING, many * DEFAULT_BUFFERING, blockSize);
  }

  lemma CeilDivGrows(a: nat, b: nat, us: nat)
    requires a <= b && us > 0
    ensures CeilDiv(a, us) <= CeilDiv(b, us)
  {
    CeilDivWithin(a, us);
    CeilDivWithin(b, us);
    if CeilDiv(b, us) < CeilDiv(a, us) {
      TimesMonotone(CeilDiv(b, us) + 1, CeilDiv(a, us), us);
    }
  }

  lemma LongerHasMoreBytes(f: AudioFormat, a: nat, b: nat)
    requires a <= b
    ensures f.MicrosecondsToBytes(a) <= f.MicrosecondsToBytes(b)
  {
    TimesMonotone(a, b, f.BytesPerSecond());
    FloorDivWithin(a * f.BytesPerSecond(), MICRO);
    FloorDivWithin(b * f.BytesPerSecond(), MICRO);
  }
}
