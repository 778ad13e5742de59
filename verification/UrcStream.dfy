/**
 Cutting unsolicited result codes out of the modem's byte stream, which arrives in chunks.

 A result code ends at the first CR LF that is not inside quotes (the <CR><LF> text <CR><LF> form of section
 5.7.1 of ITU-T V.250). The class keeps the cursors and flags of the parser; the functions say what it extracts.
 */
module UrcStream {
  import opened Options
  import opened Text

  // ---------------------------------------------------------------------------------------------
  // Specification

  /** The number of quotes in the text at index 1 or later and before `end`. */
  function QuotesBefore(text: string, end: nat): nat {
    if end <= 1 then 0
    else QuotesBefore(text, end - 1) + (if OccursAt(text, QUOTE, end - 1) then 1 else 0)
  }

  /** A CR LF that can end a result code: not at the very start and outside quotes. */
  predicate EndsUrc(text: string, at: nat) {
    1 <= at && OccursAt(text, CRLF, at) && QuotesBefore(text, at) % 2 == 0
  }

  /** The first CR LF at or after `from` that ends a result code. */
  function CutFrom(text: string, from: nat): (cut: Option<nat>)
    ensures cut.Some? ==> from <= cut.value && EndsUrc(text, cut.value)
    decreases |text| - from
  {
    if from >= |text| then None
    else if EndsUrc(text, from) then Some(from)
    else CutFrom(text, from + 1)
  }

  function Cut(text: string): (cut: Option<nat>) {
    CutFrom(text, 1)
  }

  /** No result code ends before the cut, or anywhere if there is none. */
  lemma {:induction false} CutFromFirst(text: string, from: nat)
    ensures
      match CutFrom(text, from)
      case Some(at) => forall i | from <= i < at :: !EndsUrc(text, i)
      case None => forall i | from <= i :: !EndsUrc(text, i)
    decreases |text| - from
  {
    if from < |text| && !EndsUrc(text, from) {
      CutFromFirst(text, from + 1);
    }
  }

  lemma {:induction false} CutIs(text: string, at: nat)
    requires EndsUrc(text, at) && forall i | 1 <= i < at :: !EndsUrc(text, i)
    ensures Cut(text) == Some(at)
  {
    CutFromFirst(text, 1);
  }

  lemma {:induction false} NoCutIs(text: string)
    requires forall i | 1 <= i :: !EndsUrc(text, i)
    ensures Cut(text) == None
  {
  }

  /** All result codes at the front of the text, and what is left over. */
  function Extract(text: string): (result: (seq<string>, string))
    decreases |text|
  {
    match Cut(text)
    case None => ([], text)
    case Some(at) =>
      var (urcs, rest) := Extract(text[at + 2..]);
      ([text[..at + 2]] + urcs, rest)
  }

  lemma {:induction false} ExtractAfterCut(text: string, done: seq<string>)
    requires Cut(text).Some?
    ensures
      var at := Cut(text).value;
      && at + 2 <= |text|
      && done + Extract(text).0 == (done + [text[..at + 2]]) + Extract(text[at + 2..]).0
      && Extract(text).1 == Extract(text[at + 2..]).1
  {
  }

  /** Everything from the first CR LF on; nothing if there is none. */
  function DropGarbage(text: string): (kept: string) {
    match Find(text, CRLF, 0)
    case None => ""
    case Some(at) => text[at..]
  }

  // ---------------------------------------------------------------------------------------------
  // The parser

  /** What `write` does between clock readings: the buffer and the emitted result codes. */
  datatype UrcState = UrcState(buffer: string, lastWriteTime: nat, urcs: seq<string>)

  const MAX_TIMEOUT: nat := 5
  const MAX_SIZE: nat := 2048
  const TICKS_MODULUS: nat := 0x1_0000_0000

  /** The buffer is too old, in wrapping 32-bit ticks, or too long. */
  predicate FuseBlows(buffer: string, lastWriteTime: nat, now: nat) {
    buffer != "" && (now >= (lastWriteTime + MAX_TIMEOUT) % TICKS_MODULUS || |buffer| > MAX_SIZE)
  }

  function Written(s: UrcState, chunk: string, fuseTime: nat, writeTime: nat): UrcState {
    var kept := if FuseBlows(s.buffer, s.lastWriteTime, fuseTime) then "" else s.buffer;
    var (urcs, rest) := Extract(DropGarbage(kept + chunk));
    UrcState(rest, writeTime, s.urcs + urcs)
  }

  /**
   The cursor is at the start or on a quote, the flag is the parity of the quotes passed so far, and no result
   code ends before the cursor.
   */
  ghost predicate MarkConsistent(text: string, mark: nat, open: bool) {
    && mark <= |text|
    && (open <==> QuotesBefore(text, mark + 1) % 2 == 1)
    && forall i | 1 <= i <= mark :: !EndsUrc(text, i)
  }

  class ATURCStream {
    var atBuffer: string
    var urcBeginFound: bool
    var lookForNextURC: bool
    var openQuotationMark: bool
    var posMark: Option<nat>
    var urcList: seq<string>
    var lastWriteTime: nat

    /** Between writes no begin is marked as found. */
    ghost predicate Valid()
      reads this
    {
      !urcBeginFound
    }

    ghost function State(): UrcState
      reads this
    {
      UrcState(atBuffer, lastWriteTime, urcList)
    }

    constructor ()
      ensures Valid() && State() == UrcState("", 0, [])
    {
      atBuffer := "";
      urcBeginFound, lookForNextURC, openQuotationMark := false, false, false;
      posMark := Some(0);
      urcList := [];
      lastWriteTime := 0;
    }

    method Search() returns (found: bool)
      modifies this`atBuffer, this`urcBeginFound
      ensures old(urcBeginFound) ==> found && urcBeginFound && atBuffer == old(atBuffer)
      ensures !old(urcBeginFound) ==>
          && atBuffer == DropGarbage(old(atBuffer))
          && found == urcBeginFound == Find(old(atBuffer), CRLF, 0).Some?
    {
      if !urcBeginFound {
        var pos := Find(atBuffer, CRLF, 0);
        if pos == None {
          atBuffer := "";
          return false;
        }
        urcBeginFound := true;
        atBuffer := atBuffer[pos.value..];
        return true;
      }
      return true;
    }

    /** Cuts a result code if a CR LF comes before the next quote; otherwise steps onto that quote. */
    method CheckQuotation() returns (cut: bool)
      requires posMark.Some? && MarkConsistent(atBuffer, posMark.value, openQuotationMark)
      modifies this`atBuffer, this`posMark, this`openQuotationMark, this`urcList, this`lookForNextURC
      ensures cut ==>
          && lookForNextURC
          && Cut(old(atBuffer)).Some?
          && atBuffer == old(atBuffer)[Cut(old(atBuffer)).value + 2..]
          && urcList == old(urcList) + [old(atBuffer)[..Cut(old(atBuffer)).value + 2]]
      ensures !cut ==>
          && atBuffer == old(atBuffer) && urcList == old(urcList) && lookForNextURC == old(lookForNextURC)
          && posMark.Some? && MarkConsistent(atBuffer, posMark.value, openQuotationMark)
          && posMark.value >= old(posMark.value)
          && (openQuotationMark || Find(atBuffer, CRLF, posMark.value + 1).None?)
    {
      if !openQuotationMark {
        var posDelimiter := Find(atBuffer, CRLF, posMark.value + 1);
        if posDelimiter.Some? {
          var posMark2 := Find(atBuffer, QUOTE, posMark.value + 1);
          if posMark2.Some? && posDelimiter.value > posMark2.value {
            MarkStepsOntoQuote(atBuffer, posMark.value, posDelimiter.value, posMark2.value);
            posMark := posMark2;
            openQuotationMark := !openQuotationMark;
            return false;
          }
          MarkReachesEnd(atBuffer, posMark.value, posDelimiter.value, posMark2);
          urcList := urcList + [atBuffer[..posDelimiter.value + 2]];
          atBuffer := atBuffer[posDelimiter.value + 2..];
          lookForNextURC := true;
          return true;
        }
      }
      return false;
    }

    /** Cuts the first result code off the buffer, if a whole one is there. */
    method LookForNext() returns (found: bool)
      modifies this`atBuffer, this`posMark, this`openQuotationMark, this`urcList, this`lookForNextURC
      ensures found == Cut(old(atBuffer)).Some?
      ensures found ==>
          && atBuffer == old(atBuffer)[Cut(old(atBuffer)).value + 2..]
          && urcList == old(urcList) + [old(atBuffer)[..Cut(old(atBuffer)).value + 2]]
      ensures !found ==> atBuffer == old(atBuffer) && urcList == old(urcList)
    {
      lookForNextURC := false;
      openQuotationMark := false;
      posMark := Some(0);
      while posMark.Some?
        invariant atBuffer == old(atBuffer) && urcList == old(urcList) && !lookForNextURC
        invariant posMark.Some? ==> MarkConsistent(atBuffer, posMark.value, openQuotationMark)
        invariant posMark.None? ==> Cut(atBuffer).None?
        decreases if posMark.Some? then |atBuffer| + 1 - posMark.value else 0
      {
        var cut := CheckQuotation();
        if cut {
          break;
        }
        var next := Find(atBuffer, QUOTE, posMark.value + 1);
        MarkAdvances(atBuffer, posMark.value, openQuotationMark, next);
        openQuotationMark := !openQuotationMark;
        posMark := next;
      }
      return lookForNextURC;
    }

    /** Emits every complete result code in the buffer. */
    method TryParse()
      requires Valid()
      modifies this
      ensures Valid() && lastWriteTime == old(lastWriteTime)
      ensures
        var (urcs, rest) := Extract(DropGarbage(old(atBuffer)));
        atBuffer == rest && urcList == old(urcList) + urcs
    {
      ghost var all := Extract(DropGarbage(atBuffer));
      ghost var done: seq<string> := [];
      var found := Search();
      assert done + Extract(atBuffer).0 == Extract(atBuffer).0;
      while found
        invariant found == urcBeginFound
        invariant urcList == old(urcList) + done && lastWriteTime == old(lastWriteTime)
        invariant all == (done + Extract(atBuffer).0, Extract(atBuffer).1)
        invariant !found ==> Extract(atBuffer) == ([], atBuffer)
        decreases |atBuffer|, found
      {
        ghost var before := atBuffer;
        var next := LookForNext();
        if !next {
          urcBeginFound := false;
          break;
        }
        ExtractAfterCut(before, done);
        done := done + [before[..Cut(before).value + 2]];
        found := Search();
      }
    }

    method Fuse(now: nat)
      modifies this`atBuffer
      ensures atBuffer == if FuseBlows(old(atBuffer), lastWriteTime, now) then "" else old(atBuffer)
    {
      if atBuffer == "" {
        return;
      }
      var timeoutNeeded := (lastWriteTime + MAX_TIMEOUT) % TICKS_MODULUS;
      if now >= timeoutNeeded || |atBuffer| > MAX_SIZE {
        atBuffer := "";
      }
    }

    /** Takes in a chunk; the clock is read once in the fuse and once after it. */
    method Write(chunk: string, fuseTime: nat, writeTime: nat)
      requires Valid()
      modifies this
      ensures Valid()
      ensures State() == Written(old(State()), chunk, fuseTime, writeTime)
    {
      Fuse(fuseTime);
      lastWriteTime := writeTime;
      atBuffer := atBuffer + chunk;
      TryParse();
    }

    /** Hands the ready result codes over. */
    method GetURCList() returns (urcs: seq<string>)
      modifies this`urcList
      ensures urcs == old(urcList) && urcList == []
    {
      urcs := urcList;
      urcList := [];
    }
  }

  lemma {:induction false} NoQuotesBetween(text: string, from: nat, end: nat)
    requires 1 <= from <= end
    requires forall i | from <= i < end :: !OccursAt(text, QUOTE, i)
    ensures forall i | from <= i <= end :: QuotesBefore(text, i) == QuotesBefore(text, from)
    decreases end
  {
    if from < end {
      NoQuotesBetween(text, from, end - 1);
    }
  }

  lemma QuotesBeforeNext(text: string, i: nat)
    requires 1 <= i
    ensures QuotesBefore(text, i + 1) == QuotesBefore(text, i) + (if OccursAt(text, QUOTE, i) then 1 else 0)
  {
    hide OccursAt;
  }

  /** Without a quote, and without a CR LF or inside quotes, nothing ends. */
  lemma {:induction false} QuietStretch(text: string, from: nat, end: nat)
    requires 1 <= from <= end
    requires forall i | from <= i < end :: !OccursAt(text, QUOTE, i)
    requires QuotesBefore(text, from) % 2 == 1 || forall i | from <= i < end :: !OccursAt(text, CRLF, i)
    ensures QuotesBefore(text, end) == QuotesBefore(text, from)
    ensures forall i | from <= i < end :: !EndsUrc(text, i)
  {
    hide OccursAt, QuotesBefore;
    NoQuotesBetween(text, from, end);
  }

  /** Two quotes apart the parity flips; no result code ends between them if it is odd or no CR LF follows. */
  lemma {:induction false} MarkAdvances(text: string, mark: nat, open: bool, next: Option<nat>)
    requires MarkConsistent(text, mark, open)
    requires next == Find(text, QUOTE, mark + 1)
    requires open || Find(text, CRLF, mark + 1).None?
    ensures next.Some? ==> MarkConsistent(text, next.value, !open)
    ensures next.None? ==> Cut(text).None?
  {
    hide Find, OccursAt, QuotesBefore, EndsUrc, Cut;
    FindFirst(text, QUOTE, mark + 1);
    FindFirst(text, CRLF, mark + 1);
    match next
    case Some(quote) =>
      FoundInside(text, QUOTE, mark + 1);
      QuietStretch(text, mark + 1, quote);
      QuotesBeforeNext(text, quote);
      QuoteEndsNothing(text, quote);
    case None =>
      forall i: nat | mark + 1 <= i
        ensures !EndsUrc(text, i)
      {
        QuietStretch(text, mark + 1, i + 1);
      }
      NoCutIs(text);
  }

  lemma {:induction false} FoundInside(text: string, pattern: string, from: nat)
    requires pattern != ""
    ensures Find(text, pattern, from).Some? ==> Find(text, pattern, from).value < |text|
  {
  }

  lemma QuoteEndsNothing(text: string, at: nat)
    requires OccursAt(text, QUOTE, at)
    ensures !EndsUrc(text, at)
  {
    assert text[at] == text[at..at + 1][0];
    assert at + 2 <= |text| ==> text[at..at + 2][0] == text[at];
  }

  lemma {:induction false} MarkStepsOntoQuote(text: string, mark: nat, delimiter: nat, quote: nat)
    requires MarkConsistent(text, mark, false)
    requires Find(text, CRLF, mark + 1) == Some(delimiter) && Find(text, QUOTE, mark + 1) == Some(quote)
    requires quote < delimiter
    ensures MarkConsistent(text, quote, true)
  {
    hide Find, OccursAt, QuotesBefore, EndsUrc;
    FindFirst(text, QUOTE, mark + 1);
    FindFirst(text, CRLF, mark + 1);
    FoundInside(text, QUOTE, mark + 1);
    QuietStretch(text, mark + 1, quote);
    QuotesBeforeNext(text, quote);
    QuoteEndsNothing(text, quote);
  }

  lemma {:induction false} MarkReachesEnd(text: string, mark: nat, delimiter: nat, quote: Option<nat>)
    requires MarkConsistent(text, mark, false)
    requires Find(text, CRLF, mark + 1) == Some(delimiter) && Find(text, QUOTE, mark + 1) == quote
    requires quote.None? || delimiter <= quote.value
    ensures Cut(text) == Some(delimiter)
  {
    hide Find, OccursAt, QuotesBefore, Cut;
    FindFirst(text, QUOTE, mark + 1);
    FindFirst(text, CRLF, mark + 1);
    QuietStretch(text, mark + 1, delimiter);
    CutIs(text, delimiter);
  }
}
