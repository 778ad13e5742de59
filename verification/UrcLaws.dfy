/**
 What the extraction of result codes guarantees: nothing is lost or invented, the decomposition is the only
 one, and when the way a stream is chunked makes no difference.
 */
module UrcLaws {
  import opened Options
  import opened Sequences
  import opened Text
  import opened UrcStream

  // ---------------------------------------------------------------------------------------------
  // Looking at a prefix only

  lemma {:induction false} QuotesInPrefix(text: string, more: string, end: nat)
    requires end <= |text|
    ensures QuotesBefore(text + more, end) == QuotesBefore(text, end)
  {
    if end > 1 {
      QuotesInPrefix(text, more, end - 1);
      OccursInPrefix(text, more, QUOTE, end - 1);
    }
  }

  lemma EndsInPrefix(text: string, more: string, at: nat)
    requires at + 2 <= |text|
    ensures EndsUrc(text + more, at) <==> EndsUrc(text, at)
  {
    QuotesInPrefix(text, more, at);
    OccursInPrefix(text, more, CRLF, at);
  }

  lemma CutInPrefix(text: string, more: string)
    requires Cut(text).Some?
    ensures Cut(text + more) == Cut(text)
  {
    var at := Cut(text).value;
    CutFromFirst(text, 1);
    forall i | 1 <= i <= at
      ensures EndsUrc(text + more, i) <==> EndsUrc(text, i)
    {
      EndsInPrefix(text, more, i);
    }
    CutIs(text + more, at);
  }

  /** A result code, taken by itself, is cut at its very end. */
  predicate IsUrc(text: string) {
    |text| >= 2 && Cut(text) == Some(|text| - 2)
  }

  predicate AllUrcs(urcs: seq<string>) {
    urcs == [] || (IsUrc(urcs[0]) && AllUrcs(urcs[1..]))
  }

  lemma {:induction false} AllUrcsSplit(urcs: seq<string>, at: nat)
    requires at <= |urcs|
    ensures AllUrcs(urcs) <==> AllUrcs(urcs[..at]) && AllUrcs(urcs[at..])
    decreases at
  {
    hide IsUrc;
    if at == 0 {
      assert urcs[0..] == urcs;
    } else {
      AllUrcsSplit(urcs[1..], at - 1);
      assert urcs[..at][1..] == urcs[1..][..at - 1];
      assert urcs[1..][at - 1..] == urcs[at..];
    }
  }

  lemma CutPieceIsUrc(text: string)
    requires Cut(text).Some?
    ensures IsUrc(text[..Cut(text).value + 2])
  {
    var at := Cut(text).value;
    var piece := text[..at + 2];
    assert text == piece + text[at + 2..];
    CutFromFirst(text, 1);
    forall i | 1 <= i <= at
      ensures EndsUrc(piece, i) <==> EndsUrc(text, i)
    {
      EndsInPrefix(piece, text[at + 2..], i);
    }
    CutIs(piece, at);
  }

  // ---------------------------------------------------------------------------------------------
  // Extraction is the one decomposition

  /** The emitted result codes followed by the leftover are the input, and each piece is what it should be. */
  lemma {:induction false} ExtractDecomposes(text: string)
    ensures
      var (urcs, rest) := Extract(text);
      Concat(urcs) + rest == text && AllUrcs(urcs) && Cut(rest) == None
    decreases |text|
  {
    hide Extract, Cut, IsUrc, OccursAt;
    if Cut(text).None? {
      ExtractWithoutCut(text);
    } else {
      ExtractAfterCut(text, []);
      var at := Cut(text).value;
      var piece, tail := text[..at + 2], text[at + 2..];
      ExtractDecomposes(tail);
      CutPieceIsUrc(text);
      PrependUrc(piece, tail, Extract(tail).0, Extract(tail).1);
      assert piece + tail == text;
      assert [] + Extract(text).0 == Extract(text).0 && [] + [piece] == [piece];
    }
  }

  lemma {:induction false} ExtractWithoutCut(text: string)
    requires Cut(text) == None
    ensures Extract(text) == ([], text)
  {
  }

  lemma {:induction false} PrependUrc(piece: string, tail: string, urcs: seq<string>, rest: string)
    requires IsUrc(piece) && AllUrcs(urcs) && Concat(urcs) + rest == tail
    ensures Concat([piece] + urcs) + rest == piece + tail && AllUrcs([piece] + urcs)
  {
    ConcatCons(piece, urcs, rest);
    assert ([piece] + urcs)[1..] == urcs;
  }

  lemma {:induction false} ConcatCons(piece: string, urcs: seq<string>, rest: string)
    ensures Concat([piece] + urcs) + rest == piece + (Concat(urcs) + rest)
  {
    assert ([piece] + urcs)[1..] == urcs;
    assert (piece + Concat(urcs)) + rest == piece + (Concat(urcs) + rest);
  }

  /** Any list of result codes, followed by text without a complete one, comes back as it went in. */
  lemma {:induction false} ExtractRecovers(urcs: seq<string>, rest: string)
    requires AllUrcs(urcs) && Cut(rest) == None
    ensures Extract(Concat(urcs) + rest) == (urcs, rest)
    decreases |urcs|
  {
    if urcs == [] {
      assert Concat(urcs) + rest == rest;
    } else {
      var urc, tail := urcs[0], Concat(urcs[1..]) + rest;
      assert urcs == [urc] + urcs[1..];
      ConcatCons(urc, urcs[1..], rest);
      CutInPrefix(urc, tail);
      assert (urc + tail)[..|urc|] == urc;
      assert (urc + tail)[|urc|..] == tail;
      ExtractRecovers(urcs[1..], rest);
    }
  }

  /** Extracting from a longer text goes on where the shorter one stopped. */
  lemma {:induction false} ExtractResumes(text: string, more: string)
    ensures
      var (urcs, rest) := Extract(text);
      var (next, last) := Extract(rest + more);
      Extract(text + more) == (urcs + next, last)
  {
    var (urcs, rest) := Extract(text);
    var (next, last) := Extract(rest + more);
    ExtractDecomposes(text);
    ExtractDecomposes(rest + more);
    Recompose(urcs, rest, text, more, next, last);
    ExtractRecovers(urcs + next, last);
  }

  lemma {:induction false} Recompose(urcs: seq<string>, rest: string, text: string, more: string,
                                       next: seq<string>, last: string)
    requires Concat(urcs) + rest == text && Concat(next) + last == rest + more
    requires AllUrcs(urcs) && AllUrcs(next)
    ensures Concat(urcs + next) + last == text + more && AllUrcs(urcs + next)
  {
    ConcatAppend(urcs, next);
    assert (Concat(urcs) + Concat(next)) + last == Concat(urcs) + (Concat(next) + last);
    assert Concat(urcs) + (rest + more) == (Concat(urcs) + rest) + more;
    AllUrcsSplit(urcs + next, |urcs|);
    assert (urcs + next)[..|urcs|] == urcs && (urcs + next)[|urcs|..] == next;
  }

  lemma {:induction false} ExtractInjective(a: string, b: string)
    ensures Extract(a) == Extract(b) <==> a == b
  {
    ExtractDecomposes(a);
    ExtractDecomposes(b);
  }

  // ---------------------------------------------------------------------------------------------
  // Quotes

  lemma CharAt(text: string, i: nat)
    ensures OccursAt(text, QUOTE, i) <==> i < |text| && text[i] == '"'
    ensures OccursAt(text, CRLF, i) <==> i + 1 < |text| && text[i] == '\r' && text[i + 1] == '\n'
  {
    if i < |text| {
      assert text[i..i + 1] == [text[i]];
    }
    if i + 1 < |text| {
      assert text[i..i + 2] == [text[i], text[i + 1]];
    }
  }

  /** Free of CR and of quotes. */
  predicate Plain(text: string) {
    forall i | 0 <= i < |text| :: text[i] != '\r' && text[i] != '"'
  }

  /** Before the first quote, and plain but for the opening CR LF, nothing ends. */
  lemma {:induction false} OpeningIsQuiet(text: string, end: nat)
    requires 2 <= end <= |text| && text[1] == '\n' && Plain(text[2..end])
    ensures QuotesBefore(text, end) == 0 && forall i | 1 <= i < end :: !EndsUrc(text, i)
  {
    forall i | 1 <= i < end
      ensures !OccursAt(text, QUOTE, i) && !OccursAt(text, CRLF, i)
    {
      CharAt(text, i);
      if i >= 2 {
        assert text[2..end][i - 2] == text[i];
      }
    }
    QuietStretch(text, 1, end);
  }

  /** From an opening quote on, up to the closing one, nothing ends. */
  lemma {:induction false} QuotedIsQuiet(text: string, open: nat, end: nat)
    requires 1 <= open < end <= |text| && text[open] == '"' && QuotesBefore(text, open) % 2 == 0
    requires forall i | open < i < end :: text[i] != '"'
    ensures QuotesBefore(text, end) == QuotesBefore(text, open) + 1 && forall i | open <= i < end :: !EndsUrc(text, i)
  {
    hide OccursAt, QuotesBefore, EndsUrc;
    CharAt(text, open);
    QuotesBeforeNext(text, open);
    QuoteEndsNothing(text, open);
    forall i | open < i < end
      ensures !OccursAt(text, QUOTE, i)
    {
      CharAt(text, i);
    }
    QuietStretch(text, open + 1, end);
  }

  /** Where the pieces of a text with one quoted part are. */
  predicate QuotedOnce(text: string, open: nat, close: nat, end: nat) {
    && 2 <= open < close < end && end + 2 == |text|
    && text[1] == '\n' && Plain(text[2..open]) && text[open] == '"'
    && (forall i | open < i < close :: text[i] != '"')
    && text[close] == '"' && Plain(text[close + 1..end]) && text[end] == '\r' && text[end + 1] == '\n'
  }

  /** A code is not cut inside quotes, whatever they hold, CR LF included. */
  lemma QuotedTextStaysWhole(before: string, quoted: string, behind: string)
    requires Plain(before) && Plain(behind) && forall i | 0 <= i < |quoted| :: quoted[i] != '"'
    ensures IsUrc("\r\n" + before + "\"" + quoted + "\"" + behind + "\r\n")
  {
    var text := "\r\n" + before + "\"" + quoted + "\"" + behind + "\r\n";
    var open := 2 + |before|;
    var close := open + 1 + |quoted|;
    var end := close + 1 + |behind|;
    assert text[2..open] == before && text[close + 1..end] == behind;
    assert forall i | open < i < close :: text[i] == quoted[i - open - 1];
    QuotedOnceIsCut(text, open, close, end);
  }

  lemma QuotedOnceIsCut(text: string, open: nat, close: nat, end: nat)
    requires QuotedOnce(text, open, close, end)
    ensures Cut(text) == Some(end)
  {
    OpeningIsQuiet(text, open);
    QuotedIsQuiet(text, open, close);
    CharAt(text, close);
    QuotesBeforeNext(text, close);
    QuoteEndsNothing(text, close);
    forall i | close < i < end
      ensures !OccursAt(text, QUOTE, i) && !OccursAt(text, CRLF, i)
    {
      CharAt(text, i);
      assert text[close + 1..end][i - close - 1] == text[i];
    }
    QuietStretch(text, close + 1, end);
    CharAt(text, end);
    CutIs(text, end);
  }

  /** A code whose quotes are still open is not emitted yet. */
  lemma {:induction false} OpenQuoteWaits(before: string, quoted: string)
    requires Plain(before) && forall i | 0 <= i < |quoted| :: quoted[i] != '"'
    ensures Extract("\r\n" + before + "\"" + quoted) == ([], "\r\n" + before + "\"" + quoted)
  {
    hide Extract, Cut, QuotesBefore, OccursAt;
    var text := "\r\n" + before + "\"" + quoted;
    var open := 2 + |before|;
    assert text[2..open] == before;
    assert forall i | open < i < |text| :: text[i] == quoted[i - open - 1];
    OpenQuoteIsNotCut(text, open);
    ExtractWithoutCut(text);
  }

  lemma OpenQuoteIsNotCut(text: string, open: nat)
    requires 2 <= open < |text| && text[1] == '\n' && Plain(text[2..open]) && text[open] == '"'
    requires forall i | open < i < |text| :: text[i] != '"'
    ensures Cut(text) == None
  {
    hide OccursAt, QuotesBefore, Cut, Plain;
    OpeningIsQuiet(text, open);
    QuotedIsQuiet(text, open, |text|);
    forall i: nat | |text| <= i
      ensures !EndsUrc(text, i)
    {
      CharAt(text, i);
    }
    NoCutIs(text);
  }

  // ---------------------------------------------------------------------------------------------
  // Dropping what precedes the first CR LF

  lemma DropGarbageKeepsIff(text: string)
    ensures DropGarbage(text) == text <==> text == "" || StartsWith(text, CRLF)
  {
    var found := Find(text, CRLF, 0);
    if found.Some? && found.value == 0 {
      assert text[0..] == text;
    }
  }

  lemma {:induction false} DropGarbageAppend(text: string, more: string)
    requires Find(text, CRLF, 0).Some?
    ensures DropGarbage(text + more) == DropGarbage(text) + more
  {
    hide Find;
    FindFirst(text, CRLF, 0);
    FindInPrefix(text, more, CRLF);
    var at := Find(text, CRLF, 0).value;
    assert (text + more)[at..] == text[at..] + more;
  }

  /** A CR at the very end of the one and an LF at the very start of the other. */
  predicate SplitsDelimiter(text: string, more: string) {
    text != "" && more != "" && text[|text| - 1] == '\r' && more[0] == '\n'
  }

  lemma {:induction false} DropGarbageForgetsIff(text: string, more: string)
    requires Find(text, CRLF, 0).None?
    ensures DropGarbage(text + more) == DropGarbage(more) <==> !SplitsDelimiter(text, more)
  {
    if SplitsDelimiter(text, more) {
      CompletedDelimiter(text, more);
    } else {
      forall i | 0 <= i < |text|
        ensures !OccursAt(text + more, CRLF, i)
      {
        NotInFront(text, more, i);
      }
      FindBehind(text, more);
    }
  }

  lemma {:induction false} NotInFront(text: string, more: string, i: nat)
    requires Find(text, CRLF, 0).None? && i < |text|
    requires i < |text| - 1 || !SplitsDelimiter(text, more)
    ensures !OccursAt(text + more, CRLF, i)
  {
    hide Find, OccursAt, SplitsDelimiter;
    FindFirst(text, CRLF, 0);
    if i + 2 <= |text| {
      OccursInPrefix(text, more, CRLF, i);
    } else {
      OccursAcross(text, more);
    }
  }

  lemma OccursAcross(text: string, more: string)
    requires text != ""
    ensures OccursAt(text + more, CRLF, |text| - 1) <==> SplitsDelimiter(text, more)
  {
    if more != "" {
      var pair := (text + more)[|text| - 1..|text| + 1];
      assert pair == [text[|text| - 1], more[0]];
    }
  }

  /** If it does not occur in front, it is found where it is found behind. */
  lemma FindBehind(text: string, more: string)
    requires forall i | 0 <= i < |text| :: !OccursAt(text + more, CRLF, i)
    ensures DropGarbage(text + more) == DropGarbage(more)
  {
    FindFirst(more, CRLF, 0);
    match Find(more, CRLF, 0)
    case None =>
      forall j | 0 <= j
        ensures !OccursAt(text + more, CRLF, j)
      {
        if j >= |text| {
          OccursInSuffix(text, more, CRLF, j - |text|);
        }
      }
      FindIsNone(text + more, CRLF, 0);
    case Some(at) =>
      OccursInSuffix(text, more, CRLF, at);
      forall j | 0 <= j < |text| + at
        ensures !OccursAt(text + more, CRLF, j)
      {
        if j >= |text| {
          OccursInSuffix(text, more, CRLF, j - |text|);
        }
      }
      FindIs(text + more, CRLF, 0, |text| + at);
      DropOfConcat(text, more, at);
  }

  // ---------------------------------------------------------------------------------------------
  // Chunks

  /** What a write of `chunk` extracts when the fuse holds. */
  function Emitted(buffer: string, chunk: string): (seq<string>, string) {
    Extract(DropGarbage(buffer + chunk))
  }

  /**
   Whether it is safe to end a chunk here. If a CR LF has been seen, the leftover and the next chunk must go
   on with one (or be empty); if none has, the chunks must not split one.
   */
  predicate SafeSplit(buffer: string, first: string, second: string) {
    if Find(buffer + first, CRLF, 0).Some? then
      var next := Emitted(buffer, first).1 + second;
      next == "" || StartsWith(next, CRLF)
    else
      !SplitsDelimiter(buffer + first, second)
  }

  /** Writing two chunks gives what writing them at once gives exactly when the split is safe. */
  lemma ChunksComposeIffSafe(buffer: string, first: string, second: string)
    ensures
      var (urcs, rest) := Emitted(buffer, first);
      var (more, last) := Emitted(rest, second);
      Emitted(buffer, first + second) == (urcs + more, last) <==> SafeSplit(buffer, first, second)
  {
    hide Extract, Find, OccursAt;
    var text := buffer + first;
    assert buffer + (first + second) == text + second;
    if Find(text, CRLF, 0).Some? {
      ComposeAfterDelimiter(text, second);
      DropGarbageKeepsIff(Emitted(buffer, first).1 + second);
    } else {
      ComposeBeforeDelimiter(text, second);
      ExtractNothing();
      var (more, _) := Emitted("", second);
      assert "" + second == second && [] + more == more;
    }
  }

  lemma {:induction false} ComposeAfterDelimiter(text: string, second: string)
    requires Find(text, CRLF, 0).Some?
    ensures
      var (urcs, rest) := Extract(DropGarbage(text));
      var (more, last) := Extract(DropGarbage(rest + second));
      Extract(DropGarbage(text + second)) == (urcs + more, last) <==> DropGarbage(rest + second) == rest + second
  {
    hide Extract, Find, DropGarbage;
    DropGarbageAppend(text, second);
    ExtractResumes(DropGarbage(text), second);
    var (urcs, rest) := Extract(DropGarbage(text));
    PrefixCancels(urcs, Extract(rest + second).0, Extract(DropGarbage(rest + second)).0);
    ExtractInjective(rest + second, DropGarbage(rest + second));
  }

  lemma {:induction false} ComposeBeforeDelimiter(text: string, second: string)
    requires Find(text, CRLF, 0).None?
    ensures DropGarbage(text) == ""
    ensures Extract(DropGarbage(text + second)) == Extract(DropGarbage(second)) <==> !SplitsDelimiter(text, second)
  {
    hide Extract, Find, SplitsDelimiter;
    DropGarbageForgetsIff(text, second);
    ExtractInjective(DropGarbage(text + second), DropGarbage(second));
  }

  lemma ExtractNothing()
    ensures Extract("") == ([], "")
  {
  }

  // ---------------------------------------------------------------------------------------------
  // Runs of writes

  datatype Chunk = Chunk(text: string, fuseTime: nat, writeTime: nat)

  function WriteAll(s: UrcState, chunks: seq<Chunk>): UrcState {
    if chunks == [] then s
    else
      var last := chunks[|chunks| - 1];
      Written(WriteAll(s, chunks[..|chunks| - 1]), last.text, last.fuseTime, last.writeTime)
  }

  predicate FuseHolds(s: UrcState, chunks: seq<Chunk>) {
    chunks == [] ||
    (var front := chunks[..|chunks| - 1];
     var before := WriteAll(s, front);
     && FuseHolds(s, front)
     && !FuseBlows(before.buffer, before.lastWriteTime, chunks[|chunks| - 1].fuseTime))
  }

  function Joined(chunks: seq<Chunk>): string {
    if chunks == [] then "" else Joined(chunks[..|chunks| - 1]) + chunks[|chunks| - 1].text
  }

  predicate SafelyChunked(buffer: string, chunks: seq<Chunk>) {
    |chunks| <= 1 ||
    (var front := chunks[..|chunks| - 1];
     SafelyChunked(buffer, front) && SafeSplit(buffer, Joined(front), chunks[|chunks| - 1].text))
  }

  /** `after` is `s` with the buffer replaced by the leftover and the result codes appended. */
  predicate Yields(s: UrcState, emitted: (seq<string>, string), after: UrcState) {
    after.buffer == emitted.1 && after.urcs == s.urcs + emitted.0
  }

  /** However many chunks a stream comes in, while the fuse holds and every split is safe they act as one. */
  lemma {:induction false} SafeChunksActAsOne(s: UrcState, chunks: seq<Chunk>)
    requires chunks != [] && FuseHolds(s, chunks) && SafelyChunked(s.buffer, chunks)
    ensures Yields(s, Emitted(s.buffer, Joined(chunks)), WriteAll(s, chunks))
    decreases |chunks|
  {
    var front, last := chunks[..|chunks| - 1], chunks[|chunks| - 1];
    var before := WriteAll(s, front);
    WrittenYields(before, last);
    if front == [] {
      assert Joined(chunks) == last.text;
    } else {
      SafeChunksActAsOne(s, front);
      EmittedComposes(s.buffer, Joined(front), last.text);
      YieldsComposes(s, before, WriteAll(s, chunks), Emitted(s.buffer, Joined(front)),
                     Emitted(before.buffer, last.text), Emitted(s.buffer, Joined(chunks)));
    }
  }

  lemma WrittenYields(s: UrcState, chunk: Chunk)
    requires !FuseBlows(s.buffer, s.lastWriteTime, chunk.fuseTime)
    ensures Yields(s, Emitted(s.buffer, chunk.text), Written(s, chunk.text, chunk.fuseTime, chunk.writeTime))
  {
  }

  lemma EmittedComposes(buffer: string, first: string, second: string)
    requires SafeSplit(buffer, first, second)
    ensures
      var (urcs, rest) := Emitted(buffer, first);
      var (more, last) := Emitted(rest, second);
      Emitted(buffer, first + second) == (urcs + more, last)
  {
    ChunksComposeIffSafe(buffer, first, second);
  }

  lemma YieldsComposes(s: UrcState, before: UrcState, after: UrcState,
                       first: (seq<string>, string), second: (seq<string>, string), both: (seq<string>, string))
    requires Yields(s, first, before) && Yields(before, second, after)
    requires both == (first.0 + second.0, second.1)
    ensures Yields(s, both, after)
  {
    assert (s.urcs + first.0) + second.0 == s.urcs + (first.0 + second.0);
  }

  /** The number of characters a parser has emitted or still holds. */
  function Size(s: UrcState): nat {
    |Concat(s.urcs)| + |s.buffer|
  }

  lemma YieldsSize(s: UrcState, text: string, after: UrcState)
    requires Yields(s, Extract(DropGarbage(text)), after)
    ensures Size(after) == |Concat(s.urcs)| + |DropGarbage(text)|
  {
    hide Extract, DropGarbage, Concat;
    ExtractDecomposes(DropGarbage(text));
    ConcatAppend(s.urcs, Extract(DropGarbage(text)).0);
  }

  lemma DropGarbageShortens(text: string)
    ensures |DropGarbage(text)| <= |text|
    ensures |DropGarbage(text)| == |text| <==> text == "" || StartsWith(text, CRLF)
  {
    DropGarbageKeepsIff(text);
  }

  /** What an unsafe split loses. */
  lemma {:induction false} UnsafeSplitLoses(s: UrcState, text: string, before: UrcState, last: Chunk)
    requires Yields(s, Extract(DropGarbage(text)), before)
    requires !FuseBlows(before.buffer, before.lastWriteTime, last.fuseTime)
    requires if Find(text, CRLF, 0).Some?
             then before.buffer + last.text != "" && !StartsWith(before.buffer + last.text, CRLF)
             else SplitsDelimiter(text, last.text)
    ensures Find(text + last.text, CRLF, 0).Some?
    ensures Size(Written(before, last.text, last.fuseTime, last.writeTime))
          < |Concat(s.urcs)| + |DropGarbage(text + last.text)|
  {
    hide Extract, Find, Concat, SplitsDelimiter, StartsWith;
    var after := Written(before, last.text, last.fuseTime, last.writeTime);
    WrittenYields(before, last);
    YieldsSize(before, before.buffer + last.text, after);
    YieldsSize(s, text, before);
    if Find(text, CRLF, 0).Some? {
      DropGarbageAppend(text, last.text);
      DropGarbageShortens(before.buffer + last.text);
      FindInPrefix(text, last.text, CRLF);
    } else {
      ExtractNothing();
      assert before.buffer + last.text == last.text && s.urcs + [] == s.urcs;
      DropGarbageShortens(last.text);
      CompletedDelimiter(text, last.text);
    }
  }

  lemma {:induction false} CompletedDelimiter(text: string, more: string)
    requires Find(text, CRLF, 0).None? && SplitsDelimiter(text, more)
    ensures Find(text + more, CRLF, 0).Some? && |DropGarbage(text + more)| == |more| + 1
  {
    hide Find;
    forall i | 0 <= i < |text| - 1
      ensures !OccursAt(text + more, CRLF, i)
    {
      NotInFront(text, more, i);
    }
    OccursAcross(text, more);
    FindIs(text + more, CRLF, 0, |text| - 1);
  }

  /** A later write adds to what is kept at most what it brings. */
  lemma {:induction false} LaterWriteNeverRecovers(s: UrcState, text: string, before: UrcState, last: Chunk)
    requires !FuseBlows(before.buffer, before.lastWriteTime, last.fuseTime)
    requires Find(text, CRLF, 0).Some? && Size(before) < |Concat(s.urcs)| + |DropGarbage(text)|
    ensures Find(text + last.text, CRLF, 0).Some?
    ensures Size(Written(before, last.text, last.fuseTime, last.writeTime))
          < |Concat(s.urcs)| + |DropGarbage(text + last.text)|
  {
    hide Extract, Find, Concat, StartsWith;
    WrittenYields(before, last);
    YieldsSize(before, before.buffer + last.text, Written(before, last.text, last.fuseTime, last.writeTime));
    DropGarbageShortens(before.buffer + last.text);
    DropGarbageAppend(text, last.text);
    FindInPrefix(text, last.text, CRLF);
  }

  lemma {:induction false} UnsafeChunksLose(s: UrcState, chunks: seq<Chunk>)
    requires FuseHolds(s, chunks) && !SafelyChunked(s.buffer, chunks)
    ensures Find(s.buffer + Joined(chunks), CRLF, 0).Some?
    ensures Size(WriteAll(s, chunks)) < |Concat(s.urcs)| + |DropGarbage(s.buffer + Joined(chunks))|
    decreases |chunks|
  {
    hide Extract, Find, Concat, DropGarbage;
    var front, last := chunks[..|chunks| - 1], chunks[|chunks| - 1];
    var text, before := s.buffer + Joined(front), WriteAll(s, front);
    assert s.buffer + Joined(chunks) == text + last.text;
    if SafelyChunked(s.buffer, front) {
      SafeChunksActAsOne(s, front);
      UnsafeSplitLoses(s, text, before, last);
    } else {
      UnsafeChunksLose(s, front);
      LaterWriteNeverRecovers(s, text, before, last);
    }
  }

  /** While the fuse holds, the chunks of a run act as one exactly when every split is safe: what one unsafe split
   loses, no later write makes up for. */
  lemma {:induction false} ChunksActAsOneIff(s: UrcState, chunks: seq<Chunk>)
    requires chunks != [] && FuseHolds(s, chunks)
    ensures Yields(s, Emitted(s.buffer, Joined(chunks)), WriteAll(s, chunks)) <==> SafelyChunked(s.buffer, chunks)
  {
    hide Extract, DropGarbage;
    if SafelyChunked(s.buffer, chunks) {
      SafeChunksActAsOne(s, chunks);
    } else {
      UnsafeChunksLose(s, chunks);
      if Yields(s, Emitted(s.buffer, Joined(chunks)), WriteAll(s, chunks)) {
        YieldsSize(s, s.buffer + Joined(chunks), WriteAll(s, chunks));
      }
    }
  }

  // ---------------------------------------------------------------------------------------------
  // The fuse

  /** How long ago the last write was, in 32-bit ticks that may have wrapped around once since. */
  function Elapsed(last: nat, now: nat): nat
    requires last < 0x1_0000_0000 && now < 0x1_0000_0000
  {
    if now >= last then now - last else now + 0x1_0000_0000 - last
  }

  /** Nothing buffered, nothing to blow; too much buffered, and it blows. */
  lemma FuseMeasuresLength(buffer: string, last: nat, now: nat)
    ensures buffer == "" ==> !FuseBlows(buffer, last, now)
    ensures |buffer| > 2048 ==> FuseBlows(buffer, last, now)
  {
  }

  /**
   Otherwise the fuse means to blow after five ticks. It does exactly that unless just one of the clock and the
   time it compares it with has wrapped around: in the last five ticks before the clock wraps it blows at once,
   and once the clock has wrapped an older buffer is kept.
   */
  lemma FuseMeasuresAgeIff(buffer: string, last: nat, now: nat)
    requires 0 < |buffer| <= 2048 && last < 0x1_0000_0000 && now < 0x1_0000_0000
    ensures (FuseBlows(buffer, last, now) <==> Elapsed(last, now) >= 5)
       <==> (now < last <==> last + 5 >= 0x1_0000_0000)
    ensures now >= last && last + 5 >= 0x1_0000_0000 ==> FuseBlows(buffer, last, now)
    ensures now < last && last + 5 < 0x1_0000_0000 ==> !FuseBlows(buffer, last, now)
  {
  }

  lemma FuseMeasuresAge(buffer: string, last: nat, now: nat)
    requires 0 < |buffer| <= 2048 && last <= now && last + 5 < 0x1_0000_0000
    ensures FuseBlows(buffer, last, now) <==> now - last >= 5
  {
  }

  /** The clock reads on, and less than five ticks pass from one write to the next fuse. */
  predicate Prompt(last: nat, chunks: seq<Chunk>)
    decreases |chunks|
  {
    chunks == [] ||
    (var chunk := chunks[|chunks| - 1];
     var before := if |chunks| == 1 then last else chunks[|chunks| - 2].writeTime;
     && before <= chunk.fuseTime < before + 5 < 0x1_0000_0000
     && Prompt(last, chunks[..|chunks| - 1]))
  }

  /** What the buffer and the chunks come to is never too long. */
  predicate Short(s: UrcState, chunks: seq<Chunk>) {
    |s.buffer| + |Joined(chunks)| <= 2048
  }

  lemma {:induction false} LastWriteTime(s: UrcState, chunks: seq<Chunk>)
    requires chunks != []
    ensures WriteAll(s, chunks).lastWriteTime == chunks[|chunks| - 1].writeTime
  {
  }

  lemma {:induction false} LeftoverFits(s: UrcState, chunks: seq<Chunk>)
    ensures |WriteAll(s, chunks).buffer| <= |s.buffer| + |Joined(chunks)|
    decreases |chunks|
  {
    hide Extract, DropGarbage, FuseBlows;
    if chunks != [] {
      var front, last := chunks[..|chunks| - 1], chunks[|chunks| - 1];
      var before := WriteAll(s, front);
      LeftoverFits(s, front);
      WrittenFits(before, last);
    }
  }

  lemma {:induction false} WrittenFits(s: UrcState, chunk: Chunk)
    ensures |Written(s, chunk.text, chunk.fuseTime, chunk.writeTime).buffer| <= |s.buffer| + |chunk.text|
  {
    hide Extract, DropGarbage;
    var kept := if FuseBlows(s.buffer, s.lastWriteTime, chunk.fuseTime) then "" else s.buffer;
    DropGarbageShortens(kept + chunk.text);
    ExtractDecomposes(DropGarbage(kept + chunk.text));
  }

  /** Over any run of prompt writes that is short, or leaves little over each time, the fuse holds. */
  lemma {:induction false} PromptChunksHold(s: UrcState, chunks: seq<Chunk>)
    requires Prompt(s.lastWriteTime, chunks)
    requires Short(s, chunks) || forall n | 0 <= n < |chunks| :: |WriteAll(s, chunks[..n]).buffer| <= 2048
    ensures FuseHolds(s, chunks)
    decreases |chunks|
  {
    hide WriteAll, FuseBlows;
    if chunks != [] {
      var front := chunks[..|chunks| - 1];
      var before := WriteAll(s, front);
      LeftoverFits(s, front);
      assert |before.buffer| <= 2048;
      forall n | 0 <= n < |front|
        ensures front[..n] == chunks[..n]
      {
      }
      PromptChunksHold(s, front);
      if front != [] {
        LastWriteTime(s, front);
      } else {
        NothingWritten(s);
      }
      if before.buffer == "" {
        FuseMeasuresLength(before.buffer, before.lastWriteTime, chunks[|chunks| - 1].fuseTime);
      } else {
        FuseMeasuresAge(before.buffer, before.lastWriteTime, chunks[|chunks| - 1].fuseTime);
      }
    }
  }

  lemma {:induction false} NothingWritten(s: UrcState)
    ensures WriteAll(s, []) == s
  {
  }

  /** What a caller can check: chunks that come promptly act as one exactly when every split is safe. */
  lemma {:induction false} PromptChunksActAsOneIff(s: UrcState, chunks: seq<Chunk>)
    requires chunks != [] && Prompt(s.lastWriteTime, chunks)
    requires Short(s, chunks) || forall n | 0 <= n < |chunks| :: |WriteAll(s, chunks[..n]).buffer| <= 2048
    ensures Yields(s, Emitted(s.buffer, Joined(chunks)), WriteAll(s, chunks)) <==> SafelyChunked(s.buffer, chunks)
  {
    hide WriteAll, Prompt, Yields, Emitted, FuseHolds;
    PromptChunksHold(s, chunks);
    ChunksActAsOneIff(s, chunks);
  }

  /** After a pause, or when it has grown too long, what was buffered is gone before the chunk comes in. */
  lemma {:induction false} LateChunkStartsOver(s: UrcState, chunk: Chunk)
    requires s.lastWriteTime <= chunk.fuseTime && s.lastWriteTime + 5 < 0x1_0000_0000
    requires |s.buffer| > 2048 || chunk.fuseTime - s.lastWriteTime >= 5
    ensures Yields(s, Emitted("", chunk.text), Written(s, chunk.text, chunk.fuseTime, chunk.writeTime))
  {
    hide Extract, DropGarbage, FuseBlows;
    if s.buffer != "" {
      if |s.buffer| > 2048 {
        FuseMeasuresLength(s.buffer, s.lastWriteTime, chunk.fuseTime);
      } else {
        FuseMeasuresAge(s.buffer, s.lastWriteTime, chunk.fuseTime);
      }
    }
  }

  /** The result codes all open with CR LF. */
  predicate Framed(urcs: seq<string>) {
    urcs == [] || (StartsWith(urcs[0], CRLF) && Framed(urcs[1..]))
  }

  /**
   A well-framed stream, cut anywhere: after `whole` complete result codes and `part` characters of the next.
   The only cut that loses anything is between the CR and the LF that open the stream.
   */
  lemma {:induction false} FramedSplitIff(urcs: seq<string>, whole: nat, part: nat)
    requires AllUrcs(urcs) && Framed(urcs)
    requires whole < |urcs| && part < |urcs[whole]|
    ensures
      var first := Concat(urcs[..whole]) + urcs[whole][..part];
      var second := urcs[whole][part..] + Concat(urcs[whole + 1..]);
      && Emitted("", first + second) == (urcs, "")
      && (SafeSplit("", first, second) <==> !(whole == 0 && part == 1))
  {
    var urc := urcs[whole];
    var done, begun := Concat(urcs[..whole]), urc[..part];
    var rest := Concat(urcs[whole + 1..]);
    var second := urc[part..] + rest;
    AllUrcsSplit(urcs, whole);
    assert urcs[whole..][0] == urc && urcs[whole..][1..] == urcs[whole + 1..];
    FramedAt(urcs, whole);
    StartsFramed(urcs[whole..]);
    PartRejoins(urc, part, rest);
    WholeStream(urcs, whole, begun, second);
    PartOfUrc(urc, part);
    if whole == 0 {
      assert done + begun == begun;
      OpeningSplit(urc, part, rest);
    } else {
      FramedAt(urcs, 0);
      StartsFramed(urcs[..whole]);
      LaterSplit(urcs[..whole], begun, second);
    }
  }

  lemma PartRejoins(urc: string, part: nat, rest: string)
    requires part < |urc|
    ensures urc[..part] + (urc[part..] + rest) == urc + rest
  {
  }

  lemma {:induction false} FramedAt(urcs: seq<string>, at: nat)
    requires Framed(urcs) && at < |urcs|
    ensures StartsWith(urcs[at], CRLF)
  {
    if at > 0 {
      FramedAt(urcs[1..], at - 1);
    }
  }

  lemma {:induction false} StartsFramed(urcs: seq<string>)
    requires urcs != [] && StartsWith(urcs[0], CRLF)
    ensures StartsWith(Concat(urcs), CRLF)
  {
    OccursInPrefix(urcs[0], Concat(urcs[1..]), CRLF, 0);
  }

  lemma PartOfUrc(urc: string, part: nat)
    requires IsUrc(urc) && part < |urc|
    ensures Cut(urc[..part]) == None
  {
    assert urc[..part] + urc[part..] == urc;
    if Cut(urc[..part]).Some? {
      CutInPrefix(urc[..part], urc[part..]);
    }
  }

  lemma {:induction false} WholeStream(urcs: seq<string>, whole: nat, begun: string, second: string)
    requires AllUrcs(urcs) && Framed(urcs) && whole < |urcs|
    requires begun + second == Concat(urcs[whole..])
    ensures Emitted("", (Concat(urcs[..whole]) + begun) + second) == (urcs, "")
  {
    hide Extract, Find, OccursAt, AllUrcs, Concat;
    var done := Concat(urcs[..whole]);
    assert (done + begun) + second == done + (begun + second);
    ConcatAppend(urcs[..whole], urcs[whole..]);
    assert urcs[..whole] + urcs[whole..] == urcs;
    StartsFramed(urcs);
    DropGarbageKeepsIff(Concat(urcs));
    assert Concat(urcs) + "" == Concat(urcs) == "" + Concat(urcs);
    NothingToCut();
    ExtractRecovers(urcs, "");
  }

  lemma NothingToCut()
    ensures Cut("") == None
  {
  }

  /** Splitting the result code that opens the stream. */
  lemma OpeningSplit(urc: string, part: nat, rest: string)
    requires IsUrc(urc) && StartsWith(urc, CRLF) && part < |urc| && Cut(urc[..part]) == None
    ensures SafeSplit("", urc[..part], urc[part..] + rest) <==> part != 1
  {
    var first, second := urc[..part], urc[part..] + rest;
    assert "" + first == first;
    assert urc[0] == CRLF[0] && urc[1] == CRLF[1];
    if part >= 2 {
      assert first[0..2] == CRLF;
      FindIs(first, CRLF, 0, 0);
      assert first[0..] == first;
      OccursInPrefix(first, second, CRLF, 0);
    }
  }

  /** Splitting a result code that is not the first one. */
  lemma {:induction false} LaterSplit(done: seq<string>, begun: string, second: string)
    requires AllUrcs(done) && StartsWith(Concat(done), CRLF) && Cut(begun) == None
    requires StartsWith(begun + second, CRLF)
    ensures SafeSplit("", Concat(done) + begun, second)
  {
    var first := Concat(done) + begun;
    assert "" + first == first;
    OccursInPrefix(Concat(done), begun, CRLF, 0);
    FindIs(first, CRLF, 0, 0);
    assert first[0..] == first;
    ExtractRecovers(done, begun);
  }
}
