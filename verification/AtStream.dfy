/**
 Collecting the response to an AT command, which arrives in chunks, and counting its lines as they come in.
 */
module AtStream {
  import opened Options
  import opened Sequences
  import opened Text

  // ---------------------------------------------------------------------------------------------
  // Lines of a text

  /** The CR LF terminated lines, without their terminators. */
  function Lines(text: string): seq<string>
    decreases |text|
  {
    match Find(text, CRLF, 0)
    case None => []
    case Some(at) => [text[..at]] + Lines(text[at + 2..])
  }

  /** What follows the last terminated line. */
  function Unterminated(text: string): string
    decreases |text|
  {
    match Find(text, CRLF, 0)
    case None => text
    case Some(at) => Unterminated(text[at + 2..])
  }

  function NonEmpty(lines: seq<string>): nat {
    if lines == [] then 0 else (if lines[0] != "" then 1 else 0) + NonEmpty(lines[1..])
  }

  lemma {:induction false} NonEmptyAppend(a: seq<string>, b: seq<string>)
    ensures NonEmpty(a + b) == NonEmpty(a) + NonEmpty(b)
  {
    if a == [] {
      assert a + b == b;
    } else {
      assert (a + b)[1..] == a[1..] + b;
      NonEmptyAppend(a[1..], b);
    }
  }

  /** Wherever a text is cut, even inside a CR LF, its lines are those of the first part and of what follows. */
  lemma {:induction false} LinesResume(text: string, more: string)
    ensures Lines(text + more) == Lines(text) + Lines(Unterminated(text) + more)
    decreases |text|
  {
    if Find(text, CRLF, 0).Some? {
      var at := Find(text, CRLF, 0).value;
      var tail := text[at + 2..];
      FirstLine(text, more);
      LinesResume(tail, more);
      Regroup([text[..at]], Lines(tail), Lines(Unterminated(tail) + more));
    } else {
      assert Unterminated(text) == text && Lines(text) == [];
    }
  }

  lemma {:induction false} UnterminatedResumes(text: string, more: string)
    ensures Unterminated(text + more) == Unterminated(Unterminated(text) + more)
    decreases |text|
  {
    if Find(text, CRLF, 0).Some? {
      FirstLine(text, more);
      UnterminatedResumes(text[Find(text, CRLF, 0).value + 2..], more);
    }
  }

  lemma FirstLine(text: string, more: string)
    requires Find(text, CRLF, 0).Some?
    ensures
      var at := Find(text, CRLF, 0).value;
      && at + 2 <= |text|
      && Lines(text) == [text[..at]] + Lines(text[at + 2..])
      && Lines(text + more) == [text[..at]] + Lines(text[at + 2..] + more)
      && Unterminated(text) == Unterminated(text[at + 2..])
      && Unterminated(text + more) == Unterminated(text[at + 2..] + more)
  {
    var at := Find(text, CRLF, 0).value;
    FindInPrefix(text, more, CRLF);
    assert (text + more)[at + 2..] == text[at + 2..] + more;
    assert (text + more)[..at] == text[..at];
  }

  /** After a terminated part, whatever follows is a text of its own. */
  lemma {:induction false} LinesAfterTerminated(done: string, more: string)
    requires Unterminated(done) == ""
    ensures Lines(done + more) == Lines(done) + Lines(more)
    ensures Unterminated(done + more) == Unterminated(more)
  {
    hide Lines, Unterminated;
    LinesResume(done, more);
    UnterminatedResumes(done, more);
    assert "" + more == more;
  }

  /** One more terminated line at the end. */
  lemma {:induction false} LineAdded(text: string, from: nat, at: nat)
    requires from <= |text| && Unterminated(text[..from]) == ""
    requires Find(text, CRLF, from) == Some(at)
    ensures from <= at && at + 2 <= |text| && Unterminated(text[..at + 2]) == ""
    ensures NonEmpty(Lines(text[..at + 2])) == NonEmpty(Lines(text[..from])) + (if at != from then 1 else 0)
  {
    hide Lines, Unterminated, NonEmpty;
    var line := text[from..at + 2];
    OneLine(text, from, at);
    var done := text[..from];
    assert text[..at + 2] == done + line;
    TerminatedJoin(done, line);
  }

  lemma {:induction false} TerminatedJoin(done: string, line: string)
    requires Unterminated(done) == "" && Unterminated(line) == ""
    ensures Unterminated(done + line) == ""
    ensures NonEmpty(Lines(done + line)) == NonEmpty(Lines(done)) + NonEmpty(Lines(line))
  {
    hide Lines, Unterminated, NonEmpty;
    LinesAfterTerminated(done, line);
    NonEmptyAppend(Lines(done), Lines(line));
  }

  lemma {:induction false} OneLine(text: string, from: nat, at: nat)
    requires from <= |text| && Find(text, CRLF, from) == Some(at)
    ensures Unterminated(text[from..at + 2]) == ""
    ensures NonEmpty(Lines(text[from..at + 2])) == if at != from then 1 else 0
  {
    var line := text[from..at + 2];
    FindFirst(text, CRLF, from);
    forall i | 0 <= i <= at - from
      ensures OccursAt(line, CRLF, i) <==> OccursAt(text, CRLF, from + i)
    {
      OccursInSlice(text, from, at + 2, CRLF, i);
    }
    FindIs(line, CRLF, 0, at - from);
    assert line[at - from + 2..] == "";
    assert Lines(line) == [line[..at - from]];
  }

  /** No line left after the cursor: everything has been counted. */
  lemma {:induction false} AllLinesCounted(text: string, from: nat)
    requires from <= |text| && Unterminated(text[..from]) == "" && Find(text, CRLF, from) == None
    ensures Lines(text) == Lines(text[..from])
  {
    hide Lines, Unterminated, Find;
    var tail := text[from..];
    FindFirst(text, CRLF, from);
    forall i | 0 <= i
      ensures !OccursAt(tail, CRLF, i)
    {
      if i + 2 <= |tail| {
        OccursInSlice(text, from, |text|, CRLF, i);
      }
    }
    FindIsNone(tail, CRLF, 0);
    TailAddsNothing(text[..from], tail);
    assert text[..from] + tail == text;
  }

  lemma {:induction false} TailAddsNothing(done: string, tail: string)
    requires Unterminated(done) == "" && Find(tail, CRLF, 0) == None
    ensures Lines(done + tail) == Lines(done)
  {
    LinesAfterTerminated(done, tail);
    assert Lines(tail) == [];
  }

  lemma NothingReceived()
    ensures Lines("") == [] && NonEmpty(Lines("")) == 0 && Unterminated("") == ""
  {
  }

  /** The last occurrence starting at or before `upTo`. */
  function FindLast(text: string, pattern: string, upTo: nat): (found: Option<nat>)
    ensures found.Some? ==> found.value <= upTo && OccursAt(text, pattern, found.value)
    ensures found.Some? ==> forall i | found.value < i <= upTo :: !OccursAt(text, pattern, i)
    ensures found.None? ==> forall i | 0 <= i <= upTo :: !OccursAt(text, pattern, i)
  {
    if OccursAt(text, pattern, upTo) then Some(upTo)
    else if upTo == 0 then None
    else FindLast(text, pattern, upTo - 1)
  }

  // ---------------------------------------------------------------------------------------------
  // The collector

  const MIN_AT_CMD_RET: nat := 5

  /** The response is long enough, opens with CR LF, and has a line after that. */
  predicate FirstLineComplete(text: string) {
    |text| > MIN_AT_CMD_RET && StartsWith(text, CRLF) && Find(text, CRLF, 2).Some?
  }

  /** The first line is a result code, as in responses that give the code before the information. */
  predicate CodeAtBegin(text: string, isCode: string -> bool) {
    FirstLineComplete(text) && isCode(text[2..Find(text, CRLF, 2).value])
  }

  ghost predicate LastDelimiter(text: string, at: nat) {
    OccursAt(text, CRLF, at) && forall i | at < i :: !OccursAt(text, CRLF, i)
  }

  /**
   A result code between the last two CR LFs. When the only CR LF is at index 0 or 1, the position to search
   before it wraps around and finds it again; then everything behind it is taken for the code.
   */
  ghost predicate CodeAtEnd(text: string, isCode: string -> bool) {
    || (exists first: nat, last: nat ::
          && OccursAt(text, CRLF, first) && LastDelimiter(text, last) && first + 2 <= last
          && (forall i | first < i < last :: !OccursAt(text, CRLF, i))
          && isCode(text[first + 2..last]))
    || (exists only: nat ::
          && only < 2 && LastDelimiter(text, only)
          && isCode(text[only + 2..]))
  }

  /** CR LF does not overlap itself. */
  lemma DelimitersApart(text: string, i: nat, j: nat)
    requires OccursAt(text, CRLF, i) && OccursAt(text, CRLF, j) && i < j
    ensures i + 2 <= j
  {
    assert text[i..i + 2][1] == '\n' && text[j..j + 2][0] == '\r';
  }

  /** Where the last CR LF is, and the one before it, decide what is taken for the code. */
  lemma {:induction false} CodeAtEndIs(text: string, isCode: string -> bool, last: nat)
    requires LastDelimiter(text, last)
    ensures last < 2 ==> (CodeAtEnd(text, isCode) <==> isCode(text[last + 2..]))
    ensures last >= 2 ==>
      match FindLast(text, CRLF, last - 2)
      case None => !CodeAtEnd(text, isCode)
      case Some(first) => CodeAtEnd(text, isCode) <==> isCode(text[first + 2..last])
  {
    forall i: nat | OccursAt(text, CRLF, i) && i != last
      ensures i + 2 <= last
    {
      DelimitersApart(text, i, last);
    }
  }

  lemma DelimiterStartsWithCr(text: string, i: nat)
    ensures OccursAt(text, CRLF, i) ==> i < |text| && text[i] == '\r'
  {
    assert i + 2 <= |text| ==> text[i..i + 2][0] == text[i];
  }

  /** A response that opens with a line: the line is looked at as soon as there are more than five characters. */
  lemma OpeningLineIsCode(line: string, more: string, isCode: string -> bool)
    requires '\r' !in line
    ensures
      var text := "\r\n" + line + "\r\n" + more;
      && (FirstLineComplete(text) <==> |line| + |more| >= 2)
      && (CodeAtBegin(text, isCode) <==> |line| + |more| >= 2 && isCode(line))
  {
    var text := "\r\n" + line + "\r\n" + more;
    var end := 2 + |line|;
    assert text[0..2] == CRLF && text[end..end + 2] == CRLF && text[2..end] == line;
    forall i | 2 <= i < end
      ensures !OccursAt(text, CRLF, i)
    {
      DelimiterStartsWithCr(text, i);
      assert text[i] == line[i - 2] && line[i - 2] in line;
    }
    FindIs(text, CRLF, 2, end);
  }

  /** The last whole line is looked at, whatever comes before and whatever unfinished line behind. */
  lemma LastLineIsCode(front: string, line: string, tail: string, isCode: string -> bool)
    requires '\r' !in line && '\r' !in tail
    ensures CodeAtEnd(front + "\r\n" + line + "\r\n" + tail, isCode) <==> isCode(line)
  {
    hide OccursAt, CodeAtEnd, FindLast;
    var text := front + "\r\n" + line + "\r\n" + tail;
    var first := |front|;
    var last := first + 2 + |line|;
    LastDelimiters(front, line, tail);
    assert text[first + 2..last] == line;
    CodeAtEndIs(text, isCode, last);
    FindLastIs(text, last - 2, first);
  }

  lemma {:induction false} FindLastIs(text: string, upTo: nat, at: nat)
    requires OccursAt(text, CRLF, at) && at <= upTo && forall i | at < i <= upTo :: !OccursAt(text, CRLF, i)
    ensures FindLast(text, CRLF, upTo) == Some(at)
  {
    var found := FindLast(text, CRLF, upTo);
    hide OccursAt;
  }

  lemma LastDelimiters(front: string, line: string, tail: string)
    requires '\r' !in line && '\r' !in tail
    ensures
      var text := front + "\r\n" + line + "\r\n" + tail;
      var first := |front|;
      var last := first + 2 + |line|;
      && OccursAt(text, CRLF, first) && LastDelimiter(text, last)
      && forall i | first < i < last :: !OccursAt(text, CRLF, i)
  {
    var text := front + "\r\n" + line + "\r\n" + tail;
    var first := |front|;
    var last := first + 2 + |line|;
    assert text[first..first + 2] == CRLF && text[last..last + 2] == CRLF;
    assert OccursAt(text, CRLF, first) && OccursAt(text, CRLF, last);
    hide OccursAt;
    forall i: nat | first < i && i != last
      ensures !OccursAt(text, CRLF, i)
    {
      DelimiterStartsWithCr(text, i);
      if first + 2 <= i < last {
        assert text[i] == line[i - first - 2] && line[i - first - 2] in line;
      } else if last + 2 <= i < |text| {
        assert text[i] == tail[i - last - 2] && tail[i - last - 2] in tail;
      }
    }
  }

  class ATStream {
    /** Whether a line is one of the final result codes; this is not part of the model. */
    const isCode: string -> bool
    /** The number of lines the command is expected to return, or zero. */
    const rxCount: nat
    var atAtTheBegin: bool
    var beginChecked: bool
    var lastPos: nat
    var lineCounter: nat
    var atBuffer: string
    var isATReady: bool

    /** With a line count expected, the counter is the number of non-empty lines received. */
    ghost predicate Valid()
      reads this
    {
      && CountedUpToCursor()
      && (rxCount != 0 ==> lineCounter == NonEmpty(Lines(atBuffer)))
      && (rxCount == 0 ==> lineCounter == 0)
    }

    ghost predicate CountedUpToCursor()
      reads this
    {
      && lastPos <= |atBuffer|
      && Unterminated(atBuffer[..lastPos]) == ""
      && lineCounter == NonEmpty(Lines(atBuffer[..lastPos]))
      && (rxCount == 0 ==> lastPos == 0)
    }

    constructor (rxCount: nat, isCode: string -> bool)
      ensures Valid() && atBuffer == "" && !isATReady
      ensures this.rxCount == rxCount && this.isCode == isCode
    {
      this.rxCount := rxCount;
      this.isCode := isCode;
      atAtTheBegin, beginChecked, isATReady := false, false, false;
      lastPos, lineCounter := 0, 0;
      atBuffer := "";
    }

    method CheckATBegin() returns (found: bool)
      modifies this`beginChecked
      ensures found <==> Find(atBuffer, CRLF, 2).Some? && isCode(atBuffer[2..Find(atBuffer, CRLF, 2).value])
      ensures beginChecked == (old(beginChecked) || Find(atBuffer, CRLF, 2).Some?)
    {
      var pos := Find(atBuffer, CRLF, 2);
      if pos.Some? {
        beginChecked := true;
        if isCode(atBuffer[2..pos.value]) {
          return true;
        }
      }
      return false;
    }

    method CheckATEnd() returns (found: bool)
      ensures found <==> CodeAtEnd(atBuffer, isCode)
    {
      var pos := FindLast(atBuffer, CRLF, |atBuffer|);
      if pos.Some? {
        assert LastDelimiter(atBuffer, pos.value);
        CodeAtEndIs(atBuffer, isCode, pos.value);
        var pos2 := FindLast(atBuffer, CRLF, if pos.value >= 2 then pos.value - 2 else |atBuffer|);
        if pos2.Some? {
          var end := if pos2.value + 2 <= pos.value then pos.value else |atBuffer|;
          assert atBuffer[pos.value + 2..|atBuffer|] == atBuffer[pos.value + 2..];
          return isCode(atBuffer[pos2.value + 2..end]);
        }
      }
      return false;
    }

    /** Enough lines after a code at the beginning, or else a code at the end. */
    ghost predicate Complete()
      reads this
    {
      if atAtTheBegin then rxCount <= NonEmpty(Lines(atBuffer)) else CodeAtEnd(atBuffer, isCode)
    }

    method CountLines()
      requires CountedUpToCursor()
      modifies this`lastPos, this`lineCounter
      ensures Valid()
    {
      hide Lines, Unterminated, NonEmpty;
      if rxCount != 0 {
        var pos := Find(atBuffer, CRLF, lastPos);
        while pos.Some?
          invariant CountedUpToCursor()
          invariant pos == Find(atBuffer, CRLF, lastPos)
          decreases |atBuffer| - lastPos, pos.Some?
        {
          LineAdded(atBuffer, lastPos, pos.value);
          if lastPos != pos.value {
            lineCounter := lineCounter + 1;
          }
          lastPos := pos.value + 2;
          pos := Find(atBuffer, CRLF, lastPos);
        }
        AllLinesCounted(atBuffer, lastPos);
      } else {
        assert atBuffer[..0] == "";
        NothingReceived();
      }
    }

    method Parse() returns (done: bool)
      requires CountedUpToCursor() && (rxCount == 0 ==> lineCounter == 0)
      modifies this`beginChecked, this`atAtTheBegin, this`lastPos, this`lineCounter
      ensures Valid()
      ensures atAtTheBegin == (old(atAtTheBegin) || (!old(beginChecked) && CodeAtBegin(atBuffer, isCode)))
      ensures beginChecked == (old(beginChecked) || FirstLineComplete(atBuffer))
      ensures done <==> Complete()
    {
      hide Lines, Unterminated, NonEmpty, CodeAtEnd;
      if !beginChecked && |atBuffer| > MIN_AT_CMD_RET && atBuffer[0] == '\r' && atBuffer[1] == '\n' {
        var begin := CheckATBegin();
        if begin {
          atAtTheBegin := true;
          if rxCount == 0 {
            return true;
          }
        }
      }
      CountLines();
      if atAtTheBegin {
        if rxCount <= lineCounter {
          return true;
        }
      } else {
        var end := CheckATEnd();
        if end {
          return true;
        }
      }
      return false;
    }

    /** Takes in a chunk unless the response is complete already. */
    method Write(chunk: string) returns (more: bool)
      requires Valid()
      modifies this
      ensures Valid()
      ensures old(isATReady) ==> !more && isATReady && atBuffer == old(atBuffer) && lineCounter == old(lineCounter)
      ensures !old(isATReady) ==> atBuffer == old(atBuffer) + chunk && more == !isATReady
      ensures !old(isATReady) ==>
          && (isATReady <==> Complete())
          && atAtTheBegin == (old(atAtTheBegin) || (!old(beginChecked) && CodeAtBegin(atBuffer, isCode)))
          && beginChecked == (old(beginChecked) || FirstLineComplete(atBuffer))
    {
      if isATReady {
        return false;
      }
      assert (atBuffer + chunk)[..lastPos] == atBuffer[..lastPos];
      atBuffer := atBuffer + chunk;
      var done := Parse();
      if done {
        isATReady := true;
        return false;
      }
      return true;
    }

    method Reset()
      modifies this
      ensures Valid() && atBuffer == "" && !isATReady && !atAtTheBegin && !beginChecked
    {
      atAtTheBegin, beginChecked, isATReady := false, false, false;
      lastPos, lineCounter := 0, 0;
      atBuffer := "";
    }
  }
}
