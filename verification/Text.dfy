/** Searching in strings, as `std::string::find` does it, and CR LF as the modem uses it. */
module Text {
  import opened Options

  const CRLF: string := "\r\n"
  const QUOTE: string := "\""

  predicate OccursAt(text: string, pattern: string, at: nat) {
    at + |pattern| <= |text| && text[at..at + |pattern|] == pattern
  }

  /** The first occurrence at or after `from`; `None` is npos. */
  function Find(text: string, pattern: string, from: nat): (found: Option<nat>)
    ensures found.Some? ==> from <= found.value && OccursAt(text, pattern, found.value)
    decreases |text| - from
  {
    if from + |pattern| > |text| then None
    else if OccursAt(text, pattern, from) then Some(from)
    else Find(text, pattern, from + 1)
  }

  /** Nothing occurs before what is found, or anywhere if nothing is found. */
  lemma {:induction false} FindFirst(text: string, pattern: string, from: nat)
    ensures
      match Find(text, pattern, from)
      case Some(at) =>
        from <= at && OccursAt(text, pattern, at) && forall i | from <= i < at :: !OccursAt(text, pattern, i)
      case None => forall i | from <= i :: !OccursAt(text, pattern, i)
    decreases |text| - from
  {
    if from + |pattern| <= |text| && !OccursAt(text, pattern, from) {
      FindFirst(text, pattern, from + 1);
    }
  }

  lemma {:induction false} FindIs(text: string, pattern: string, from: nat, at: nat)
    requires from <= at && OccursAt(text, pattern, at)
    requires forall i | from <= i < at :: !OccursAt(text, pattern, i)
    ensures Find(text, pattern, from) == Some(at)
  {
    FindFirst(text, pattern, from);
  }

  lemma {:induction false} FindIsNone(text: string, pattern: string, from: nat)
    requires forall i | from <= i :: !OccursAt(text, pattern, i)
    ensures Find(text, pattern, from) == None
  {
  }

  /** Appending to the text does not move an occurrence. */
  lemma OccursInPrefix(text: string, more: string, pattern: string, at: nat)
    requires at + |pattern| <= |text|
    ensures OccursAt(text + more, pattern, at) <==> OccursAt(text, pattern, at)
  {
    assert (text + more)[at..at + |pattern|] == text[at..at + |pattern|];
  }

  lemma {:induction false} FindInPrefix(text: string, more: string, pattern: string)
    requires Find(text, pattern, 0).Some?
    ensures Find(text + more, pattern, 0) == Find(text, pattern, 0)
  {
    hide Find;
    FindFirst(text, pattern, 0);
    var at := Find(text, pattern, 0).value;
    forall i | 0 <= i <= at
      ensures OccursAt(text + more, pattern, i) <==> OccursAt(text, pattern, i)
    {
      OccursInPrefix(text, more, pattern, i);
    }
    FindIs(text + more, pattern, 0, at);
  }

  lemma OccursInSuffix(front: string, text: string, pattern: string, at: nat)
    ensures OccursAt(front + text, pattern, |front| + at) <==> OccursAt(text, pattern, at)
  {
    if at + |pattern| <= |text| {
      assert (front + text)[|front| + at..|front| + at + |pattern|] == text[at..at + |pattern|];
    }
  }

  lemma OccursInSlice(text: string, from: nat, end: nat, pattern: string, at: nat)
    requires from <= end <= |text| && from + at + |pattern| <= end
    ensures OccursAt(text[from..end], pattern, at) <==> OccursAt(text, pattern, from + at)
  {
    if at + |pattern| <= |text[from..end]| {
      var inner, outer := text[from..end][at..at + |pattern|], text[from + at..from + at + |pattern|];
      forall k | 0 <= k < |pattern|
        ensures inner[k] == outer[k]
      {
      }
      assert inner == outer;
    }
  }

  lemma DropOfConcat(front: string, text: string, at: nat)
    requires at <= |text|
    ensures (front + text)[|front| + at..] == text[at..]
  {
    var left, right := (front + text)[|front| + at..], text[at..];
    forall k | 0 <= k < |right|
      ensures left[k] == right[k]
    {
    }
  }

  predicate StartsWith(text: string, pattern: string) {
    OccursAt(text, pattern, 0)
  }

  function Concat(parts: seq<string>): string {
    if parts == [] then "" else parts[0] + Concat(parts[1..])
  }

  lemma {:induction false} ConcatAppend(a: seq<string>, b: seq<string>)
    ensures Concat(a + b) == Concat(a) + Concat(b)
  {
    if a == [] {
      assert a + b == b;
    } else {
      assert (a + b)[1..] == a[1..] + b;
      ConcatAppend(a[1..], b);
    }
  }
}
