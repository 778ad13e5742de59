/**
 Which audio input serves a request, and which input a token stands for.
 */
module AudioMux {
  import opened Options

  datatype PlaybackType =
    | NoPlayback | Multimedia | Notifications | KeypadSound | CallRingtone | TextMessageRingtone
    | Meditation | Alarm | PreWakeUp | Snooze | Bedtime

  /** The number of the last playback type, given to the types without a priority of their own. */
  const LAST: nat := 10

  /** The smaller the number, the more important. */
  function PlaybackPriority(playback: PlaybackType): nat {
    match playback
    case Meditation => 1
    case CallRingtone => 2
    case Alarm => 3
    case Multimedia => 4
    case TextMessageRingtone => 5
    case Notifications => 5
    case KeypadSound => 6
    case _ => LAST
  }

  predicate IsMergable(playback: PlaybackType) {
    playback == NoPlayback || playback == Notifications || playback == KeypadSound || playback == TextMessageRingtone
  }

  datatype State = Idle | Playback | Recording | Routing

  datatype Input = Input(state: State, playback: PlaybackType, token: int, vibrationOn: bool)
  {
    function Priority(): nat {
      PlaybackPriority(playback)
    }
  }

  // ---------------------------------------------------------------------------------------------
  // Arbitration

  /** A busy input that is more important than the request. */
  predicate Outranks(input: Input, request: PlaybackType) {
    input.state != Idle && PlaybackPriority(request) > input.Priority()
  }

  /** A busy input that already plays what is requested, and one sound is as good as two. */
  predicate Merges(input: Input, request: PlaybackType) {
    input.state != Idle && input.playback == request && IsMergable(request)
  }

  /** The first input that settles the matter by outranking or merging. */
  function FirstStop(inputs: seq<Input>, request: PlaybackType, from: nat): (at: Option<nat>)
    requires from <= |inputs|
    ensures at.Some? ==>
        && from <= at.value < |inputs|
        && (Outranks(inputs[at.value], request) || Merges(inputs[at.value], request))
        && forall i | from <= i < at.value :: !Outranks(inputs[i], request) && !Merges(inputs[i], request)
    ensures at.None? ==> forall i | from <= i < |inputs| :: !Outranks(inputs[i], request) && !Merges(inputs[i], request)
    decreases |inputs| - from
  {
    if from == |inputs| then None
    else if Outranks(inputs[from], request) || Merges(inputs[from], request) then Some(from)
    else FirstStop(inputs, request, from + 1)
  }

  function LastIdle(inputs: seq<Input>, end: nat): (at: Option<nat>)
    requires end <= |inputs|
    ensures at.Some? ==> at.value < end && inputs[at.value].state == Idle
    ensures at.Some? ==> forall i | at.value < i < end :: inputs[i].state != Idle
    ensures at.None? ==> forall i | 0 <= i < end :: inputs[i].state != Idle
  {
    if end == 0 then None
    else if inputs[end - 1].state == Idle then Some(end - 1)
    else LastIdle(inputs, end - 1)
  }

  function Available(inputs: seq<Input>, request: PlaybackType): Option<nat> {
    match FirstStop(inputs, request, 0)
    case Some(stop) => if Outranks(inputs[stop], request) then None else LastIdle(inputs, stop)
    case None =>
      var idle := LastIdle(inputs, |inputs|);
      if idle.Some? || inputs == [] then idle else Some(|inputs| - 1)
  }

  /** One input further down the list. */
  lemma ChoiceStep(inputs: seq<Input>, request: PlaybackType, i: nat)
    requires i < |inputs|
    ensures LastIdle(inputs, 0) == None
    ensures LastIdle(inputs, i + 1) == if inputs[i].state == Idle then Some(i) else LastIdle(inputs, i)
    ensures FirstStop(inputs, request, i)
         == if Outranks(inputs[i], request) || Merges(inputs[i], request) then Some(i)
            else FirstStop(inputs, request, i + 1)
  {
    hide Outranks, Merges;
  }

  lemma {:induction false} ChoiceEnds(inputs: seq<Input>, request: PlaybackType)
    ensures FirstStop(inputs, request, |inputs|) == None && LastIdle(inputs, 0) == None
  {
  }

  predicate Occupied(inputs: seq<Input>) {
    exists i | 0 <= i < |inputs| :: inputs[i].state == Routing || inputs[i].state == Recording
  }

  /**
   No request takes over anything more important: nothing is given out while a call is routed or a recording
   runs; an input that is busy is given out only if none is idle, and then no input at all outranks the request.
   */
  lemma ArbitrationNeverPreempts(inputs: seq<Input>, request: PlaybackType)
    ensures
      var chosen := if Occupied(inputs) then None else Available(inputs, request);
      && (chosen.Some? ==> chosen.value < |inputs| && inputs[chosen.value].state in {Idle, Playback})
      && (chosen.Some? && inputs[chosen.value].state != Idle ==>
            && PlaybackPriority(request) <= inputs[chosen.value].Priority()
            && forall i | 0 <= i < |inputs| ::
                 && inputs[i].state != Idle
                 && PlaybackPriority(request) <= inputs[i].Priority()
                 && !Merges(inputs[i], request))
  {
    var stop := FirstStop(inputs, request, 0);
    if stop.None? {
      var idle := LastIdle(inputs, |inputs|);
    }
  }

  /** When a request gets nothing. */
  lemma RefusedExactlyWhen(inputs: seq<Input>, request: PlaybackType)
    ensures Available(inputs, request) == None <==>
      || inputs == []
      || (exists k | 0 <= k < |inputs| ::
            && Outranks(inputs[k], request)
            && forall i | 0 <= i < k :: !Merges(inputs[i], request))
      || (exists k | 0 <= k < |inputs| ::
            && Merges(inputs[k], request)
            && forall i | 0 <= i < k :: inputs[i].state != Idle && !Outranks(inputs[i], request))
  {
    var stop := FirstStop(inputs, request, 0);
    if stop.Some? {
      var idle := LastIdle(inputs, stop.value);
      if idle.Some? {
        assert inputs[idle.value].state == Idle;
      }
    } else {
      var idle := LastIdle(inputs, |inputs|);
    }
  }

  /** From the most important to the least. */
  lemma PlaybackOrder(playback: PlaybackType)
    ensures PlaybackPriority(Meditation) < PlaybackPriority(CallRingtone) < PlaybackPriority(Alarm)
         < PlaybackPriority(Multimedia) < PlaybackPriority(TextMessageRingtone) == PlaybackPriority(Notifications)
         < PlaybackPriority(KeypadSound) < PlaybackPriority(NoPlayback)
    ensures PlaybackPriority(playback) == PlaybackPriority(NoPlayback)
       <==> playback in {NoPlayback, PreWakeUp, Snooze, Bedtime}
  {
  }

  /** The list of inputs is gone through up to `stop`: to a sound to merge with, or to the end. */
  predicate GoesTo(inputs: seq<Input>, request: PlaybackType, stop: nat) {
    && stop <= |inputs|
    && (stop < |inputs| ==> SettlesByMerging(inputs[stop], request))
    && forall j | 0 <= j < stop :: Yields(inputs[j], request)
  }

  lemma {:induction false} GoesToIff(inputs: seq<Input>, request: PlaybackType, stop: nat)
    ensures GoesTo(inputs, request, stop) <==>
      match FirstStop(inputs, request, 0)
      case None => stop == |inputs|
      case Some(first) => stop == first && !Outranks(inputs[first], request)
  {
    forall j | 0 <= j < |inputs|
      ensures SettlesByMerging(inputs[j], request) <==> Merges(inputs[j], request)
      ensures Yields(inputs[j], request) <==> !Outranks(inputs[j], request) && !Merges(inputs[j], request)
      ensures !(Outranks(inputs[j], request) && Merges(inputs[j], request))
    {
    }
    hide Outranks, Merges, Yields, SettlesByMerging;
    var first := FirstStop(inputs, request, 0);
  }

  /** The last idle input ahead of the stop; if there is none, and the stop is the end, the last input of all. */
  predicate PicksAt(inputs: seq<Input>, stop: nat, i: nat)
    requires stop <= |inputs|
  {
    && i < |inputs|
    && if exists j | 0 <= j < stop :: inputs[j].state == Idle
       then i < stop && inputs[i].state == Idle && forall j | i < j < stop :: inputs[j].state != Idle
       else stop == |inputs| == i + 1
  }

  /** Which input a request gets. */
  lemma ChosenExactly(inputs: seq<Input>, request: PlaybackType, i: nat)
    ensures Available(inputs, request) == Some(i)
       <==> exists stop: nat :: GoesTo(inputs, request, stop) && PicksAt(inputs, stop, i)
  {
    var first := FirstStop(inputs, request, 0);
    assert first.Some? ==> first.value < |inputs|;
    var stop := if first.Some? then first.value else |inputs|;
    forall s: nat
      ensures GoesTo(inputs, request, s) <==> s == stop && (first.Some? ==> !Outranks(inputs[stop], request))
    {
      GoesToIff(inputs, request, s);
    }
    PicksAtIff(inputs, stop, i);
    hide GoesTo, PicksAt, Outranks, LastIdle, FirstStop;
    if first.Some? && Outranks(inputs[stop], request) {
      assert Available(inputs, request) == None;
    } else {
      assert GoesTo(inputs, request, stop);
      assert Available(inputs, request) == Some(i) <==> PicksAt(inputs, stop, i);
    }
  }

  lemma {:induction false} PicksAtIff(inputs: seq<Input>, stop: nat, i: nat)
    requires stop <= |inputs|
    ensures PicksAt(inputs, stop, i) <==>
      match LastIdle(inputs, stop)
      case Some(idle) => i == idle
      case None => stop == |inputs| == i + 1
  {
    var idle := LastIdle(inputs, stop);
    if idle.Some? {
      assert inputs[idle.value].state == Idle;
    }
  }

  /** Busy with the very sound requested, of a kind of which one is enough. */
  predicate SettlesByMerging(input: Input, request: PlaybackType) {
    && input.state != Idle && input.playback == request
    && request in {NoPlayback, Notifications, KeypadSound, TextMessageRingtone}
  }

  /** Neither more important than the request nor to be merged with it. */
  predicate Yields(input: Input, request: PlaybackType) {
    input.state == Idle ||
    (PlaybackPriority(request) <= PlaybackPriority(input.playback) && !SettlesByMerging(input, request))
  }

  // ---------------------------------------------------------------------------------------------
  // Tokens

  const MAX_TOKEN: int := 32767
  const TOKEN_UNINITIALIZED: int := -1
  const TOKEN_COUNT: nat := 32768

  function Incremented(t: int): int {
    if t == MAX_TOKEN then 0 else t + 1
  }

  /** The token of the n-th issue, counting from 1. */
  function TokenOf(n: nat): int {
    if n == 0 then TOKEN_UNINITIALIZED else (n - 1) % TOKEN_COUNT
  }

  lemma NextToken(n: nat)
    ensures Incremented(TokenOf(n)) == TokenOf(n + 1)
  {
  }

  /** Issued tokens are always valid. */
  lemma IssuedTokenIsValid(n: nat)
    requires n > 0
    ensures 0 <= TokenOf(n) <= 32767
  {
  }

  lemma SameTokenIff(m: nat, n: nat)
    requires 0 < m <= n
    ensures TokenOf(m) == TokenOf(n) <==> (n - m) % TOKEN_COUNT == 0
  {
  }

  /** The first input that holds the token; a token never issued finds nothing. */
  function Holder(inputs: seq<Input>, token: int): (at: Option<nat>)
    ensures at.Some? ==> at.value < |inputs| && inputs[at.value].token == token && token > TOKEN_UNINITIALIZED
    ensures at.Some? ==> forall i | 0 <= i < at.value :: inputs[i].token != token
    ensures at.None? ==> token <= TOKEN_UNINITIALIZED || forall i | 0 <= i < |inputs| :: inputs[i].token != token
  {
    if token <= TOKEN_UNINITIALIZED then None else HolderFrom(inputs, token, 0)
  }

  function HolderFrom(inputs: seq<Input>, token: int, from: nat): (at: Option<nat>)
    requires from <= |inputs|
    ensures at.Some? ==> from <= at.value < |inputs| && inputs[at.value].token == token
    ensures at.Some? ==> forall i | from <= i < at.value :: inputs[i].token != token
    ensures at.None? ==> forall i | from <= i < |inputs| :: inputs[i].token != token
    decreases |inputs| - from
  {
    if from == |inputs| then None
    else if inputs[from].token == token then Some(from)
    else HolderFrom(inputs, token, from + 1)
  }

  /** `born[i]` is the issue at which input i was last reset; no two inputs share one. */
  ghost predicate BornAt(inputs: seq<Input>, born: seq<nat>, issued: nat) {
    && |born| == |inputs|
    && (forall i | 0 <= i < |born| :: 0 < born[i] <= issued && inputs[i].token == TokenOf(born[i]))
    && (forall i, j | 0 <= i < j < |born| :: born[i] != born[j])
  }

  /** No input's token is 32768 issues old or older. */
  ghost predicate AllYoung(born: seq<nat>, issued: nat) {
    forall i | 0 <= i < |born| :: issued - born[i] < 32768
  }

  /**
   While the inputs' tokens are young they are pairwise distinct, and a client's token that is young itself finds
   the input last reset to it, and nothing if that input has been reset since.
   */
  lemma YoungTokensIdentify(inputs: seq<Input>, born: seq<nat>, issued: nat, n: nat)
    requires BornAt(inputs, born, issued) && AllYoung(born, issued)
    requires 0 < n <= issued && issued - n < 32768
    ensures forall i, j | 0 <= i < j < |inputs| :: inputs[i].token != inputs[j].token
    ensures forall i | 0 <= i < |inputs| :: Holder(inputs, TokenOf(n)) == Some(i) <==> born[i] == n
    ensures Holder(inputs, TokenOf(n)) == None <==> n !in born
  {
    IssuedTokenIsValid(n);
    forall i | 0 <= i < |inputs|
      ensures inputs[i].token == TokenOf(n) <==> born[i] == n
    {
      YoungTokensDiffer(born[i], n, issued);
    }
    forall i, j | 0 <= i < j < |inputs|
      ensures inputs[i].token != inputs[j].token
    {
      YoungTokensDiffer(born[i], born[j], issued);
    }
  }

  lemma YoungTokensDiffer(m: nat, n: nat, issued: nat)
    requires 0 < m <= issued && 0 < n <= issued && issued - m < TOKEN_COUNT && issued - n < TOKEN_COUNT
    ensures TokenOf(m) == TokenOf(n) <==> m == n
  {
    if m <= n {
      SameTokenIff(m, n);
    } else {
      SameTokenIff(n, m);
    }
  }

  /** Without the age limit: an input is found by its own token exactly when no earlier one is a whole lap apart. */
  lemma OwnTokenFindsIff(inputs: seq<Input>, born: seq<nat>, issued: nat, j: nat)
    requires BornAt(inputs, born, issued) && j < |inputs|
    ensures Holder(inputs, inputs[j].token) == Some(j)
       <==> forall i | 0 <= i < j :: (born[j] as int - born[i] as int) % 32768 != 0
  {
    IssuedTokenIsValid(born[j]);
    forall i | 0 <= i < j
      ensures inputs[i].token == inputs[j].token <==> (born[j] - born[i]) % TOKEN_COUNT == 0
    {
      if born[i] <= born[j] {
        SameTokenIff(born[i], born[j]);
      } else {
        SameTokenIff(born[j], born[i]);
        LapsBothWays(born[i] - born[j]);
      }
    }
  }

  lemma LapsBothWays(d: int)
    ensures d % TOKEN_COUNT == 0 <==> -d % TOKEN_COUNT == 0
  {
  }

  // ---------------------------------------------------------------------------------------------
  // The multiplexer

  class AudioMux {
    var audioInputs: seq<Input>
    var refToken: int
    /** How many tokens have been issued, and at which issue each input got its own. */
    ghost var issued: nat
    ghost var born: seq<nat>

    ghost predicate Valid()
      reads this
    {
      && audioInputs != []
      && refToken == TokenOf(issued)
      && BornAt(audioInputs, born, issued)
    }

    /** At least one input, each with a token of its own. */
    constructor (audioInputsCount: nat)
      ensures Valid()
      ensures |audioInputs| == if audioInputsCount > 0 then audioInputsCount else 1
      ensures forall i | 0 <= i < |audioInputs| :: born[i] == i + 1
      ensures issued == |audioInputs|
    {
      var count := if audioInputsCount > 0 then audioInputsCount else 1;
      var inputs: seq<Input> := [];
      var token := TOKEN_UNINITIALIZED;
      for i := 0 to count
        invariant |inputs| == i && token == TokenOf(i)
        invariant forall j | 0 <= j < i :: inputs[j].token == TokenOf(j + 1)
      {
        NextToken(i);
        token := Incremented(token);
        inputs := inputs + [Input(Idle, NoPlayback, token, false)];
      }
      audioInputs := inputs;
      refToken := token;
      issued := count;
      born := seq(count, i => i + 1);
    }

    method GetInputInState(states: set<State>) returns (input: Option<nat>)
      ensures input.Some? ==>
          && input.value < |audioInputs| && audioInputs[input.value].state in states
          && forall i | 0 <= i < input.value :: audioInputs[i].state !in states
      ensures input.None? ==> forall i | 0 <= i < |audioInputs| :: audioInputs[i].state !in states
    {
      for i := 0 to |audioInputs|
        invariant forall j | 0 <= j < i :: audioInputs[j].state !in states
      {
        if audioInputs[i].state in states {
          return Some(i);
        }
      }
      return None;
    }

    /** The first routing input; if forced, the first of the least important ones. */
    method GetRoutingInput(force: bool) returns (input: Option<nat>)
      requires force ==> audioInputs != []
      ensures (exists i | 0 <= i < |audioInputs| :: audioInputs[i].state == Routing) ==>
          && input.Some? && input.value < |audioInputs| && audioInputs[input.value].state == Routing
          && forall i | 0 <= i < input.value :: audioInputs[i].state != Routing
      ensures (forall i | 0 <= i < |audioInputs| :: audioInputs[i].state != Routing) && force ==>
          && input.Some? && input.value < |audioInputs|
          && (forall i | 0 <= i < |audioInputs| :: audioInputs[i].Priority() <= audioInputs[input.value].Priority())
          && (forall i | 0 <= i < input.value :: audioInputs[i].Priority() < audioInputs[input.value].Priority())
      ensures (forall i | 0 <= i < |audioInputs| :: audioInputs[i].state != Routing) && !force ==> input.None?
    {
      input := GetInputInState({Routing});
      if input.Some? {
        return input;
      }
      if force {
        var low := 0;
        for i := 0 to |audioInputs|
          invariant low < |audioInputs| && (low < i || low == 0)
          invariant forall j | 0 <= j < i :: audioInputs[j].Priority() <= audioInputs[low].Priority()
          invariant forall j | 0 <= j < low :: audioInputs[j].Priority() < audioInputs[low].Priority()
        {
          if audioInputs[i].Priority() > audioInputs[low].Priority() {
            low := i;
          }
        }
        return Some(low);
      }
      return None;
    }

    method GetAvailableInput(request: PlaybackType) returns (input: Option<nat>)
      ensures input == Available(audioInputs, request)
    {
      hide PlaybackPriority, IsMergable, Input.Priority, FirstStop, LastIdle;
      var idleInput: Option<nat> := None;
      var overridableInput: Option<nat> := None;
      for i := 0 to |audioInputs|
        invariant FirstStop(audioInputs, request, 0) == FirstStop(audioInputs, request, i)
        invariant idleInput == LastIdle(audioInputs, i)
        invariant idleInput.None? && i > 0 ==> overridableInput == Some(i - 1)
        invariant i == 0 ==> overridableInput == None
      {
        var current := audioInputs[i];
        ChoiceStep(audioInputs, request, i);
        if current.state != Idle {
          if PlaybackPriority(request) > current.Priority() {
            return None;
          } else {
            if current.playback == request && IsMergable(current.playback) {
              overridableInput := None;
              return idleInput;
            }
            overridableInput := Some(i);
          }
        } else {
          idleInput := Some(i);
        }
      }
      ChoiceEnds(audioInputs, request);
      return if idleInput.Some? then idleInput else overridableInput;
    }

    method GetPlaybackInput(request: PlaybackType) returns (input: Option<nat>)
      ensures input == if Occupied(audioInputs) then None else Available(audioInputs, request)
    {
      var occupied := GetInputInState({Routing, Recording});
      if occupied.Some? {
        return None;
      }
      input := GetAvailableInput(request);
    }

    method GetInput(token: int) returns (input: Option<nat>)
      ensures input == Holder(audioInputs, token)
    {
      if token <= TOKEN_UNINITIALIZED {
        return None;
      }
      for i := 0 to |audioInputs|
        invariant HolderFrom(audioInputs, token, i) == Holder(audioInputs, token)
      {
        if token == audioInputs[i].token {
          return Some(i);
        }
      }
      return None;
    }

    /** Issues the next token, to an input if one is given. */
    method ResetInput(input: Option<nat>) returns (token: int)
      requires Valid() && (input.Some? ==> input.value < |audioInputs|)
      modifies this
      ensures Valid() && issued == old(issued) + 1 && token == TokenOf(issued)
      ensures input.None? ==> audioInputs == old(audioInputs) && born == old(born)
      ensures input.Some? ==>
          && born == old(born)[input.value := issued]
          && audioInputs == old(audioInputs)[input.value :=
               old(audioInputs)[input.value].(vibrationOn := false, token := token)]
    {
      NextToken(issued);
      refToken := Incremented(refToken);
      issued := issued + 1;
      if input.Some? {
        audioInputs := audioInputs[input.value := audioInputs[input.value].(vibrationOn := false, token := refToken)];
        born := born[input.value := issued];
      }
      return refToken;
    }
  }
}
