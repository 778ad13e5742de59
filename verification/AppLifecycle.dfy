/**
 How an application is switched to, loses focus and closes. Closing waits for the responses some requests said
 they need; the confirmation goes out when the last of them has been dealt with.
 */
module AppLifecycle {
  import opened Options
  import opened Sequences

  // ---------------------------------------------------------------------------------------------
  // Callbacks of requests under way

  datatype ReceiverBehavior = NoWait | WaitForResponseToClose

  datatype CallbackEntry = CallbackEntry(id: nat, receiver: nat, hasFunction: bool, behavior: ReceiverBehavior)

  /** What a response runs. */
  datatype AsyncCallback = NullCallback | QueryCallback | AsyncResponseCallback

  function EntryFor(entries: seq<CallbackEntry>, id: nat): (entry: Option<CallbackEntry>)
    ensures entry.Some? ==> entry.value in entries && entry.value.id == id
    ensures entry.None? ==> forall e | e in entries :: e.id != id
  {
    if entries == [] then None
    else if entries[0].id == id then Some(entries[0])
    else EntryFor(entries[1..], id)
  }

  function WithoutId(entries: seq<CallbackEntry>, id: nat): seq<CallbackEntry> {
    if entries == [] then []
    else (if entries[0].id == id then [] else [entries[0]]) + WithoutId(entries[1..], id)
  }

  function WithoutReceiver(entries: seq<CallbackEntry>, receiver: nat): seq<CallbackEntry> {
    if entries == [] then []
    else (if entries[0].receiver == receiver then [] else [entries[0]]) + WithoutReceiver(entries[1..], receiver)
  }

  /** Some request still has to be answered before the application may close. */
  predicate Blocking(entries: seq<CallbackEntry>) {
    exists i | 0 <= i < |entries| :: entries[i].behavior == WaitForResponseToClose
  }

  function CallbackFor(entry: Option<CallbackEntry>, isQuery: bool): AsyncCallback {
    if entry.None? then NullCallback
    else if isQuery then QueryCallback
    else if entry.value.hasFunction then AsyncResponseCallback
    else NullCallback
  }

  /** What code the model does not contain may do to the storage while it runs. */
  datatype CallbackAct = Register(entry: CallbackEntry) | CancelReceiver(receiver: nat)

  function ActsDone(entries: seq<CallbackEntry>, acts: seq<CallbackAct>): seq<CallbackEntry>
    decreases |acts|
  {
    if acts == [] then entries
    else
      match acts[0]
      case Register(entry) => ActsDone(entries + [entry], acts[1..])
      case CancelReceiver(receiver) => ActsDone(WithoutReceiver(entries, receiver), acts[1..])
  }

  class CallbackStorage {
    var entries: seq<CallbackEntry>

    constructor ()
      ensures entries == []
    {
      entries := [];
    }

    method RegisterCallback(entry: CallbackEntry)
      modifies this
      ensures entries == old(entries) + [entry]
    {
      entries := entries + [entry];
    }

    /** Removes every entry of the response, not only the one it answers with. */
    method GetCallback(id: nat, isQuery: bool) returns (callback: AsyncCallback)
      modifies this
      ensures entries == WithoutId(old(entries), id)
      ensures callback == CallbackFor(EntryFor(old(entries), id), isQuery)
    {
      var entry := EntryFor(entries, id);
      callback := CallbackFor(entry, isQuery);
      if entry.Some? {
        Remove(id);
      } else {
        NothingToRemove(entries, id);
      }
    }

    method Remove(id: nat)
      modifies this
      ensures entries == WithoutId(old(entries), id)
    {
      var kept: seq<CallbackEntry> := WithoutId([], id);
      hide WithoutId;
      for i := 0 to |entries|
        invariant entries == old(entries)
        invariant kept == WithoutId(entries[..i], id)
      {
        WithoutIdNext(entries, i, id);
        if entries[i].id != id {
          kept := kept + [entries[i]];
        }
      }
      assert entries[..|entries|] == entries;
      entries := kept;
    }

    method RemoveAll(receiver: nat)
      modifies this
      ensures entries == WithoutReceiver(old(entries), receiver)
    {
      var kept: seq<CallbackEntry> := WithoutReceiver([], receiver);
      hide WithoutReceiver;
      for i := 0 to |entries|
        invariant entries == old(entries)
        invariant kept == WithoutReceiver(entries[..i], receiver)
      {
        WithoutReceiverNext(entries, i, receiver);
        if entries[i].receiver != receiver {
          kept := kept + [entries[i]];
        }
      }
      assert entries[..|entries|] == entries;
      entries := kept;
    }

    method CheckBlockingCloseRequests() returns (blocking: bool)
      ensures blocking == Blocking(entries)
      ensures blocking <==> exists e :: e in entries && e.behavior == WaitForResponseToClose
    {
      for i := 0 to |entries|
        invariant forall j | 0 <= j < i :: entries[j].behavior != WaitForResponseToClose
      {
        if entries[i].behavior == WaitForResponseToClose {
          return true;
        }
      }
      return false;
    }

    method Perform(acts: seq<CallbackAct>)
      modifies this
      ensures entries == ActsDone(old(entries), acts)
    {
      for i := 0 to |acts|
        invariant ActsDone(entries, acts[i..]) == ActsDone(old(entries), acts)
      {
        assert acts[i..][1..] == acts[i + 1..];
        match acts[i]
        case Register(entry) => RegisterCallback(entry);
        case CancelReceiver(receiver) => RemoveAll(receiver);
      }
    }
  }

  lemma {:induction false} WithoutIdNext(entries: seq<CallbackEntry>, i: nat, id: nat)
    requires i < |entries|
    ensures WithoutId(entries[..i + 1], id)
         == WithoutId(entries[..i], id) + (if entries[i].id == id then [] else [entries[i]])
    decreases i
  {
    if i == 0 {
      assert entries[..1][1..] == [];
    } else {
      assert entries[..i + 1][1..] == entries[1..][..i] && entries[..i][1..] == entries[1..][..i - 1];
      WithoutIdNext(entries[1..], i - 1, id);
    }
  }

  lemma {:induction false} WithoutReceiverNext(entries: seq<CallbackEntry>, i: nat, receiver: nat)
    requires i < |entries|
    ensures WithoutReceiver(entries[..i + 1], receiver)
         == WithoutReceiver(entries[..i], receiver) + (if entries[i].receiver == receiver then [] else [entries[i]])
    decreases i
  {
    if i == 0 {
      assert entries[..1][1..] == [];
    } else {
      assert entries[..i + 1][1..] == entries[1..][..i] && entries[..i][1..] == entries[1..][..i - 1];
      WithoutReceiverNext(entries[1..], i - 1, receiver);
    }
  }

  /** Removing goes through the entries one by one and takes out those of the response, or of the receiver. */
  lemma {:induction false} RemovalIsOneByOne(a: seq<CallbackEntry>, b: seq<CallbackEntry>, e: CallbackEntry, n: nat)
    ensures WithoutId(a + b, n) == WithoutId(a, n) + WithoutId(b, n)
    ensures WithoutId([e], n) == if e.id == n then [] else [e]
    ensures WithoutReceiver(a + b, n) == WithoutReceiver(a, n) + WithoutReceiver(b, n)
    ensures WithoutReceiver([e], n) == if e.receiver == n then [] else [e]
    decreases |a|
  {
    assert [e][1..] == [];
    assert WithoutId([], n) == [] && WithoutReceiver([], n) == [];
    if a == [] {
      assert a + b == b;
      NothingInFront(WithoutId(b, n));
      NothingInFront(WithoutReceiver(b, n));
    } else {
      var first, rest := a[0], a[1..];
      assert (a + b)[1..] == rest + b && (a + b)[0] == first;
      RemovalIsOneByOne(rest, b, e, n);
      Regroup(if first.id == n then [] else [first], WithoutId(rest, n), WithoutId(b, n));
      Regroup(if first.receiver == n then [] else [first], WithoutReceiver(rest, n), WithoutReceiver(b, n));
    }
  }

  lemma {:induction false} NothingToRemove(entries: seq<CallbackEntry>, id: nat)
    requires forall e | e in entries :: e.id != id
    ensures WithoutId(entries, id) == entries
    decreases |entries|
  {
    if entries != [] {
      assert entries[0] in entries;
      NothingToRemove(entries[1..], id);
      assert [entries[0]] + entries[1..] == entries;
    }
  }

  // ---------------------------------------------------------------------------------------------
  // The protocol

  datatype State =
    | NONE | DEACTIVATED | INITIALIZING | ACTIVATING | ACTIVE_FORGROUND | ACTIVE_BACKGROUND
    | FINALIZING_CLOSE | DEACTIVATING

  /** What the application tells the application manager, or itself: to switch or refresh a window. */
  datatype Notice =
    | ApplicationInitialised | ConfirmSwitch | FinalizingClose | ConfirmClose | WindowSwitch | WindowRefresh

  datatype Life = Life(state: State, entries: seq<CallbackEntry>, sent: seq<Notice>)

  /**
   Messages. `acts` is what callbacks, window closing code and action receivers do to the callback storage on
   the way, and `result` what a callback returns; neither code is part of the model. `confirmed` says whether the
   confirmation of a switch went through, and `windowed` whether there is a window to refresh.
   */
  datatype Event =
    | AppClose(acts: seq<CallbackAct>)
    | SwitchLaunch(forThisApp: bool, confirmed: bool)
    | SwitchOnAction
    | FocusLost
    | AsyncResponse(id: nat, isQuery: bool, result: bool, windowed: bool, acts: seq<CallbackAct>)
    | Other(acts: seq<CallbackAct>)

  function Initialised(startInBackground: bool): Life {
    Life(if startInBackground then ACTIVE_BACKGROUND else INITIALIZING, [], [ApplicationInitialised])
  }

  predicate AwaitsSwitch(state: State) {
    state == ACTIVATING || state == INITIALIZING || state == ACTIVE_BACKGROUND
  }

  function Brought(l: Life): Life {
    if AwaitsSwitch(l.state) then l.(state := ACTIVE_FORGROUND, sent := l.sent + [ConfirmSwitch]) else l
  }

  function Launched(l: Life, confirmed: bool): Life {
    if AwaitsSwitch(l.state) then
      var brought := Brought(l);
      if confirmed then brought.(sent := brought.sent + [WindowSwitch]) else brought
    else if l.state == ACTIVE_FORGROUND then l.(sent := l.sent + [WindowSwitch])
    else l
  }

  function Closed(l: Life, acts: seq<CallbackAct>): Life {
    var entries := ActsDone(l.entries, acts);
    if Blocking(entries) then Life(FINALIZING_CLOSE, entries, l.sent + [FinalizingClose])
    else Life(DEACTIVATING, entries, l.sent + [ConfirmClose])
  }

  function BlockingChecked(l: Life): Life {
    if l.state == FINALIZING_CLOSE && !Blocking(l.entries)
    then l.(state := DEACTIVATING, sent := l.sent + [ConfirmClose])
    else l
  }

  function Responded(l: Life, id: nat, isQuery: bool, result: bool, windowed: bool, acts: seq<CallbackAct>): Life {
    var callback := CallbackFor(EntryFor(l.entries, id), isQuery);
    var answered := l.(entries := WithoutId(l.entries, id));
    if callback == NullCallback then answered
    else
      var executed := answered.(entries := ActsDone(answered.entries, acts));
      var shown := if windowed then executed.(sent := executed.sent + [WindowRefresh]) else executed;
      if result then BlockingChecked(shown) else executed
  }

  function LifeStep(l: Life, event: Event): Life {
    match event
    case AppClose(acts) => Closed(l, acts)
    case SwitchLaunch(forThisApp, confirmed) => if forThisApp then Launched(l, confirmed) else l
    case SwitchOnAction => Brought(l)
    case FocusLost =>
      if l.state == ACTIVE_FORGROUND then l.(state := ACTIVE_BACKGROUND, sent := l.sent + [ConfirmSwitch]) else l
    case AsyncResponse(id, isQuery, result, windowed, acts) => Responded(l, id, isQuery, result, windowed, acts)
    case Other(acts) => l.(entries := ActsDone(l.entries, acts))
  }

  class ApplicationLifecycle {
    const callbackStorage: CallbackStorage
    var state: State
    var sent: seq<Notice>

    ghost function View(): Life
      reads this, callbackStorage
    {
      Life(state, callbackStorage.entries, sent)
    }

    constructor ()
      ensures fresh(callbackStorage)
      ensures View() == Life(DEACTIVATED, [], [])
    {
      callbackStorage := new CallbackStorage();
      state := DEACTIVATED;
      sent := [];
    }

    method InitHandler(startInBackground: bool)
      modifies this
      ensures state == (if startInBackground then ACTIVE_BACKGROUND else INITIALIZING)
      ensures sent == old(sent) + [ApplicationInitialised]
      ensures callbackStorage.entries == [] && old(sent) == [] ==> View() == Initialised(startInBackground)
    {
      state := INITIALIZING;
      sent := sent + [ApplicationInitialised];
      if startInBackground {
        state := ACTIVE_BACKGROUND;
      }
    }

    /** A launch for this application: brought to the foreground if it waits for that, and its window switched to. */
    method HandleApplicationSwitchLaunch(forThisApp: bool, confirmed: bool) returns (handled: bool)
      modifies this
      ensures View() == LifeStep(old(View()), SwitchLaunch(forThisApp, confirmed))
      ensures handled == (sent != old(sent) && sent[|sent| - 1] == WindowSwitch)
    {
      if state == ACTIVATING || state == INITIALIZING || state == ACTIVE_BACKGROUND {
        if forThisApp {
          state := ACTIVE_FORGROUND;
          sent := sent + [ConfirmSwitch];
          if confirmed {
            sent := sent + [WindowSwitch];
            return true;
          }
        }
      } else if state == ACTIVE_FORGROUND {
        if forThisApp {
          sent := sent + [WindowSwitch];
          return true;
        }
      }
      return false;
    }

    method HandleApplicationSwitchOnAction() returns (handled: bool)
      modifies this
      ensures View() == LifeStep(old(View()), SwitchOnAction)
      ensures handled == AwaitsSwitch(old(state))
    {
      if state == ACTIVATING || state == INITIALIZING || state == ACTIVE_BACKGROUND {
        state := ACTIVE_FORGROUND;
        sent := sent + [ConfirmSwitch];
        return true;
      }
      return false;
    }

    method HandleAppFocusLost()
      modifies this
      ensures View() == LifeStep(old(View()), Event.FocusLost)
    {
      if state == ACTIVE_FORGROUND {
        state := ACTIVE_BACKGROUND;
        sent := sent + [ConfirmSwitch];
      }
    }

    method HandleAppClose(acts: seq<CallbackAct>)
      modifies this, callbackStorage
      ensures View() == LifeStep(old(View()), Event.AppClose(acts))
    {
      state := DEACTIVATING;
      callbackStorage.Perform(acts);
      var blocking := callbackStorage.CheckBlockingCloseRequests();
      if blocking {
        state := FINALIZING_CLOSE;
        sent := sent + [FinalizingClose];
        return;
      }
      sent := sent + [ConfirmClose];
    }

    method CheckBlockingRequests()
      modifies this
      ensures View() == BlockingChecked(old(View()))
    {
      if state == FINALIZING_CLOSE {
        var blocking := callbackStorage.CheckBlockingCloseRequests();
        if !blocking {
          state := DEACTIVATING;
          sent := sent + [ConfirmClose];
        }
      }
    }

    method HandleAsyncResponse(id: nat, isQuery: bool, result: bool, windowed: bool, acts: seq<CallbackAct>)
      modifies this, callbackStorage
      ensures View() == LifeStep(old(View()), Event.AsyncResponse(id, isQuery, result, windowed, acts))
    {
      hide EntryFor, WithoutId, ActsDone, Blocking;
      var command := callbackStorage.GetCallback(id, isQuery);
      var executed := false;
      if command != NullCallback {
        callbackStorage.Perform(acts);
        executed := result;
      }
      if executed {
        if windowed {
          sent := sent + [WindowRefresh];
        }
        CheckBlockingRequests();
      }
    }
  }

  // ---------------------------------------------------------------------------------------------
  // Safety

  function Confirmations(sent: seq<Notice>): nat {
    if sent == [] then 0
    else Confirmations(sent[..|sent| - 1]) + (if sent[|sent| - 1] == ConfirmClose then 1 else 0)
  }

  lemma {:induction false} NoticeCounted(sent: seq<Notice>, notice: Notice)
    ensures Confirmations(sent + [notice]) == Confirmations(sent) + (if notice == ConfirmClose then 1 else 0)
  {
    assert (sent + [notice])[..|sent|] == sent;
  }

  /** All that one step may send. */
  lemma {:induction false} NoticesCounted(sent: seq<Notice>)
    ensures forall n: Notice :: Confirmations(sent + [n]) == Confirmations(sent) + (if n == ConfirmClose then 1 else 0)
    ensures Confirmations(sent + [ConfirmSwitch] + [WindowSwitch]) == Confirmations(sent)
    ensures Confirmations(sent + [WindowRefresh] + [ConfirmClose]) == Confirmations(sent) + 1
  {
    forall n: Notice
      ensures Confirmations(sent + [n]) == Confirmations(sent) + (if n == ConfirmClose then 1 else 0)
    {
      NoticeCounted(sent, n);
    }
    NoticeCounted(sent + [ConfirmSwitch], WindowSwitch);
    NoticeCounted(sent + [WindowRefresh], ConfirmClose);
  }

  function Closes(events: seq<Event>): nat
    decreases |events|
  {
    if events == [] then 0 else (if events[0].AppClose? then 1 else 0) + Closes(events[1..])
  }

  function LifeRun(l: Life, events: seq<Event>): Life
    decreases |events|
  {
    if events == [] then l else LifeRun(LifeStep(l, events[0]), events[1..])
  }

  predicate Active(state: State) {
    state == INITIALIZING || state == ACTIVATING || state == ACTIVE_FORGROUND || state == ACTIVE_BACKGROUND
  }

  predicate Closing(state: State) {
    state == DEACTIVATING || state == FINALIZING_CLOSE
  }

  /** One confirmation is still owed while the application is finalizing. */
  function Owed(l: Life): nat {
    if l.state == FINALIZING_CLOSE then 1 else 0
  }

  /** The first entry of the response decides: a query has its own callback, anything else needs a function. */
  predicate Answers(entries: seq<CallbackEntry>, id: nat, isQuery: bool) {
    exists i | 0 <= i < |entries| ::
      && entries[i].id == id && (forall j | 0 <= j < i :: entries[j].id != id)
      && (isQuery || entries[i].hasFunction)
  }

  lemma {:induction false} FirstEntry(entries: seq<CallbackEntry>, id: nat) returns (at: nat)
    requires EntryFor(entries, id).Some?
    ensures at < |entries| && EntryFor(entries, id) == Some(entries[at]) && entries[at].id == id
    ensures forall j | 0 <= j < at :: entries[j].id != id
    decreases |entries|
  {
    if entries[0].id == id {
      at := 0;
    } else {
      var rest := entries[1..];
      var behind := FirstEntry(rest, id);
      at := behind + 1;
      forall j | 0 < j < at
        ensures entries[j] == rest[j - 1]
      {
      }
    }
  }

  lemma {:induction false} AnswersIff(entries: seq<CallbackEntry>, id: nat, isQuery: bool)
    ensures Answers(entries, id, isQuery) <==> CallbackFor(EntryFor(entries, id), isQuery) != NullCallback
  {
    var entry := EntryFor(entries, id);
    if entry.Some? {
      var at := FirstEntry(entries, id);
      hide EntryFor;
      assert Answers(entries, id, isQuery) <==> isQuery || entries[at].hasFunction;
    } else {
      assert forall i | 0 <= i < |entries| :: entries[i] in entries;
    }
  }

  /** A response runs its callback exactly if it has one; its entries go either way. */
  lemma {:induction false} ResponseRunsExactly(l: Life, id: nat, isQuery: bool, result: bool, windowed: bool,
                                                   acts: seq<CallbackAct>)
    ensures
      LifeStep(l, AsyncResponse(id, isQuery, result, windowed, acts)).entries
      == if Answers(l.entries, id, isQuery) then ActsDone(WithoutId(l.entries, id), acts) else WithoutId(l.entries, id)
  {
    hide EntryFor, WithoutId, ActsDone, Blocking, CallbackFor, Answers;
    AnswersIff(l.entries, id, isQuery);
  }

  /** The messages that bring the application to the foreground. */
  predicate Calls(event: Event) {
    event.SwitchOnAction? || (event.SwitchLaunch? && event.forThisApp)
  }

  /** A response whose callback is run and returns true. */
  predicate Succeeds(l: Life, event: Event) {
    event.AsyncResponse? && event.result && Answers(l.entries, event.id, event.isQuery)
  }

  /** Which state every message leads to. */
  lemma StatesFollowExactly(l: Life, event: Event)
    ensures
      var after := LifeStep(l, event);
      var called := l.state in {INITIALIZING, ACTIVATING, ACTIVE_BACKGROUND} && Calls(event);
      && (after.state == ACTIVE_FORGROUND <==>
            called || (l.state == ACTIVE_FORGROUND && !event.AppClose? && !event.FocusLost?))
      && (after.state == ACTIVE_BACKGROUND <==>
            || (l.state == ACTIVE_BACKGROUND && !event.AppClose? && !called)
            || (l.state == ACTIVE_FORGROUND && event.FocusLost?))
      && (after.state == FINALIZING_CLOSE <==>
            || (event.AppClose? && Blocking(after.entries))
            || (l.state == FINALIZING_CLOSE && !event.AppClose? && !(Succeeds(l, event) && !Blocking(after.entries))))
      && (after.state == DEACTIVATING <==>
            || (event.AppClose? && !Blocking(after.entries))
            || (l.state == FINALIZING_CLOSE && Succeeds(l, event) && !Blocking(after.entries))
            || (l.state == DEACTIVATING && !event.AppClose?))
      && (after.state in {NONE, DEACTIVATED, INITIALIZING, ACTIVATING} ==> after.state == l.state)
  {
    hide EntryFor, WithoutId, ActsDone, Blocking, CallbackFor, Answers;
    if event.AsyncResponse? {
      AnswersIff(l.entries, event.id, event.isQuery);
    }
  }

  /** What every message makes the application tell the manager and itself. */
  lemma NoticesFollowExactly(l: Life, event: Event)
    ensures
      var after := LifeStep(l, event);
      var called := l.state in {INITIALIZING, ACTIVATING, ACTIVE_BACKGROUND} && Calls(event);
      after.sent == l.sent
        + (if called || (event.FocusLost? && l.state == ACTIVE_FORGROUND) then [ConfirmSwitch] else [])
        + (if event.SwitchLaunch? && event.forThisApp && (l.state == ACTIVE_FORGROUND || (called && event.confirmed))
           then [WindowSwitch] else [])
        + (if Succeeds(l, event) && event.windowed then [WindowRefresh] else [])
        + (if event.AppClose? && Blocking(after.entries) then [FinalizingClose] else [])
        + (if !Blocking(after.entries) && (event.AppClose? || (l.state == FINALIZING_CLOSE && Succeeds(l, event)))
           then [ConfirmClose] else [])
  {
    hide EntryFor, WithoutId, ActsDone, Blocking, CallbackFor, Answers;
    if event.AsyncResponse? {
      AnswersIff(l.entries, event.id, event.isQuery);
    }
  }

  /** When a step confirms the close: exactly then, with nothing blocking left, and only once. */
  lemma ConfirmsExactlyWhen(l: Life, event: Event)
    ensures
      var after := LifeStep(l, event);
      var confirmed := Confirmations(after.sent) - Confirmations(l.sent);
      && (confirmed == 0 || confirmed == 1)
      && (confirmed == 1 <==>
            && !Blocking(after.entries)
            && (event.AppClose? || (l.state == FINALIZING_CLOSE && Succeeds(l, event))))
  {
    hide ActsDone, WithoutId, EntryFor, Confirmations, Blocking, Answers, CallbackFor;
    if event.AsyncResponse? {
      AnswersIff(l.entries, event.id, event.isQuery);
    }
    NoticesCounted(l.sent);
  }

  /**
   Confirmations, with the one that may be owed, change only on a close request: it is confirmed at once or leaves
   one owed, and one that was owed already is not owed twice.
   */
  lemma StepKeepsAccount(l: Life, event: Event)
    ensures
      var after := LifeStep(l, event);
      Confirmations(after.sent) + Owed(after) == Confirmations(l.sent) + (if event.AppClose? then 1 else Owed(l))
    ensures Closing(l.state) ==> Closing(LifeStep(l, event).state)
    ensures event.AppClose? ==> Closing(LifeStep(l, event).state)
  {
    hide ActsDone, WithoutId, EntryFor, Confirmations;
    NoticesCounted(l.sent);
  }

  /** The close requests that arrive while the confirmation of an earlier one is still owed. */
  function Repeated(l: Life, events: seq<Event>): nat
    decreases |events|
  {
    if events == [] then 0
    else (if events[0].AppClose? then Owed(l) else 0) + Repeated(LifeStep(l, events[0]), events[1..])
  }

  /**
   On every run, every close request is confirmed once or still owed, except that requests repeated while one is
   owed share its confirmation; and once a close request came in, no message makes the application active again.
   */
  lemma {:induction false} CloseIsSafe(l: Life, events: seq<Event>)
    ensures
      var after := LifeRun(l, events);
      && Confirmations(after.sent) + Owed(after) + Repeated(l, events)
         == Confirmations(l.sent) + Owed(l) + Closes(events)
      && (Closing(l.state) || Closes(events) > 0 ==> Closing(after.state) && !Active(after.state))
    decreases |events|
  {
    if events != [] {
      StepKeepsAccount(l, events[0]);
      CloseIsSafe(LifeStep(l, events[0]), events[1..]);
    }
  }

  /**
   From its start on, an application confirms no more closes than were requested; once one was requested, it has
   confirmed one or is finalizing, and is not active.
   */
  lemma {:induction false} CloseIsSafeFromStart(startInBackground: bool, events: seq<Event>)
    ensures
      var after := LifeRun(Initialised(startInBackground), events);
      && Confirmations(after.sent) <= Closes(events)
      && (Closes(events) > 0 ==>
            !Active(after.state) && (Confirmations(after.sent) > 0 || after.state == FINALIZING_CLOSE))
  {
    var start := Initialised(startInBackground);
    CloseIsSafe(start, events);
    NoticeCounted([], ApplicationInitialised);
    assert [] + [ApplicationInitialised] == start.sent;
    RepeatsNeedAnother(start, events);
  }

  /** A request is repeated only after another. */
  lemma {:induction false} RepeatsNeedAnother(l: Life, events: seq<Event>)
    ensures Repeated(l, events) <= Closes(events)
    ensures l.state != FINALIZING_CLOSE && Closes(events) > 0 ==> Repeated(l, events) < Closes(events)
    decreases |events|
  {
    if events != [] {
      StepKeepsAccount(l, events[0]);
      RepeatsNeedAnother(LifeStep(l, events[0]), events[1..]);
    }
  }

  /** A confirmation along a run always goes out with no blocking request pending. */
  lemma {:induction false} ConfirmedOnlyUnblocked(l: Life, events: seq<Event>, k: nat)
    requires k < |events|
    ensures
      var before := LifeRun(l, events[..k]);
      var after := LifeRun(l, events[..k + 1]);
      Confirmations(after.sent) > Confirmations(before.sent) ==>
        forall e | e in after.entries :: e.behavior != WaitForResponseToClose
    decreases k
  {
    if k == 0 {
      assert events[..1] == [events[0]] && events[..0] == [];
      assert [events[0]][1..] == [];
      ConfirmsExactlyWhen(l, events[0]);
    } else {
      assert events[..k][1..] == events[1..][..k - 1];
      assert events[..k + 1][1..] == events[1..][..k];
      ConfirmedOnlyUnblocked(LifeStep(l, events[0]), events[1..], k - 1);
    }
  }

  /**
   A finalizing application stays unconfirmed until a response whose callback reports success finds nothing
   blocking: cancelling the last blocking request, or a callback that returns false, does not confirm.
   */
  lemma {:induction false} UnconfirmedWithoutSuccess(l: Life, events: seq<Event>)
    requires l.state == FINALIZING_CLOSE
    requires forall e | e in events :: !e.AppClose? && !(e.AsyncResponse? && e.result)
    ensures LifeRun(l, events).state == FINALIZING_CLOSE
    ensures Confirmations(LifeRun(l, events).sent) == Confirmations(l.sent)
    decreases |events|
  {
    hide ActsDone, WithoutId, EntryFor, Blocking, Confirmations;
    if events != [] {
      assert events[0] in events;
      ConfirmsExactlyWhen(l, events[0]);
      UnconfirmedWithoutSuccess(LifeStep(l, events[0]), events[1..]);
    }
  }
}
