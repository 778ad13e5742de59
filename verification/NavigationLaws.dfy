/** What a user of an application can count on when it moves between windows. */
module NavigationLaws {
  import opened Options
  import opened Popups
  import opened WindowsStackModel
  import opened PopupQueue
  import opened AppNavigation
  import opened RequestLaws

  ghost predicate OnStack(stack: seq<WindowData>, name: string) {
    exists w :: w in stack && w.name == name
  }

  lemma {:induction false} OnStackIff(stack: seq<WindowData>, name: string)
    ensures OnStack(stack, name) <==> FindInStack(stack, name).Some?
  {
    if FindInStack(stack, name).Some? {
      assert stack[FindInStack(stack, name).value] in stack;
    }
  }

  /**
   A pushed window with a name ends up on top, on what is left of the former stack from the bottom up. It fails
   only for a name that is neither on the stack nor registered. A window that was on the stack stays as it was;
   any other is built for the occasion, placed as asked, on top of all the rest.
   */
  lemma PushedWindowIsOnTop(c: Config, n: Nav, name: string, d: Disposition)
    requires Consistent(c, n) && name != ""
    ensures
      var outcome := PushedWindow(c, n, name, d);
      && (outcome.Thrown? <==> name !in c.registered)
      && (outcome.Thrown? ==> outcome.nav == n)
      && (outcome.Ran? ==>
            var stack := outcome.nav.stack;
            stack != [] && stack[|stack| - 1].name == name && stack[..|stack| - 1] <= n.stack)
      && (outcome.Ran? && OnStack(n.stack, name) ==> outcome.nav.stack <= n.stack && outcome.nav.windows == n.windows)
      && (outcome.Ran? && !OnStack(n.stack, name) ==>
            && outcome.nav.stack == n.stack + [WindowData(name, d)]
            && outcome.nav.windows == n.windows[name := n.generation] && outcome.nav.generation == n.generation + 1)
  {
    OnStackIff(n.stack, name);
    var at := FindInStack(n.stack, name);
    if at.Some? {
      assert n.stack[at.value].name in n.windows;
      assert n.stack[..at.value + 1][..at.value] == n.stack[..at.value];
    } else {
      assert (n.stack + [WindowData(name, d)])[..|n.stack|] == n.stack;
    }
  }

  /** The shutdown window is brought on top if the application has it. */
  lemma ShutdownWindowIsOnTop(c: Config, n: Nav, name: string)
    requires Consistent(c, n) && name != ""
    ensures
      var outcome := NavStep(c, n, RequestShutdownWindow(name));
      && outcome.Ran?
      && (name !in c.registered ==> outcome.nav == n)
      && (name in c.registered ==> outcome.nav.stack != [] && outcome.nav.stack[|outcome.nav.stack| - 1].name == name)
  {
    if name in c.registered {
      PushedWindowIsOnTop(c, n, name, WINDOW_DISPOSITION);
    }
  }

  /** A push without a name only empties a stack of one window. */
  lemma EmptyNameEmptiesLast(c: Config, n: Nav, d: Disposition)
    requires |n.stack| == 1
    ensures PushedWindow(c, n, "", d) == Ran(n.(stack := []))
  {
  }

  /** Asking for the current window is harmless where there is one, and otherwise builds the default one. */
  lemma CurrentWindowIsThere(c: Config, n: Nav)
    ensures n.stack != [] ==> CurrentWindow(c, n) == Ran(n)
    ensures n.stack == [] ==>
      var outcome := CurrentWindow(c, n);
      && (outcome.Thrown? <==> c.defaultWindow !in c.registered)
      && (outcome.Ran? ==>
            && outcome.nav.stack == [WindowData(c.defaultWindow, Disposition(Normal, NormalWindow, Invalid))]
            && outcome.nav.windows == n.windows[c.defaultWindow := n.generation])
  {
  }

  /** Taking a window out takes out the first of its name, and going back to it leaves nothing above it. */
  lemma FirstOfNameGoes(stack: seq<WindowData>, name: string)
    ensures !OnStack(stack, name) ==> Dropped(stack, name) == stack == PoppedTo(stack, name)
    ensures OnStack(stack, name) ==>
      exists below, w, above ::
        && stack == below + [w] + above && w.name == name && (forall v | v in below :: v.name != name)
        && Dropped(stack, name) == below + above && PoppedTo(stack, name) == below + [w]
  {
    OnStackIff(stack, name);
    var at := FindInStack(stack, name);
    if at.Some? {
      var below, w, above := stack[..at.value], stack[at.value], stack[at.value + 1..];
      assert stack == below + [w] + above;
      assert Dropped(stack, name) == below + above;
      assert PoppedTo(stack, name) == below + [w];
    }
  }

  /** Switching posts a message to the window named, or to the one on top, as a plain window. */
  lemma SwitchPostsTo(c: Config, n: Nav, name: string)
    requires n.stack != []
    ensures
      var target := if name == "" then n.stack[|n.stack| - 1].name else name;
      var plain := Disposition(Normal, NormalWindow, Invalid);
      SwitchPosted(c, n, name) == Ran(n.(outbox := n.outbox + [SwitchWindow(target, plain)]))
  {
  }

  /** From the last window there is no way back but to the application before. */
  lemma GoingBackFromLast(c: Config, n: Nav)
    requires |n.stack| <= 1
    ensures ReturnedToPrevious(c, n) == Ran(n.(outbox := n.outbox + [SwitchBack]))
  {
  }

  /** The same of aborting a popup that lies under everything. */
  lemma AbortOfBottomGoesBack(c: Config, n: Nav, id: PopupId)
    requires n.stack != [] && n.stack[0].name == ResolveWindowName(id)
    requires id != Tethering || !OnStack(n.stack, PHONE_LOCK_WINDOW)
    ensures AbortedPopup(c, n, id) == Ran(n.(stack := [n.stack[0]], outbox := n.outbox + [SwitchBack]))
  {
    hide ResolveWindowName;
    OnStackIff(n.stack, PHONE_LOCK_WINDOW);
    assert n.stack[..1] == [n.stack[0]];
  }

  lemma {:induction false} FindAt(stack: seq<WindowData>, at: nat)
    requires NoNameTwice(stack) && at < |stack|
    ensures FindInStack(stack, stack[at].name) == Some(at)
  {
  }

  lemma PrefixHasNoNameTwice(stack: seq<WindowData>, size: nat)
    requires NoNameTwice(stack) && size <= |stack|
    ensures NoNameTwice(stack[..size])
  {
  }

  /** The popup that comes next is the SIM information, and there is a SIM lock window for it to take away. */
  predicate UnlocksSim(c: Config, requests: seq<Request>, stack: seq<WindowData>) {
    var request := Popped(requests, Filtered(c, stack)).1;
    && request.Some? && request.value.params.popupId == SimInfo
    && FindInStack(stack, ResolveWindowName(SimLock)).Some?
  }

  /** What is left of a stack once it has been shown and the next popup had its chance. */
  function Settled(c: Config, requests: seq<Request>, stack: seq<WindowData>): seq<WindowData> {
    if UnlocksSim(c, requests, stack) then Dropped(stack, ResolveWindowName(SimLock)) else stack
  }

  /**
   Going back, and handling the message that going back sends, removes exactly the top window; if the window
   below is the SIM information popup, that one goes too. Nothing else goes, exactly unless the next popup is the
   SIM information and takes the SIM lock window away.
   */
  lemma GoingBackRemovesTop(c: Config, n: Nav, handled: bool)
    requires Consistent(c, n) && |n.stack| >= 2
    requires forall i | 0 <= i < |n.stack| :: n.stack[i].name != ""
    requires n.stack[|n.stack| - 2].name == ResolveWindowName(SimInfo) ==> |n.stack| >= 3
    ensures
      var back := ReturnedToPrevious(c, n);
      var skip := if n.stack[|n.stack| - 2].name == ResolveWindowName(SimInfo) then 2 else 1;
      var target, left := n.stack[|n.stack| - 1 - skip].name, n.stack[..|n.stack| - skip];
      && back.Ran?
      && back.nav.outbox == n.outbox + [SwitchWindow(target, WINDOW_DISPOSITION)]
      && (var shown := Switched(c, back.nav, target, WINDOW_DISPOSITION, false, false, handled);
          && shown.Ran? && shown.nav.stack == Settled(c, n.requests, left)
          && (shown.nav.stack == left <==> !UnlocksSim(c, n.requests, left)))
  {
    hide UnlocksSim, Settled, Switched;
    var size := |n.stack|;
    var previous := n.stack[size - 2];
    FindAt(n.stack, size - 2);
    var popped := n.(stack := PoppedTo(n.stack, previous.name));
    assert popped.stack == n.stack[..size - 1];
    PrefixHasNoNameTwice(n.stack, size - 1);
    var skip := if previous.name == ResolveWindowName(SimInfo) then 2 else 1;
    var target := n.stack[size - 1 - skip].name;
    assert popped.stack[size - 1 - skip] == n.stack[size - 1 - skip];
    FindAt(popped.stack, size - 1 - skip);
    assert target in n.windows && target in c.registered;
    var back := ReturnedToPrevious(c, n);
    assert back == Ran(popped.(outbox := n.outbox + [SwitchWindow(target, WINDOW_DISPOSITION)]));
    SwitchToStacked(c, back.nav, size - 1 - skip, handled);
    assert popped.stack[..size - skip] == n.stack[..size - skip];
  }

  /** Switching to a window on the stack brings it to the top over what was below, unless the SIM is unlocked. */
  lemma SwitchToStacked(c: Config, n: Nav, at: nat, handled: bool)
    requires at < |n.stack| && FindInStack(n.stack, n.stack[at].name) == Some(at)
    requires n.stack[at].name != "" && n.stack[at].name in c.registered
    ensures
      var shown := Switched(c, n, n.stack[at].name, WINDOW_DISPOSITION, false, false, handled);
      var left := n.stack[..at + 1];
      && shown.Ran? && shown.nav.stack == Settled(c, n.requests, left)
      && (shown.nav.stack == left <==> !UnlocksSim(c, n.requests, left))
  {
    var pushed := PushedWindow(c, n, n.stack[at].name, WINDOW_DISPOSITION);
    assert pushed == Ran(n.(stack := n.stack[..at + 1]));
    TriedSettles(c, pushed.nav, handled);
  }

  /** A switch message for a window that is not registered is ignored. */
  lemma UnknownWindowIgnored(c: Config, n: Nav, name: string, d: Disposition, ignoreCurrent: bool, textShown: bool,
                             handled: bool)
    requires name !in c.registered
    ensures Switched(c, n, name, d, ignoreCurrent, textShown, handled) == Ran(n)
  {
  }

  /** The windows that a switch message builds on: all of them, or all but the top one if that is to be left out. */
  function SwitchedFrom(n: Nav, ignoreCurrent: bool): seq<WindowData> {
    if ignoreCurrent && n.stack != [] then n.stack[..|n.stack| - 1] else n.stack
  }

  /**
   A switch message for a registered window puts it on top of what was below it, or of all there was. If the window
   takes in a text, or no popup comes next, the window on top is redrawn; otherwise the popup is shown. Either way
   that is the one message sent, unless no window is left.
   */
  lemma SwitchShowsExactly(c: Config, n: Nav, name: string, d: Disposition, ignoreCurrent: bool, textShown: bool,
                           handled: bool)
    requires Consistent(c, n) && name in c.registered && name != "" && SwitchedFrom(n, ignoreCurrent) != []
    ensures
      var from := SwitchedFrom(n, ignoreCurrent);
      var stack := if OnStack(from, name) then PoppedTo(from, name) else from + [WindowData(name, d)];
      var left := if textShown then stack else Settled(c, n.requests, stack);
      var popup := !textShown && handled && LetsThrough(c, stack, n.requests);
      var outcome := Switched(c, n, name, d, ignoreCurrent, textShown, handled);
      && outcome.Ran? && outcome.nav.stack == left
      && n.outbox <= outcome.nav.outbox
      && |outcome.nav.outbox| == |n.outbox| + (if popup || left != [] then 1 else 0)
      && (popup ==> outcome.nav.outbox[|n.outbox|].ShowPopup?)
      && (!popup && left != [] ==> outcome.nav.outbox[|n.outbox|] == Refresh(left[|left| - 1].name))
      && (textShown ==> outcome.nav.requests == n.requests)
  {
    hide Settled, UnlocksSim, PopupTried, LetsThrough, HandsOut, Permits, FindInStack;
    var from := n.(stack := SwitchedFrom(n, ignoreCurrent));
    OnStackIff(from.stack, name);
    var pushed := PushedWindow(c, from, name, d);
    PushedHas(c, from, name, d);
    CurrentWindowIsThere(c, from);
    CurrentWindowIsThere(c, pushed.nav);
    assert Switched(c, n, name, d, ignoreCurrent, textShown, handled)
        == Ran(Displayed(c, pushed.nav, textShown, handled));
    TriedSettles(c, pushed.nav, handled);
    TriedSends(c, pushed.nav, handled);
  }

  lemma PushedHas(c: Config, n: Nav, name: string, d: Disposition)
    requires name in c.registered && name != ""
    ensures
      var pushed := PushedWindow(c, n, name, d);
      && pushed.Ran? && pushed.nav.stack != [] && pushed.nav.requests == n.requests && pushed.nav.outbox == n.outbox
      && pushed.nav.stack
         == if FindInStack(n.stack, name).Some? then PoppedTo(n.stack, name) else n.stack + [WindowData(name, d)]
  {
  }

  lemma TriedSends(c: Config, n: Nav, handled: bool)
    ensures
      var (after, shown) := PopupTried(c, n, handled);
      && (shown <==> handled && LetsThrough(c, n.stack, n.requests))
      && (shown ==> |after.outbox| == |n.outbox| + 1 && n.outbox <= after.outbox && after.outbox[|n.outbox|].ShowPopup?)
      && (!shown ==> after.outbox == n.outbox)
  {
    hide Dropped, Popped, ResolveWindowName, Permits;
    PoppedHolds(n.requests, Filtered(c, n.stack));
  }

  lemma TriedSettles(c: Config, n: Nav, handled: bool)
    ensures
      var tried := PopupTried(c, n, handled).0;
      && tried.stack == Settled(c, n.requests, n.stack)
      && (tried.stack == n.stack <==> !UnlocksSim(c, n.requests, n.stack))
  {
  }

  /** Aborting a popup that lies on other windows leaves the stack as it was below the popup. */
  lemma AbortUncoversWhatWasBelow(c: Config, n: Nav, id: PopupId, at: nat)
    requires Consistent(c, n) && 1 <= at < |n.stack| && n.stack[at].name == ResolveWindowName(id)
    requires id != Tethering || FindInStack(n.stack, PHONE_LOCK_WINDOW).None?
    requires n.stack[at - 1].name == ResolveWindowName(SimInfo) ==> at >= 2
    ensures
      var aborted := AbortedPopup(c, n, id);
      aborted.Ran? && aborted.nav.stack == n.stack[..at] && |aborted.nav.outbox| == |n.outbox| + 1
  {
    hide ResolveWindowName, FindInStack, NoNameTwice;
    FindAt(n.stack, at);
    var cut := n.(stack := PoppedTo(n.stack, ResolveWindowName(id)));
    assert cut.stack == n.stack[..at + 1];
    PrefixHasNoNameTwice(n.stack, at + 1);
    assert DataAt(cut.stack, PREVIOUS_WINDOW) == Some(n.stack[at - 1]);
    FindAt(cut.stack, at - 1);
    assert cut.stack[..at] == n.stack[..at];
  }

  /** Aborting a popup that is not there changes nothing. */
  lemma AbortOfAbsentChangesNothing(c: Config, n: Nav, id: PopupId)
    requires n.stack != [] && FindInStack(n.stack, ResolveWindowName(id)).None?
    ensures AbortedPopup(c, n, id) == Ran(n)
  {
  }

  /** Aborting the tethering popup on a locked phone takes that window alone and never the lock. */
  lemma TetheringAbortKeepsLock(c: Config, n: Nav)
    requires Consistent(c, n) && FindInStack(n.stack, PHONE_LOCK_WINDOW).Some?
    ensures
      var aborted := AbortedPopup(c, n, Tethering);
      && aborted.Ran? && PartOf(aborted.nav.stack, n.stack)
      && FindInStack(aborted.nav.stack, PHONE_LOCK_WINDOW).Some?
      && forall w :: w in aborted.nav.stack <==> w in n.stack && w.name != ResolveWindowName(Tethering)
  {
    var name := ResolveWindowName(Tethering);
    DroppedIsPart(n.stack, name);
    DroppedHolds(n.stack, name);
    var lock := FindInStack(n.stack, PHONE_LOCK_WINDOW).value;
    assert PHONE_LOCK_WINDOW[0] != name[0];
    assert n.stack[lock] in n.stack;
    assert n.stack[lock] in Dropped(n.stack, name);
  }

  lemma DroppedHolds(stack: seq<WindowData>, name: string)
    requires NoNameTwice(stack)
    ensures forall w :: w in Dropped(stack, name) <==> w in stack && w.name != name
  {
    var at := FindInStack(stack, name);
    if at.Some? {
      forall w
        ensures w in Dropped(stack, name) <==> w in stack && w.name != name
      {
        RemovalHolds(stack, at.value, w);
      }
    }
  }

  lemma RemovalHolds(stack: seq<WindowData>, at: nat, w: WindowData)
    requires NoNameTwice(stack) && at < |stack|
    ensures w in stack[..at] + stack[at + 1..] <==> w in stack && w.name != stack[at].name
  {
    var rest := stack[..at] + stack[at + 1..];
    if w in stack && w.name != stack[at].name {
      var j :| 0 <= j < |stack| && stack[j] == w;
      assert w == if j < at then rest[j] else rest[j - 1];
    }
    if w in rest {
      var j :| 0 <= j < |rest| && rest[j] == w;
      assert w == stack[if j < at then j else j + 1];
    }
  }

  // ---------------------------------------------------------------------------------------------
  // Popups that were not let through

  /**
   Under any application filters, the popup shown is one that is let through, in whatever order the requests came
   in, exactly when of the highest priority that has a request let through the application accepts all, and the
   top of the stack either has no higher priority or is the very popup that all of them ask for.
   */
  lemma {:induction false} ShownPopupIsPermittedIff(c: Config, stack: seq<WindowData>, arrivals: seq<Request>,
                                                    rank: nat)
    requires BestRank(arrivals, Filtered(c, stack)) == Some(rank)
    ensures (forall order: seq<Request> | multiset(order) == multiset(arrivals) ::
               PopsPermitted(order, Filtered(c, stack)))
       <==> && (forall r | r in arrivals && r.Rank() == rank :: AppPermits(c.filters, r.params))
            && (stack == []
                || stack[|stack| - 1].disposition.priority.Rank() <= rank
                || forall r | r in arrivals && r.Rank() == rank ::
                     r.params.popupId == stack[|stack| - 1].disposition.id)
  {
    hide PopsPermitted, AppPermits;
    PopsPermittedInEveryOrderIff(arrivals, Filtered(c, stack), rank);
  }

  /** An urgent popup on top, and two requests of normal priority: the second asks for the popup on top. */
  lemma RefusedPopupIsShown()
    ensures
      var stack := [WindowData("AlarmPopup", Disposition(High, PopupWindow, Alarm))];
      var first := Request(PopupParams(Volume, Disposition(Normal, PopupWindow, Volume)), 0);
      var second := Request(PopupParams(Alarm, Disposition(Normal, PopupWindow, Alarm)), 1);
      var permitted := params => Permits([], stack, params);
      && Popped(Inserted(Inserted([], first), second), permitted) == ([second], Some(first))
      && !permitted(first.params) && permitted(second.params)
  {
    var stack := [WindowData("AlarmPopup", Disposition(High, PopupWindow, Alarm))];
    var first := Request(PopupParams(Volume, Disposition(Normal, PopupWindow, Volume)), 0);
    var second := Request(PopupParams(Alarm, Disposition(Normal, PopupWindow, Alarm)), 1);
    var permitted := params => Permits([], stack, params);
    var requests := [first, second];
    assert [first][1..] == [] && requests[1..] == [second];
    assert Inserted(Inserted([], first), second) == requests;
    assert FirstPermitted([second], permitted) == Some(0);
    assert FirstPermitted(requests, permitted) == Some(1);
    assert RemovedAt(requests, 0) == [second];
  }
}
