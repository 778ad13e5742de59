/**
 What becomes of popup requests: an accepted one waits in the queue or has been handed out, once.
 */
module RequestLaws {
  import opened Options
  import opened Popups
  import opened WindowsStackModel
  import opened PopupQueue
  import opened AppNavigation

  /** Neither on top already, if that is to be ignored, nor removed by one of the application's filters. */
  predicate Accepts(c: Config, n: Nav, params: PopupParams, ignoreIfOnTop: bool)
    requires n.stack != []
  {
    && !(ignoreIfOnTop && params.popupId == n.stack[|n.stack| - 1].disposition.id)
    && forall i | 0 <= i < |c.filters| ::
         c.filters[i].Some? && c.filters[i].value(PopupParams(params.popupId, WINDOW_DISPOSITION)) != Remove
  }

  /** What is queued for a request: it is placed as it asks, if that is as a popup. */
  function Placed(params: PopupParams, stamp: nat): (r: Request)
    ensures r.params.popupId == params.popupId && r.params.disposition.windowType == PopupWindow
    ensures params.disposition.windowType == PopupWindow ==> r.params == params
  {
    Request(PopupParams(params.popupId, if params.disposition.windowType == PopupWindow then params.disposition
                                        else Disposition(Normal, PopupWindow, params.popupId)), stamp)
  }

  /** The requests that were handed to their windows. */
  function Shown(outbox: seq<Message>): multiset<Request> {
    if outbox == [] then multiset{}
    else
      var last := outbox[|outbox| - 1];
      Shown(outbox[..|outbox| - 1]) + (if last.ShowPopup? then multiset{last.request} else multiset{})
  }

  lemma {:induction false} ShownNext(outbox: seq<Message>, m: Message)
    ensures Shown(outbox + [m]) == Shown(outbox) + (if m.ShowPopup? then multiset{m.request} else multiset{})
  {
    assert (outbox + [m])[..|outbox|] == outbox;
  }

  // ---------------------------------------------------------------------------------------------
  // The queue

  lemma {:induction false} InsertedHolds(requests: seq<Request>, r: Request)
    ensures multiset(Inserted(requests, r)) == multiset(requests) + multiset{r}
    decreases |requests|
  {
    if requests != [] && requests[0].Rank() >= r.Rank() {
      InsertedHolds(requests[1..], r);
      assert requests == [requests[0]] + requests[1..];
    }
  }

  lemma RemovedHolds<T>(s: seq<T>, at: nat)
    requires at < |s|
    ensures multiset(RemovedAt(s, at)) + multiset{s[at]} == multiset(s)
  {
    assert s == s[..at] + [s[at]] + s[at + 1..];
  }

  lemma PoppedHolds(requests: seq<Request>, permitted: PopupParams -> bool)
    ensures
      var (left, request) := Popped(requests, permitted);
      && multiset(left) + (if request.Some? then multiset{request.value} else multiset{}) == multiset(requests)
      && (request.None? <==> forall r | r in requests :: !permitted(r.params))
  {
    var accepted := FirstPermitted(requests, permitted);
    if accepted.Some? {
      assert requests[accepted.value] in requests;
      var extracted := FirstOfClass(requests, requests[accepted.value].Rank());
      assert extracted.Some?;
      RemovedHolds(requests, extracted.value);
    }
  }

  // ---------------------------------------------------------------------------------------------
  // One call

  /**
   From `before` requests to `after`, at most one has gone, and exactly if some request was let through; it was
   handed to its window if that was handled.
   */
  ghost predicate HandsOut(before: seq<Request>, n: Nav, after: Nav, letThrough: bool, handled: bool) {
    var gone := multiset(before) - multiset(after.requests);
    && multiset(after.requests) <= multiset(before)
    && |gone| == (if letThrough then 1 else 0)
    && Shown(after.outbox) == Shown(n.outbox) + (if handled then gone else multiset{})
    && |after.outbox| == |n.outbox| + (if handled then |gone| else 0)
    && n.outbox <= after.outbox
    && after.windows == n.windows && after.generation == n.generation
  }

  ghost predicate LetsThrough(c: Config, stack: seq<WindowData>, requests: seq<Request>) {
    exists r | r in requests :: Filtered(c, stack)(r.params)
  }

  lemma TriedHandsOut(c: Config, n: Nav, handled: bool)
    ensures
      var (after, shown) := PopupTried(c, n, handled);
      && HandsOut(n.requests, n, after, LetsThrough(c, n.stack, n.requests), handled)
      && (shown <==> handled && LetsThrough(c, n.stack, n.requests))
  {
    hide Shown, Popped, Dropped, ResolveWindowName, Permits;
    PoppedHolds(n.requests, Filtered(c, n.stack));
    var (left, request) := Popped(n.requests, Filtered(c, n.stack));
    if request.Some? {
      ShownNext(n.outbox, ShowPopup(request.value));
      assert multiset(n.requests) - multiset(left) == multiset{request.value};
    } else {
      assert multiset(n.requests) - multiset(left) == multiset{};
    }
  }

  /**
   A popup request is conserved. If it is accepted, the queue afterwards and what left it are the queue before and
   one request with its id, in popup placement; otherwise nothing changes.
   */
  lemma RequestIsConserved(c: Config, n: Nav, params: PopupParams, stamp: nat, ignoreIfOnTop: bool, handled: bool)
    requires n.stack != []
    ensures
      var outcome := Requested(c, n, params, stamp, ignoreIfOnTop, handled);
      && outcome.Ran?
      && (!Accepts(c, n, params, ignoreIfOnTop) ==> outcome.nav == n)
      && (Accepts(c, n, params, ignoreIfOnTop) ==>
            var queued := n.requests + [Placed(params, stamp)];
            HandsOut(queued, n, outcome.nav, LetsThrough(c, n.stack, queued), handled))
  {
    RequestedIs(c, n, params, stamp, ignoreIfOnTop, handled);
    hide Shown, Inserted, Requested, PopupTried, LetsThrough, HandsOut, Accepts, Filtered;
    if Accepts(c, n, params, ignoreIfOnTop) {
      var r := Placed(params, stamp);
      var queued := n.(requests := Inserted(n.requests, r));
      InsertedHolds(n.requests, r);
      assert multiset(n.requests + [r]) == multiset(queued.requests);
      TriedHandsOut(c, queued, handled);
      LetsThroughAlike(c, n.stack, queued.requests, n.requests + [r]);
      HandsOutAlike(queued.requests, n.requests + [r], queued, n, PopupTried(c, queued, handled).0,
                    LetsThrough(c, n.stack, queued.requests), handled);
    }
  }

  lemma RequestedIs(c: Config, n: Nav, params: PopupParams, stamp: nat, ignoreIfOnTop: bool, handled: bool)
    requires n.stack != []
    ensures
      Requested(c, n, params, stamp, ignoreIfOnTop, handled)
      == Ran(if !Accepts(c, n, params, ignoreIfOnTop) then n
             else PopupTried(c, n.(requests := Inserted(n.requests, Placed(params, stamp))), handled).0)
  {
    hide Inserted, PopupTried, AppAdds;
    AddsIff(c.filters, PopupParams(params.popupId, WINDOW_DISPOSITION));
  }

  lemma LetsThroughAlike(c: Config, stack: seq<WindowData>, a: seq<Request>, b: seq<Request>)
    requires multiset(a) == multiset(b)
    ensures LetsThrough(c, stack, a) == LetsThrough(c, stack, b)
  {
    hide Filtered;
    SameRequests(a, b);
  }

  /** Only how often each request was there matters. */
  lemma HandsOutAlike(before: seq<Request>, same: seq<Request>, n: Nav, m: Nav, after: Nav, letThrough: bool,
                      handled: bool)
    requires HandsOut(before, n, after, letThrough, handled) && multiset(before) == multiset(same)
    requires m == n.(requests := m.requests)
    ensures HandsOut(same, m, after, letThrough, handled)
  {
  }

  lemma {:induction false} AddsIff(filters: seq<AppFilter>, params: PopupParams)
    ensures AppAdds(filters, params)
       <==> forall i | 0 <= i < |filters| :: filters[i].Some? && filters[i].value(params) != Remove
    decreases |filters|
  {
    if filters != [] {
      AddsIff(filters[1..], params);
      assert forall i | 0 < i < |filters| :: filters[i] == filters[1..][i - 1];
      assert forall i | 0 <= i < |filters[1..]| :: filters[1..][i] == filters[i + 1];
    }
  }

  // ---------------------------------------------------------------------------------------------
  // Runs

  /** What an operation asks for, if it is a popup request that is accepted. */
  function Asked(c: Config, n: Nav, op: NavOp): multiset<Request> {
    if op.RequestPopup? && n.stack != [] && Accepts(c, n, op.params, op.ignoreIfOnTop)
    then multiset{Placed(op.params, op.stamp)} else multiset{}
  }

  function AskedAlong(c: Config, n: Nav, ops: seq<NavOp>): multiset<Request>
    decreases |ops|
  {
    if ops == [] then multiset{}
    else
      match NavStep(c, n, ops[0])
      case Thrown(_) => Asked(c, n, ops[0])
      case Ran(next) => Asked(c, n, ops[0]) + AskedAlong(c, next, ops[1..])
  }

  /** The requests that are waiting or were handed out. */
  function Account(n: Nav): multiset<Request> {
    multiset(n.requests) + Shown(n.outbox)
  }

  /** Nothing is thrown away: the queue is not cleared, and every popup handed out is handled. */
  predicate LosesNothing(op: NavOp) {
    && !op.ClearPendingPopups?
    && (op.HandleSwitch? ==> op.handled) && (op.RequestPopup? ==> op.handled) && (op.TryShowPopup? ==> op.handled)
  }

  lemma HandedOutAccount(before: seq<Request>, n: Nav, after: Nav, letThrough: bool, handled: bool)
    requires HandsOut(before, n, after, letThrough, handled)
    ensures Account(after) <= multiset(before) + Shown(n.outbox)
    ensures handled ==> Account(after) == multiset(before) + Shown(n.outbox)
    ensures Shown(n.outbox) <= Shown(after.outbox)
  {
    hide Shown;
    var gone := multiset(before) - multiset(after.requests);
    assert multiset(after.requests) + gone == multiset(before);
  }

  /** Nothing happens to the queue, and at most one message is sent, which is not a popup. */
  predicate SendsNoPopup(n: Nav, after: Nav) {
    && after.requests == n.requests
    && (after.outbox == n.outbox
        || (&& after.outbox != [] && after.outbox[..|after.outbox| - 1] == n.outbox
            && !after.outbox[|after.outbox| - 1].ShowPopup?))
  }

  lemma NoPopupAccount(n: Nav, after: Nav)
    requires SendsNoPopup(n, after)
    ensures Account(after) == Account(n) && Shown(n.outbox) == Shown(after.outbox)
  {
  }

  /** One message at the end. */
  lemma SentLast(outbox: seq<Message>, m: Message)
    ensures
      var sent := outbox + [m];
      sent != [] && sent[..|sent| - 1] == outbox && sent[|sent| - 1] == m
  {
  }

  lemma CurrentSendsNothing(c: Config, n: Nav)
    ensures CurrentWindow(c, n).nav.requests == n.requests && CurrentWindow(c, n).nav.outbox == n.outbox
  {
  }

  lemma PushSendsNothing(c: Config, n: Nav, name: string, d: Disposition)
    ensures PushedWindow(c, n, name, d).nav.requests == n.requests && PushedWindow(c, n, name, d).nav.outbox == n.outbox
  {
  }

  lemma SwitchSendsNoPopup(c: Config, n: Nav, name: string)
    ensures SendsNoPopup(n, SwitchPosted(c, n, name).nav)
  {
    CurrentSendsNothing(c, n);
    if CurrentWindow(c, n).Ran? {
      var current := CurrentWindow(c, n).nav;
      var target := if name == "" then current.stack[|current.stack| - 1].name else name;
      SentLast(n.outbox, SwitchWindow(target, WINDOW_DISPOSITION));
    }
  }

  lemma ReturnSendsNoPopup(c: Config, n: Nav)
    ensures SendsNoPopup(n, ReturnedToPrevious(c, n).nav)
  {
    hide SwitchPosted, ResolveWindowName;
    var previous := DataAt(n.stack, PREVIOUS_WINDOW);
    if previous.None? {
      SentLast(n.outbox, SwitchBack);
    } else {
      var popped := n.(stack := PoppedTo(n.stack, previous.value.name));
      SwitchSendsNoPopup(c, popped, previous.value.name);
      var deeper := DataAt(popped.stack, PREVIOUS_WINDOW);
      if deeper.Some? {
        SwitchSendsNoPopup(c, popped, deeper.value.name);
      }
    }
  }

  lemma AbortSendsNoPopup(c: Config, n: Nav, id: PopupId)
    ensures SendsNoPopup(n, AbortedPopup(c, n, id).nav)
  {
    hide ReturnedToPrevious, ResolveWindowName;
    CurrentSendsNothing(c, n);
    var current := CurrentWindow(c, n).nav;
    ReturnSendsNoPopup(c, current.(stack := PoppedTo(current.stack, ResolveWindowName(id))));
  }

  /** The account of one operation: nothing comes in but what was asked for, and what was handed out stays so. */
  ghost predicate Accounts(n: Nav, after: Nav, asked: multiset<Request>, lossless: bool) {
    && Account(after) <= Account(n) + asked
    && (lossless ==> Account(after) == Account(n) + asked)
    && Shown(n.outbox) <= Shown(after.outbox)
  }

  lemma RefreshAccounts(n: Nav)
    ensures Accounts(n, Refreshed(n), multiset{}, true)
  {
    var top := DataAt(n.stack, TOP_WINDOW);
    if top.Some? {
      SentLast(n.outbox, Refresh(top.value.name));
    }
    NoPopupAccount(n, Refreshed(n));
  }

  lemma TryAccounts(c: Config, n: Nav, handled: bool)
    ensures Accounts(n, PopupTried(c, n, handled).0, multiset{}, handled)
  {
    hide Shown, PopupTried;
    var after := PopupTried(c, n, handled).0;
    TriedHandsOut(c, n, handled);
    HandedOutAccount(n.requests, n, after, LetsThrough(c, n.stack, n.requests), handled);
  }

  lemma DisplayAccounts(c: Config, n: Nav, textShown: bool, handled: bool)
    ensures Accounts(n, Displayed(c, n, textShown, handled), multiset{}, handled)
  {
    hide Shown, PopupTried, Refreshed;
    RefreshAccounts(n);
    TryAccounts(c, n, handled);
    RefreshAccounts(PopupTried(c, n, handled).0);
  }

  lemma SwitchAccounts(c: Config, n: Nav, name: string, d: Disposition, ignoreCurrent: bool, textShown: bool,
                       handled: bool)
    ensures Accounts(n, Switched(c, n, name, d, ignoreCurrent, textShown, handled).nav, multiset{}, handled)
  {
    hide Shown, Displayed, CurrentWindow, PushedWindow;
    if name in c.registered {
      var first := if ignoreCurrent && n.stack != [] then n.(stack := n.stack[..|n.stack| - 1]) else n;
      var second := CurrentWindow(c, first);
      CurrentSendsNothing(c, first);
      if second.Ran? {
        var third := PushedWindow(c, second.nav, name, d);
        PushSendsNothing(c, second.nav, name, d);
        if third.Ran? {
          var fourth := CurrentWindow(c, third.nav);
          CurrentSendsNothing(c, third.nav);
          if fourth.Ran? {
            DisplayAccounts(c, fourth.nav, textShown, handled);
          }
        }
      }
    }
  }

  lemma RequestAccounts(c: Config, n: Nav, params: PopupParams, stamp: nat, ignoreIfOnTop: bool, handled: bool)
    ensures
      var op := RequestPopup(params, stamp, ignoreIfOnTop, handled);
      Accounts(n, NavStep(c, n, op).nav, Asked(c, n, op), handled)
  {
    hide Shown, Requested, Accepts, HandsOut, LetsThrough, Placed;
    if n.stack != [] {
      var after := Requested(c, n, params, stamp, ignoreIfOnTop, handled).nav;
      var queued := n.requests + [Placed(params, stamp)];
      RequestIsConserved(c, n, params, stamp, ignoreIfOnTop, handled);
      if Accepts(c, n, params, ignoreIfOnTop) {
        HandedOutAccount(queued, n, after, LetsThrough(c, n.stack, queued), handled);
        QueuedAccount(n, Placed(params, stamp));
      }
    } else {
      NothingOnTop(c, n, params, stamp, ignoreIfOnTop, handled);
    }
  }

  lemma QueuedAccount(n: Nav, r: Request)
    ensures multiset(n.requests + [r]) + Shown(n.outbox) == Account(n) + multiset{r}
  {
    hide Shown;
  }

  lemma NothingOnTop(c: Config, n: Nav, params: PopupParams, stamp: nat, ignoreIfOnTop: bool, handled: bool)
    requires n.stack == []
    ensures Requested(c, n, params, stamp, ignoreIfOnTop, handled) == Thrown(n)
  {
  }

  lemma SilentAccounts(n: Nav, after: Nav)
    requires SendsNoPopup(n, after)
    ensures Accounts(n, after, multiset{}, true)
  {
    NoPopupAccount(n, after);
  }

  lemma ClearAccounts(n: Nav)
    ensures Accounts(n, n.(requests := []), multiset{}, false)
  {
    hide Shown;
  }

  lemma StepAccounts(c: Config, n: Nav, op: NavOp)
    ensures Accounts(n, NavStep(c, n, op).nav, Asked(c, n, op), LosesNothing(op))
  {
    hide Shown, Switched, Requested, PopupTried, ReturnedToPrevious, AbortedPopup, CurrentWindow, PushedWindow;
    hide Account, Accounts, Dropped, WithoutPopups, Accepts, Placed;
    match op
    case PushWindow(name, d) =>
      PushSendsNothing(c, n, name, d);
      SilentAccounts(n, PushedWindow(c, n, name, d).nav);
    case GetCurrentWindow =>
      CurrentSendsNothing(c, n);
      SilentAccounts(n, CurrentWindow(c, n).nav);
    case ReturnToPrevious =>
      ReturnSendsNoPopup(c, n);
      SilentAccounts(n, ReturnedToPrevious(c, n).nav);
    case AbortPopup(id) =>
      AbortSendsNoPopup(c, n, id);
      SilentAccounts(n, AbortedPopup(c, n, id).nav);
    case HandleSwitch(name, d, ignoreCurrent, textShown, handled) =>
      SwitchAccounts(c, n, name, d, ignoreCurrent, textShown, handled);
    case RequestPopup(params, stamp, ignoreIfOnTop, handled) =>
      RequestAccounts(c, n, params, stamp, ignoreIfOnTop, handled);
    case TryShowPopup(handled) => TryAccounts(c, n, handled);
    case RequestShutdownWindow(name) =>
      PushSendsNothing(c, n, name, WINDOW_DISPOSITION);
      SilentAccounts(n, NavStep(c, n, op).nav);
    case ClearPendingPopups => ClearAccounts(n);
    case _ => SilentAccounts(n, NavStep(c, n, op).nav);
  }

  /**
   Over every run, no request is handed out that was not accepted, and none twice; and as long as nothing is thrown
   away, every accepted request has been handed out or is still waiting.
   */
  lemma {:induction false} RunAccounts(c: Config, n: Nav, ops: seq<NavOp>)
    ensures Accounts(n, NavRun(c, n, ops), AskedAlong(c, n, ops), forall op | op in ops :: LosesNothing(op))
    decreases |ops|
  {
    hide Account, Shown, Asked, NavStep;
    if ops != [] {
      assert ops[0] in ops;
      StepAccounts(c, n, ops[0]);
      match NavStep(c, n, ops[0])
      case Thrown(_) =>
      case Ran(next) =>
        RunAccounts(c, next, ops[1..]);
        assert forall op | op in ops :: op == ops[0] || op in ops[1..];
    }
  }
}
