/**
 How an application moves between its windows: pushing and returning, popups shown and aborted. The functions
 say what each operation does to the navigation state; the class in AppCommon.dfy is proved to do the same.
 */
module AppNavigation {
  import opened Options
  import opened Popups
  import opened WindowsStackModel
  import opened PopupQueue

  /** What does not change while the application navigates. */
  datatype Config = Config(registered: set<string>, defaultWindow: string, filters: seq<AppFilter>)

  /** Messages sent on the way: to the application itself, or back to the application manager. */
  datatype Message =
    | SwitchWindow(name: string, disposition: Disposition)
    | SwitchBack
    | ShowPopup(request: Request)
    | Refresh(name: string)

  /** `generation` numbers the windows built so far. */
  datatype Nav = Nav(
    stack: seq<WindowData>,
    windows: map<string, Window>,
    requests: seq<Request>,
    outbox: seq<Message>,
    generation: nat)

  /** An operation runs through, or stops where the program would throw or read an empty optional. */
  datatype Outcome = Ran(nav: Nav) | Thrown(nav: Nav)
  {
    predicate IsFailure() {
      Thrown?
    }

    function PropagateFailure(): Outcome
      requires Thrown?
    {
      this
    }

    function Extract(): Nav
      requires Ran?
    {
      nav
    }
  }

  function Built(c: Config, n: Nav, name: string, d: Disposition): Outcome {
    if name !in c.registered then Thrown(n)
    else Ran(n.(stack := n.stack + [WindowData(name, d)], windows := n.windows[name := n.generation],
                generation := n.generation + 1))
  }

  /** Asking for the current window builds the default one if there is none. */
  function CurrentWindow(c: Config, n: Nav): Outcome {
    if n.stack == [] then Built(c, n, c.defaultWindow, WINDOW_DISPOSITION) else Ran(n)
  }

  function PushedWindow(c: Config, n: Nav, name: string, d: Disposition): Outcome {
    if name == "" && |n.stack| == 1 then Ran(n.(stack := []))
    else if FindInStack(n.stack, name).Some? then Ran(n.(stack := PoppedTo(n.stack, name)))
    else Built(c, n, name, d)
  }

  /** `switchWindow` only posts a message; an empty name stands for the current window. */
  function SwitchPosted(c: Config, n: Nav, name: string): Outcome {
    var n :- CurrentWindow(c, n);
    var target := if name == "" then n.stack[|n.stack| - 1].name else name;
    Ran(n.(outbox := n.outbox + [SwitchWindow(target, WINDOW_DISPOSITION)]))
  }

  function ReturnedToPrevious(c: Config, n: Nav): Outcome {
    match DataAt(n.stack, PREVIOUS_WINDOW)
    case None => Ran(n.(outbox := n.outbox + [SwitchBack]))
    case Some(previous) =>
      var popped := n.(stack := PoppedTo(n.stack, previous.name));
      if previous.name != ResolveWindowName(SimInfo) then SwitchPosted(c, popped, previous.name)
      else
        match DataAt(popped.stack, PREVIOUS_WINDOW)
        case None => Thrown(popped)
        case Some(deeper) => SwitchPosted(c, popped, deeper.name)
  }

  function AbortedPopup(c: Config, n: Nav, id: PopupId): Outcome {
    var name := ResolveWindowName(id);
    if id == Tethering && FindInStack(n.stack, PHONE_LOCK_WINDOW).Some? then
      Ran(n.(stack := Dropped(n.stack, name)))
    else
      var n :- CurrentWindow(c, n);
      if FindInStack(n.stack, name).None? then Ran(n)
      else ReturnedToPrevious(c, n.(stack := PoppedTo(n.stack, name)))
  }

  function Filtered(c: Config, stack: seq<WindowData>): PopupParams -> bool {
    params => Permits(c.filters, stack, params)
  }

  /** Shows the next popup the filter lets through, if there is one; `handled` is its blueprint's answer. */
  function PopupTried(c: Config, n: Nav, handled: bool): (Nav, bool) {
    var (left, request) := Popped(n.requests, Filtered(c, n.stack));
    match request
    case None => (n, false)
    case Some(r) =>
      var stack := if r.params.popupId == SimInfo then Dropped(n.stack, ResolveWindowName(SimLock)) else n.stack;
      var outbox := if handled then n.outbox + [ShowPopup(r)] else n.outbox;
      (n.(requests := left, stack := stack, outbox := outbox), handled)
  }

  /** The handler of a window switch message. */
  function Switched(c: Config, n: Nav, name: string, d: Disposition, ignoreCurrent: bool, textShown: bool,
                    handled: bool)
      : Outcome
  {
    if name !in c.registered then Ran(n)
    else
      var n := if ignoreCurrent && n.stack != [] then n.(stack := n.stack[..|n.stack| - 1]) else n;
      var n :- CurrentWindow(c, n);
      var n :- PushedWindow(c, n, name, d);
      var n :- CurrentWindow(c, n);
      Ran(Displayed(c, n, textShown, handled))
  }

  /** A window that only takes in a text is redrawn; otherwise the next popup gets its chance first. */
  function Displayed(c: Config, n: Nav, textShown: bool, handled: bool): Nav {
    if textShown then Refreshed(n)
    else
      var (n, shown) := PopupTried(c, n, handled);
      if shown then n else Refreshed(n)
  }

  function Refreshed(n: Nav): Nav {
    match DataAt(n.stack, TOP_WINDOW)
    case None => n
    case Some(top) => n.(outbox := n.outbox + [Refresh(top.name)])
  }

  function AppAdds(filters: seq<AppFilter>, params: PopupParams): bool {
    filters == [] || (filters[0].Some? && filters[0].value(params) != Remove && AppAdds(filters[1..], params))
  }

  /** A popup request: ignored, removed by a filter, or queued and tried. */
  function Requested(c: Config, n: Nav, params: PopupParams, stamp: nat, ignoreIfOnTop: bool, handled: bool): Outcome {
    match DataAt(n.stack, TOP_WINDOW)
    case None => Thrown(n)
    case Some(top) =>
      var id := params.popupId;
      if ignoreIfOnTop && id == top.disposition.id then Ran(n)
      else if !AppAdds(c.filters, PopupParams(id, WINDOW_DISPOSITION)) then Ran(n)
      else
        var disposition := if params.disposition.windowType != PopupWindow
                           then Disposition(Normal, PopupWindow, id) else params.disposition;
        var r := Request(PopupParams(id, disposition), stamp);
        Ran(PopupTried(c, n.(requests := Inserted(n.requests, r)), handled).0)
  }

  // ---------------------------------------------------------------------------------------------
  // Runs

  datatype NavOp =
    | PushWindow(name: string, d: Disposition)
    | GetCurrentWindow
    | PopCurrentWindow
    | PopWindow(name: string)
    | ReturnToPrevious
    | AbortPopup(id: PopupId)
    | HandleSwitch(name: string, d: Disposition, ignoreCurrent: bool, textShown: bool, handled: bool)
    | RequestPopup(params: PopupParams, stamp: nat, ignoreIfOnTop: bool, handled: bool)
    | TryShowPopup(handled: bool)
    | RequestShutdownWindow(name: string)
    | DropPendingPopups
    | ClearPendingPopups
    | Rebuild
    | Deinit

  function NavStep(c: Config, n: Nav, op: NavOp): Outcome {
    match op
    case PushWindow(name, d) => PushedWindow(c, n, name, d)
    case GetCurrentWindow => CurrentWindow(c, n)
    case PopCurrentWindow => Ran(if n.stack == [] then n else n.(stack := n.stack[..|n.stack| - 1]))
    case PopWindow(name) => Ran(n.(stack := Dropped(n.stack, name)))
    case ReturnToPrevious => ReturnedToPrevious(c, n)
    case AbortPopup(id) => AbortedPopup(c, n, id)
    case HandleSwitch(name, d, ignoreCurrent, textShown, handled) =>
      Switched(c, n, name, d, ignoreCurrent, textShown, handled)
    case RequestPopup(params, stamp, ignoreIfOnTop, handled) => Requested(c, n, params, stamp, ignoreIfOnTop, handled)
    case TryShowPopup(handled) => Ran(PopupTried(c, n, handled).0)
    case RequestShutdownWindow(name) =>
      if name in c.registered then PushedWindow(c, n, name, WINDOW_DISPOSITION) else Ran(n)
    case DropPendingPopups => Ran(n.(stack := WithoutPopups(n.stack)))
    case ClearPendingPopups => Ran(n.(requests := []))
    case Rebuild =>
      Ran(n.(windows := map name | name in n.windows :: n.generation, generation := n.generation + 1))
    case Deinit => Ran(n.(stack := [], windows := map[]))
  }

  /** The state after a run, up to the first operation that throws. */
  function NavRun(c: Config, n: Nav, ops: seq<NavOp>): Nav
    decreases |ops|
  {
    if ops == [] then n
    else
      match NavStep(c, n, ops[0])
      case Thrown(stopped) => stopped
      case Ran(next) => NavRun(c, next, ops[1..])
  }

  /** No name is on the stack twice, and every stacked name has a window that was built from the registry. */
  ghost predicate Consistent(c: Config, n: Nav) {
    && NoNameTwice(n.stack)
    && (forall i | 0 <= i < |n.stack| :: n.stack[i].name in n.windows)
    && n.windows.Keys <= c.registered
  }

  ghost predicate NoNameTwice(stack: seq<WindowData>) {
    forall i, j | 0 <= i < j < |stack| :: stack[i].name != stack[j].name
  }

  // ---------------------------------------------------------------------------------------------
  // The invariant

  /** `part` is what `stack` has at the places `picks`, in the same order. */
  ghost predicate PicksOut(picks: seq<nat>, part: seq<WindowData>, stack: seq<WindowData>) {
    && |picks| == |part|
    && (forall i | 0 <= i < |picks| :: picks[i] < |stack| && part[i] == stack[picks[i]])
    && (forall i, j | 0 <= i < j < |picks| :: picks[i] < picks[j])
  }

  /** `part` comes out of `stack` by leaving entries out. */
  ghost predicate PartOf(part: seq<WindowData>, stack: seq<WindowData>) {
    exists picks :: PicksOut(picks, part, stack)
  }

  lemma PartStaysConsistent(c: Config, n: Nav, part: seq<WindowData>)
    requires Consistent(c, n) && PartOf(part, n.stack)
    ensures Consistent(c, n.(stack := part))
  {
    var picks :| PicksOut(picks, part, n.stack);
  }

  lemma PrefixIsPart(stack: seq<WindowData>, size: nat)
    requires size <= |stack|
    ensures PartOf(stack[..size], stack)
  {
    var picks := seq<nat>(size, i => i);
    assert PicksOut(picks, stack[..size], stack);
  }

  lemma DroppedIsPart(stack: seq<WindowData>, name: string)
    ensures PartOf(Dropped(stack, name), stack)
  {
    var at := FindInStack(stack, name);
    if at.Some? {
      var picks := seq<nat>(|stack| - 1, i => if i < at.value then i else i + 1);
      assert PicksOut(picks, Dropped(stack, name), stack);
    } else {
      assert stack[..|stack|] == stack;
      PrefixIsPart(stack, |stack|);
    }
  }

  lemma PoppedToIsPart(stack: seq<WindowData>, name: string)
    ensures PartOf(PoppedTo(stack, name), stack)
  {
    hide PartOf;
    assert stack[..|stack|] == stack;
    assert PoppedTo(stack, name) == stack[..|PoppedTo(stack, name)|];
    PrefixIsPart(stack, |PoppedTo(stack, name)|);
  }

  lemma {:induction false} WithoutPopupsIsPart(stack: seq<WindowData>)
    ensures PartOf(WithoutPopups(stack), stack)
    decreases |stack|
  {
    if stack == [] {
      PrefixIsPart(stack, 0);
    } else {
      var first, rest := stack[0], stack[1..];
      WithoutPopupsIsPart(rest);
      assert [first] + rest == stack;
      var picks :| PicksOut(picks, WithoutPopups(rest), rest);
      if first.disposition.windowType == PopupWindow {
        assert WithoutPopups(stack) == WithoutPopups(rest);
        SkipFirst(picks, WithoutPopups(rest), first, rest);
      } else {
        PickFirst(picks, WithoutPopups(rest), first, rest);
      }
    }
  }

  lemma SkipFirst(picks: seq<nat>, part: seq<WindowData>, first: WindowData, rest: seq<WindowData>)
    requires PicksOut(picks, part, rest)
    ensures PartOf(part, [first] + rest)
  {
    var shifted := seq<nat>(|picks|, i requires 0 <= i < |picks| => picks[i] + 1);
    assert PicksOut(shifted, part, [first] + rest);
  }

  lemma PickFirst(picks: seq<nat>, part: seq<WindowData>, first: WindowData, rest: seq<WindowData>)
    requires PicksOut(picks, part, rest)
    ensures PartOf([first] + part, [first] + rest)
  {
    var longer := seq<nat>(|picks| + 1, i requires 0 <= i <= |picks| => if i == 0 then 0 else picks[i - 1] + 1);
    assert PicksOut(longer, [first] + part, [first] + rest);
  }

  lemma {:induction false} BuiltStaysConsistent(c: Config, n: Nav, name: string, d: Disposition)
    requires Consistent(c, n) && FindInStack(n.stack, name).None?
    ensures Consistent(c, Built(c, n, name, d).nav)
  {
  }

  lemma CurrentStaysConsistent(c: Config, n: Nav)
    requires Consistent(c, n)
    ensures Consistent(c, CurrentWindow(c, n).nav)
  {
    if n.stack == [] {
      BuiltStaysConsistent(c, n, c.defaultWindow, WINDOW_DISPOSITION);
    }
  }

  lemma PushedStaysConsistent(c: Config, n: Nav, name: string, d: Disposition)
    requires Consistent(c, n)
    ensures Consistent(c, PushedWindow(c, n, name, d).nav)
  {
    PoppedToIsPart(n.stack, name);
    PartStaysConsistent(c, n, PoppedTo(n.stack, name));
    if FindInStack(n.stack, name).None? {
      BuiltStaysConsistent(c, n, name, d);
    }
  }

  lemma ReturnedStaysConsistent(c: Config, n: Nav)
    requires Consistent(c, n)
    ensures Consistent(c, ReturnedToPrevious(c, n).nav)
  {
    var previous := DataAt(n.stack, PREVIOUS_WINDOW);
    if previous.Some? {
      PoppedToIsPart(n.stack, previous.value.name);
      var popped := n.(stack := PoppedTo(n.stack, previous.value.name));
      PartStaysConsistent(c, n, popped.stack);
      CurrentStaysConsistent(c, popped);
    }
  }

  lemma AbortedStaysConsistent(c: Config, n: Nav, id: PopupId)
    requires Consistent(c, n)
    ensures Consistent(c, AbortedPopup(c, n, id).nav)
  {
    var name := ResolveWindowName(id);
    DroppedIsPart(n.stack, name);
    PartStaysConsistent(c, n, Dropped(n.stack, name));
    CurrentStaysConsistent(c, n);
    var current := CurrentWindow(c, n).nav;
    PoppedToIsPart(current.stack, name);
    PartStaysConsistent(c, current, PoppedTo(current.stack, name));
    ReturnedStaysConsistent(c, current.(stack := PoppedTo(current.stack, name)));
  }

  lemma TriedStaysConsistent(c: Config, n: Nav, handled: bool)
    requires Consistent(c, n)
    ensures Consistent(c, PopupTried(c, n, handled).0)
  {
    DroppedIsPart(n.stack, ResolveWindowName(SimLock));
    PartStaysConsistent(c, n, Dropped(n.stack, ResolveWindowName(SimLock)));
  }

  lemma SwitchedStaysConsistent(c: Config, n: Nav, name: string, d: Disposition, ignoreCurrent: bool,
                                textShown: bool, handled: bool)
    requires Consistent(c, n)
    ensures Consistent(c, Switched(c, n, name, d, ignoreCurrent, textShown, handled).nav)
  {
    if name in c.registered {
      var first := if ignoreCurrent && n.stack != [] then n.(stack := n.stack[..|n.stack| - 1]) else n;
      PoppedStaysConsistent(c, n);
      CurrentStaysConsistent(c, first);
      var second := CurrentWindow(c, first);
      if second.Ran? {
        PushedStaysConsistent(c, second.nav, name, d);
        var third := PushedWindow(c, second.nav, name, d);
        if third.Ran? {
          CurrentStaysConsistent(c, third.nav);
          DisplayedStaysConsistent(c, CurrentWindow(c, third.nav).nav, textShown, handled);
        }
      }
    }
  }

  lemma PoppedStaysConsistent(c: Config, n: Nav)
    requires Consistent(c, n)
    ensures n.stack != [] ==> Consistent(c, n.(stack := n.stack[..|n.stack| - 1]))
  {
    if n.stack != [] {
      PrefixIsPart(n.stack, |n.stack| - 1);
      PartStaysConsistent(c, n, n.stack[..|n.stack| - 1]);
    }
  }

  lemma DisplayedStaysConsistent(c: Config, n: Nav, textShown: bool, handled: bool)
    requires Consistent(c, n)
    ensures Consistent(c, Displayed(c, n, textShown, handled))
  {
    TriedStaysConsistent(c, n, handled);
  }

  lemma StepStaysConsistent(c: Config, n: Nav, op: NavOp)
    requires Consistent(c, n)
    ensures Consistent(c, NavStep(c, n, op).nav)
  {
    match op
    case PushWindow(name, d) => PushedStaysConsistent(c, n, name, d);
    case GetCurrentWindow => CurrentStaysConsistent(c, n);
    case PopCurrentWindow => PoppedStaysConsistent(c, n);
    case PopWindow(name) =>
      DroppedIsPart(n.stack, name);
      PartStaysConsistent(c, n, Dropped(n.stack, name));
    case ReturnToPrevious => ReturnedStaysConsistent(c, n);
    case AbortPopup(id) => AbortedStaysConsistent(c, n, id);
    case HandleSwitch(name, d, ignoreCurrent, textShown, handled) =>
      SwitchedStaysConsistent(c, n, name, d, ignoreCurrent, textShown, handled);
    case RequestPopup(params, stamp, ignoreIfOnTop, handled) =>
      RequestedStaysConsistent(c, n, params, stamp, ignoreIfOnTop, handled);
    case TryShowPopup(handled) => TriedStaysConsistent(c, n, handled);
    case RequestShutdownWindow(name) => PushedStaysConsistent(c, n, name, WINDOW_DISPOSITION);
    case DropPendingPopups =>
      WithoutPopupsIsPart(n.stack);
      PartStaysConsistent(c, n, WithoutPopups(n.stack));
    case _ =>
  }

  lemma RequestedStaysConsistent(c: Config, n: Nav, params: PopupParams, stamp: nat, ignoreIfOnTop: bool, handled: bool)
    requires Consistent(c, n)
    ensures Consistent(c, Requested(c, n, params, stamp, ignoreIfOnTop, handled).nav)
  {
    var id := params.popupId;
    var disposition := if params.disposition.windowType != PopupWindow
                       then Disposition(Normal, PopupWindow, id) else params.disposition;
    var r := Request(PopupParams(id, disposition), stamp);
    TriedStaysConsistent(c, n.(requests := Inserted(n.requests, r)), handled);
  }

  /** On every run of the navigation operations the stack is consistent with the windows. */
  lemma {:induction false} RunStaysConsistent(c: Config, n: Nav, ops: seq<NavOp>)
    requires Consistent(c, n)
    ensures Consistent(c, NavRun(c, n, ops))
    decreases |ops|
  {
    if ops != [] {
      StepStaysConsistent(c, n, ops[0]);
      match NavStep(c, n, ops[0])
      case Thrown(_) =>
      case Ran(next) => RunStaysConsistent(c, next, ops[1..]);
    }
  }
}
