/**
 The stack of an application's windows, the windows themselves by name, and the filter that decides which
 popups may be shown on top of it.
 */
module WindowsStackModel {
  import opened Options
  import opened Popups

  datatype WindowData = WindowData(name: string, disposition: Disposition)

  /** A window; building one under a name gives a new instance. */
  type Window = nat

  const TOP_WINDOW: nat := 0
  const PREVIOUS_WINDOW: nat := 1

  function FindInStack(stack: seq<WindowData>, name: string): (at: Option<nat>)
    ensures at.Some? ==> at.value < |stack| && stack[at.value].name == name
    ensures at.Some? ==> forall j | 0 <= j < at.value :: stack[j].name != name
    ensures at.None? ==> forall j | 0 <= j < |stack| :: stack[j].name != name
  {
    if stack == [] then None
    else if stack[0].name == name then Some(0)
    else
      match FindInStack(stack[1..], name)
      case None => None
      case Some(at) => Some(at + 1)
  }

  /** Counted from the top. */
  function DataAt(stack: seq<WindowData>, depth: nat): Option<WindowData> {
    if depth >= |stack| then None else Some(stack[|stack| - 1 - depth])
  }

  /** The stack down to the named window, which becomes the top. */
  function PoppedTo(stack: seq<WindowData>, name: string): seq<WindowData> {
    var at := FindInStack(stack, name);
    if at.None? then stack else stack[..at.value + 1]
  }

  function Dropped(stack: seq<WindowData>, name: string): seq<WindowData> {
    var at := FindInStack(stack, name);
    if at.None? then stack else stack[..at.value] + stack[at.value + 1..]
  }

  function WithoutPopups(stack: seq<WindowData>): seq<WindowData> {
    if stack == [] then []
    else (if stack[0].disposition.windowType == PopupWindow then [] else [stack[0]]) + WithoutPopups(stack[1..])
  }

  lemma {:induction false} WithoutPopupsAppend(a: seq<WindowData>, b: seq<WindowData>)
    ensures WithoutPopups(a + b) == WithoutPopups(a) + WithoutPopups(b)
  {
    if a == [] {
      assert a + b == b;
    } else {
      assert (a + b)[1..] == a[1..] + b;
      WithoutPopupsAppend(a[1..], b);
    }
  }

  lemma NothingWithoutPopups()
    ensures WithoutPopups([]) == []
  {
  }

  lemma {:induction false} HeadWithoutPopups(stack: seq<WindowData>)
    requires stack != []
    ensures WithoutPopups(stack)
         == (if stack[0].disposition.windowType == PopupWindow then [] else [stack[0]]) + WithoutPopups(stack[1..])
  {
  }

  /** Looking at the top of a stack, with `kept` the part above it that is done. */
  lemma TopWithoutPopups(stack: seq<WindowData>, kept: seq<WindowData>)
    requires stack != []
    ensures
      var rest, top := stack[..|stack| - 1], stack[|stack| - 1];
      WithoutPopups(stack) + kept
      == WithoutPopups(rest) + (if top.disposition.windowType == PopupWindow then kept else [top] + kept)
  {
    var rest, top := stack[..|stack| - 1], stack[|stack| - 1];
    assert stack == rest + [top] && [top][1..] == [];
    assert WithoutPopups([top]) == if top.disposition.windowType == PopupWindow then [] else [top];
    hide WithoutPopups;
    WithoutPopupsAppend(rest, [top]);
  }

  lemma SuffixFrom<T>(s: seq<T>, i: nat)
    requires i < |s|
    ensures s[i..] == [s[i]] + s[i + 1..]
  {
  }

  lemma CountJoined<T>(a: seq<T>, b: seq<T>, x: T)
    ensures multiset(a + b)[x] == multiset(a)[x] + multiset(b)[x]
  {
  }

  /** Exactly the entries that are not popups, each as often and in the order it was there. */
  lemma {:induction false} WithoutPopupsKeeps(stack: seq<WindowData>, w: WindowData)
    ensures multiset(WithoutPopups(stack))[w]
         == if w.disposition.windowType == PopupWindow then 0 else multiset(stack)[w]
    decreases |stack|
  {
    hide WithoutPopups;
    if stack == [] {
      NothingWithoutPopups();
    } else {
      var first, rest := stack[0], stack[1..];
      var head := if first.disposition.windowType == PopupWindow then [] else [first];
      HeadWithoutPopups(stack);
      WithoutPopupsKeeps(rest, w);
      CountJoined(head, WithoutPopups(rest), w);
      CountJoined([first], rest, w);
      assert stack == [first] + rest;
      assert multiset([first])[w] == if first == w then 1 else 0;
    }
  }

  class WindowsStack {
    var windows: map<string, Window>
    var stack: seq<WindowData>

    constructor ()
      ensures windows == map[] && stack == []
    {
      windows := map[];
      stack := [];
    }

    /** Replaces a window that was registered under the name before. */
    method Push(name: string, window: Window, disposition: Disposition)
      modifies this
      ensures stack == old(stack) + [WindowData(name, disposition)]
      ensures windows == old(windows)[name := window]
    {
      windows := windows[name := window];
      stack := stack + [WindowData(name, disposition)];
    }

    method PopTop() returns (popped: bool)
      modifies this`stack
      ensures popped == (old(stack) != [])
      ensures stack == if popped then old(stack)[..|old(stack)| - 1] else old(stack)
    {
      if stack != [] {
        stack := stack[..|stack| - 1];
        return true;
      }
      return false;
    }

    method PopTo(name: string) returns (found: bool)
      modifies this`stack
      ensures found == FindInStack(old(stack), name).Some?
      ensures stack == PoppedTo(old(stack), name)
    {
      var at := FindInStack(stack, name);
      if at.Some? {
        stack := stack[..at.value + 1];
        return true;
      }
      return false;
    }

    method PopLastWindow() returns (popped: bool)
      modifies this`stack
      ensures popped == (|old(stack)| == 1)
      ensures stack == if popped then [] else old(stack)
    {
      if |stack| == 1 {
        stack := [];
        return true;
      }
      return false;
    }

    method Drop(name: string) returns (found: bool)
      modifies this`stack
      ensures found == FindInStack(old(stack), name).Some?
      ensures stack == Dropped(old(stack), name)
    {
      var at := FindInStack(stack, name);
      if at.Some? {
        stack := stack[..at.value] + stack[at.value + 1..];
        return true;
      }
      return false;
    }

    /** Walks from the top down and erases as it goes. */
    method DropPendingPopups()
      modifies this`stack
      ensures stack == WithoutPopups(old(stack))
    {
      var it := |stack|;
      assert stack[..it] == stack && stack[it..] == [];
      hide WithoutPopups;
      while it > 0
        invariant it <= |stack|
        invariant stack[..it] == old(stack)[..it] && it <= |old(stack)|
        invariant WithoutPopups(old(stack)) == WithoutPopups(old(stack)[..it]) + stack[it..]
      {
        TopWithoutPopups(stack[..it], stack[it..]);
        assert stack[..it][..it - 1] == stack[..it - 1];
        if stack[it - 1].disposition.windowType == PopupWindow {
          stack := stack[..it - 1] + stack[it..];
        } else {
          SuffixFrom(stack, it - 1);
        }
        it := it - 1;
      }
      NothingWithoutPopups();
    }

    /** Every window is built anew under its name; the numbers stand for the new instances. */
    method RebuildWindows(build: string -> Window) returns (rebuilt: bool)
      modifies this`windows
      ensures rebuilt == (old(windows) != map[])
      ensures windows == map name | name in old(windows) :: build(name)
    {
      if windows == map[] {
        return false;
      }
      windows := map name | name in windows :: build(name);
      return true;
    }

    method Clear()
      modifies this
      ensures stack == [] && windows == map[]
    {
      stack := [];
      windows := map[];
    }
  }

  // ---------------------------------------------------------------------------------------------
  // The popup filter

  datatype FilterType = Show | Ignore | Remove

  /** An application's own filter; `None` is a null function. */
  type AppFilter = Option<PopupParams -> FilterType>

  function AppPermits(filters: seq<AppFilter>, params: PopupParams): (permits: bool)
    ensures permits <==> forall i | 0 <= i < |filters| :: filters[i].None? || filters[i].value(params) == Show
  {
    filters == [] || ((filters[0].None? || filters[0].value(params) == Show) && AppPermits(filters[1..], params))
  }

  /** An empty stack, the popup that is on top already, or a top of no higher priority. */
  function StackPermits(stack: seq<WindowData>, params: PopupParams): bool {
    match DataAt(stack, TOP_WINDOW)
    case None => true
    case Some(top) =>
      top.disposition.id == params.popupId
      || top.disposition.priority.Rank() <= params.disposition.priority.Rank()
  }

  function Permits(filters: seq<AppFilter>, stack: seq<WindowData>, params: PopupParams): bool {
    AppPermits(filters, params) && StackPermits(stack, params)
  }

  class PopupFilter {
    var appDependentFilter: seq<AppFilter>
    var stack: WindowsStack?

    constructor ()
      ensures appDependentFilter == [] && stack == null
    {
      appDependentFilter := [];
      stack := null;
    }

    method AttachWindowsStack(s: WindowsStack)
      modifies this
      ensures stack == s && appDependentFilter == old(appDependentFilter)
    {
      stack := s;
    }

    method AddAppDependentFilter(f: AppFilter)
      modifies this
      ensures appDependentFilter == old(appDependentFilter) + [f] && stack == old(stack)
    {
      appDependentFilter := appDependentFilter + [f];
    }

    method IsPermitted(params: PopupParams) returns (permitted: bool)
      ensures permitted ==
          (AppPermits(appDependentFilter, params) && (stack != null ==> StackPermits(stack.stack, params)))
    {
      for i := 0 to |appDependentFilter|
        invariant forall j | 0 <= j < i :: appDependentFilter[j].None? || appDependentFilter[j].value(params) == Show
      {
        if appDependentFilter[i].Some? && appDependentFilter[i].value(params) != Show {
          return false;
        }
      }
      if stack != null {
        var data := DataAt(stack.stack, TOP_WINDOW);
        if data.None? {
          return true;
        }
        if data.value.disposition.id == params.popupId {
          return true;
        }
        if data.value.disposition.priority.Rank() > params.disposition.priority.Rank() {
          return false;
        }
      }
      return true;
    }

    /** Here a null filter refuses. */
    method AddPopup(params: PopupParams) returns (added: bool)
      ensures added <==> forall i | 0 <= i < |appDependentFilter| ::
          appDependentFilter[i].Some? && appDependentFilter[i].value(params) != Remove
    {
      for i := 0 to |appDependentFilter|
        invariant forall j | 0 <= j < i ::
          appDependentFilter[j].Some? && appDependentFilter[j].value(params) != Remove
      {
        if appDependentFilter[i].None? || appDependentFilter[i].value(params) == Remove {
          return false;
        }
      }
      return true;
    }
  }
}
