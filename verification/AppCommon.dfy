/**
 The application object: its window stack, popup filter and popup queue, and the handlers that drive them.
 Every handler is proved to do what the navigation functions say.
 */
module AppCommon {
  import opened Options
  import opened Popups
  import opened WindowsStackModel
  import opened PopupQueue
  import opened AppNavigation

  class ApplicationCommon {
    const config: Config
    const windowsStack: WindowsStack
    const popupQueue: WindowsPopupQueue
    var outbox: seq<Message>
    var generation: nat

    ghost function View(): Nav
      reads this, windowsStack, popupQueue
    {
      Nav(windowsStack.stack, windowsStack.windows, popupQueue.requests, outbox, generation)
    }

    constructor (config: Config)
      ensures this.config == config && fresh(windowsStack) && fresh(popupQueue)
      ensures View() == Nav([], map[], [], [], 0) && Consistent(config, View())
    {
      this.config := config;
      windowsStack := new WindowsStack();
      popupQueue := new WindowsPopupQueue();
      outbox := [];
      generation := 0;
    }

    /** Builds a window and pushes it; an unregistered name throws. */
    method BuildAndPush(name: string, d: Disposition) returns (thrown: bool)
      modifies this, windowsStack
      ensures View() == Built(config, old(View()), name, d).nav
      ensures thrown == Built(config, old(View()), name, d).Thrown?
    {
      if name !in config.registered {
        return true;
      }
      windowsStack.Push(name, generation, d);
      generation := generation + 1;
      return false;
    }

    method PushWindow(name: string, d: Disposition) returns (thrown: bool)
      modifies this, windowsStack
      ensures View() == PushedWindow(config, old(View()), name, d).nav
      ensures thrown == PushedWindow(config, old(View()), name, d).Thrown?
    {
      if name == "" {
        var emptied := windowsStack.PopLastWindow();
        if emptied {
          return false;
        }
      }
      var found := windowsStack.PopTo(name);
      if found {
        return false;
      }
      thrown := BuildAndPush(name, d);
    }

    method GetCurrentWindow() returns (thrown: bool)
      modifies this, windowsStack
      ensures View() == CurrentWindow(config, old(View())).nav
      ensures thrown == CurrentWindow(config, old(View())).Thrown?
    {
      if windowsStack.stack == [] {
        thrown := BuildAndPush(config.defaultWindow, WINDOW_DISPOSITION);
        return thrown;
      }
      return false;
    }

    method SwitchWindow(name: string) returns (thrown: bool)
      modifies this, windowsStack
      ensures View() == SwitchPosted(config, old(View()), name).nav
      ensures thrown == SwitchPosted(config, old(View()), name).Thrown?
    {
      thrown := GetCurrentWindow();
      if thrown {
        return true;
      }
      var target := if name == "" then windowsStack.stack[|windowsStack.stack| - 1].name else name;
      outbox := outbox + [AppNavigation.SwitchWindow(target, WINDOW_DISPOSITION)];
      return false;
    }

    method ReturnToPreviousWindow() returns (thrown: bool)
      modifies this, windowsStack
      ensures View() == ReturnedToPrevious(config, old(View())).nav
      ensures thrown == ReturnedToPrevious(config, old(View())).Thrown?
    {
      var previous := DataAt(windowsStack.stack, PREVIOUS_WINDOW);
      if previous.None? {
        outbox := outbox + [SwitchBack];
        return false;
      }
      var name := previous.value.name;
      var found := windowsStack.PopTo(name);
      if name == ResolveWindowName(SimInfo) {
        var deeper := DataAt(windowsStack.stack, PREVIOUS_WINDOW);
        if deeper.None? {
          return true;
        }
        name := deeper.value.name;
      }
      thrown := SwitchWindow(name);
    }

    method AbortPopup(id: PopupId) returns (thrown: bool)
      modifies this, windowsStack
      ensures View() == AbortedPopup(config, old(View()), id).nav
      ensures thrown == AbortedPopup(config, old(View()), id).Thrown?
    {
      hide ResolveWindowName, ReturnedToPrevious;
      var name := ResolveWindowName(id);
      if id == Tethering && FindInStack(windowsStack.stack, PHONE_LOCK_WINDOW).Some? {
        var dropped := windowsStack.Drop(name);
        return false;
      }
      thrown := GetCurrentWindow();
      if thrown {
        return true;
      }
      var found := windowsStack.PopTo(name);
      if !found {
        return false;
      }
      if name == windowsStack.stack[|windowsStack.stack| - 1].name {
        thrown := ReturnToPreviousWindow();
      }
    }

    method TryShowPopup(handled: bool) returns (shown: bool)
      modifies this, windowsStack, popupQueue
      ensures (View(), shown) == PopupTried(config, old(View()), handled)
    {
      var request := popupQueue.PopRequest(Filtered(config, windowsStack.stack));
      if request.None? {
        return false;
      }
      if request.value.params.popupId == SimInfo {
        var dropped := windowsStack.Drop(ResolveWindowName(SimLock));
      }
      if handled {
        outbox := outbox + [ShowPopup(request.value)];
      }
      return handled;
    }

    method RefreshWindow()
      modifies this
      ensures View() == Refreshed(old(View()))
    {
      var top := DataAt(windowsStack.stack, TOP_WINDOW);
      if top.Some? {
        outbox := outbox + [Refresh(top.value.name)];
      }
    }

    method HandleSwitchWindow(name: string, d: Disposition, ignoreCurrent: bool, textShown: bool, handled: bool)
        returns (thrown: bool)
      modifies this, windowsStack, popupQueue
      ensures View() == Switched(config, old(View()), name, d, ignoreCurrent, textShown, handled).nav
      ensures thrown == Switched(config, old(View()), name, d, ignoreCurrent, textShown, handled).Thrown?
    {
      if name !in config.registered {
        return false;
      }
      if ignoreCurrent {
        var popped := windowsStack.PopTop();
      }
      thrown := GetCurrentWindow();
      if thrown {
        return true;
      }
      thrown := PushWindow(name, d);
      if thrown {
        return true;
      }
      thrown := GetCurrentWindow();
      if thrown {
        return true;
      }
      if textShown {
        RefreshWindow();
        return false;
      }
      var shown := TryShowPopup(handled);
      if !shown {
        RefreshWindow();
      }
      return false;
    }

    /** A request whose window is not a popup is given the default popup placement. */
    method ActionPopupPush(params: PopupParams, stamp: nat, ignoreIfOnTop: bool, handled: bool) returns (thrown: bool)
      modifies this, windowsStack, popupQueue
      ensures View() == Requested(config, old(View()), params, stamp, ignoreIfOnTop, handled).nav
      ensures thrown == Requested(config, old(View()), params, stamp, ignoreIfOnTop, handled).Thrown?
    {
      var top := DataAt(windowsStack.stack, TOP_WINDOW);
      if top.None? {
        return true;
      }
      var id := params.popupId;
      if ignoreIfOnTop && id == top.value.disposition.id {
        return false;
      }
      var disposition := params.disposition;
      if disposition.windowType != PopupWindow {
        disposition := Disposition(Normal, PopupWindow, id);
      }
      if AppAdds(config.filters, PopupParams(id, WINDOW_DISPOSITION)) {
        popupQueue.PushRequest(Request(PopupParams(id, disposition), stamp));
        var shown := TryShowPopup(handled);
      }
      return false;
    }
  }
}
