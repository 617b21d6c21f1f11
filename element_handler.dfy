/**
 * The resilient interaction layer over one browser session: the handler holds
 * the driver (the page) and its default timeout, and each operation is proved
 * equal to its specification function in HandlerSpec.
 */
module ElementHandler {
  import opened Wrappers
  import opened Strings
  import opened Dom
  import opened HandlerSpec

  class WebElementHandler {
    const driver: Browser
    const defaultTimeout: nat

    constructor (driver: Browser)
      ensures this.driver == driver && defaultTimeout == ElementWait
    {
      this.driver := driver;
      defaultTimeout := ElementWait;
    }

    /** `element_exists`: False for a missing handle or one whose liveness probe raises; never raises. */
    predicate ElementExists(h: Option<Handle>)
      reads driver
      ensures ElementExists(h) <==> h.Some? && h.value < |driver.elems| && driver.elems[h.value].attached
    {
      Live(driver.Snap(), h)
    }

    /** The first usable node of `elements`, scanned in order. */
    method FirstUsableOf(elements: seq<Handle>) returns (r: Option<Handle>)
      ensures r == FirstUsable(driver.Snap(), elements)
    {
      var s := driver.Snap();
      var j := 0;
      while j < |elements|
        invariant 0 <= j <= |elements|
        invariant FirstUsable(s, elements) == FirstUsable(s, elements[j..])
      {
        if Usable(s, elements[j]) {
          return Some(elements[j]);
        }
        assert elements[j..][1..] == elements[j + 1..];
        j := j + 1;
      }
      return None;
    }

    /** The class step: each class token in order, each of its matches in order. */
    method FirstUsableOfClasses(classes: seq<string>) returns (r: Option<Handle>)
      ensures r == FirstUsableByClass(driver.Snap(), classes)
    {
      var s := driver.Snap();
      var i := 0;
      while i < |classes|
        invariant 0 <= i <= |classes|
        invariant FirstUsableByClass(s, classes) == FirstHit(classes[i..], c => TokenMatch(s, c))
      {
        var found := FirstUsableOf(Matches(s, ByClassName(classes[i])));
        if found.Some? {
          return found;
        }
        assert classes[i..][1..] == classes[i + 1..];
        i := i + 1;
      }
      return None;
    }

    /** The tag step: the first usable node with the original's `type` and `name`. */
    method FirstLikeOf(elements: seq<Handle>, o: Element) returns (r: Option<Handle>)
      ensures r == FirstLike(driver.Snap(), elements, o)
    {
      var s := driver.Snap();
      var j := 0;
      while j < |elements|
        invariant 0 <= j <= |elements|
        invariant FirstLike(s, elements, o) == FirstLike(s, elements[j..], o)
      {
        if LikeOriginal(s, elements[j], o) {
          return Some(elements[j]);
        }
        assert elements[j..][1..] == elements[j + 1..];
        j := j + 1;
      }
      return None;
    }

    /** `find_similar_element`: the four heuristic steps, each scanning the driver's answers in order. */
    method FindSimilarElement(orig: Option<Handle>) returns (r: Option<Handle>)
      ensures r == Similar(driver.Snap(), driver.behaviour, orig)
      ensures r.Some? ==> Usable(driver.Snap(), r.value)
    {
      var s := driver.Snap();
      var attrs := Attrs(s, driver.behaviour, orig);
      if attrs.None? {
        return None;
      }
      var o := attrs.value;
      if o.id != "" {
        var byId := Matches(s, ById(o.id));
        if |byId| == 0 {
          return None;
        }
        if Usable(s, byId[0]) {
          return Some(byId[0]);
        }
      }
      r := FirstUsableOfClasses(o.classes);
      if r.Some? {
        return;
      }
      if o.text != "" {
        if '\'' in o.text {
          return None;
        }
        r := FirstUsableOf(Matches(s, ByTextContains(o.text)));
        if r.Some? {
          return;
        }
      }
      if o.tag != "" {
        r := FirstLikeOf(Matches(s, ByTagName(o.tag)), o);
        return;
      }
      return None;
    }

    /** `ensure_valid_element`: a live handle unchanged, else the present, visible and clickable waits, else a similar node. */
    method EnsureValidElement(loc: Locator, h: Option<Handle>) returns (r: Option<Handle>)
      ensures r == EnsureValid(driver.Snap(), driver.behaviour, loc, h)
      ensures Live(driver.Snap(), h) ==> r == h
      ensures r.Some? ==> Live(driver.Snap(), r)
    {
      if ElementExists(h) {
        return h;
      }
      var s := driver.Snap();
      var strategies := RecoveryModes;
      var i := 0;
      while i < |strategies|
        invariant 0 <= i <= |strategies|
        invariant RecoverByWaits(s, loc, strategies) == RecoverByWaits(s, loc, strategies[i..])
      {
        var newElement := Resolve(s, loc, strategies[i]);
        if newElement.Some? && ElementExists(newElement) {
          return newElement;
        }
        assert strategies[i..][1..] == strategies[i + 1..];
        i := i + 1;
      }
      r := FindSimilarElement(h);
    }

    /** The stale-handle recovery that opens `click_element`. */
    method RecoverElement(h: Option<Handle>) returns (rec: Recovery)
      ensures rec == RecoverForClick(driver.Snap(), driver.behaviour, h)
    {
      if ElementExists(h) {
        return Proceed(h.value);
      }
      var attrs := Attrs(driver.Snap(), driver.behaviour, h);
      if attrs.None? {
        return Abort;
      }
      var newElement := h;
      var loc := RecoveryLocator(attrs.value);
      if loc.Some? {
        newElement := EnsureValidElement(loc.value, h);
      }
      if newElement.None? {
        newElement := FindSimilarElement(h);
      }
      if newElement.None? {
        return Abort;
      }
      return Proceed(newElement.value);
    }

    /** The scroll effect chosen by `click_element`, if any, then its attempt loop on the (possibly stale) node `g`. */
    method AttemptClicks(g: Handle, scroll: seq<Effect>, useJs: bool) returns (ok: bool)
      modifies driver
      ensures var a := Attempts(old(driver.Snap()), driver.behaviour, g, useJs);
        ok == a.ok && driver.elems == a.elems && driver.trace == old(driver.trace) + (scroll + a.trace)
    {
      var run := RunAttempts(g, useJs);
      // the loop reads neither the trace nor the page, so the scroll is recorded with the attempts
      driver.elems, driver.trace := AfterRun(driver.elems, driver.behaviour, g, run), driver.trace + (scroll + RunTrace(g, run));
      ok := run.ok;
    }

    /**
     * The loop of `click_element`'s attempts on `g`: the run it makes. The page
     * changes only once the loop is over, so the loop reads the page as it was.
     */
    method RunAttempts(g: Handle, useJs: bool) returns (run: ClickRun)
      ensures run == ClickLoop(driver.behaviour, g, Live(driver.Snap(), Some(g)), useJs, 0)
    {
      if !ElementExists(Some(g)) {
        // the first click script raises a stale-element error and the re-probe finds the node gone
        return ClickRun(false, [!useJs], false, false);
      }
      run := LiveAttempts(g, useJs);
    }

    /** The attempt loop on a node that was live when `click_element` began. */
    method LiveAttempts(g: Handle, useJs: bool) returns (run: ClickRun)
      ensures run == ClickLoop(driver.behaviour, g, true, useJs, 0)
    {
      var b := driver.behaviour;
      ghost var whole := ClickLoop(b, g, true, useJs, 0);
      var kinds: seq<bool> := [];
      var attempt := 0;
      while attempt < MaxAttempts
        invariant 0 <= attempt <= MaxAttempts && |kinds| == attempt
        invariant Resumes(whole, kinds, ClickLoop(b, g, true, useJs, attempt))
      {
        var native := !useJs && attempt == 0;
        ClickLoopAdvance(b, g, useJs, attempt, whole, kinds);
        var last := ReactToOutcome(OutcomeAt(b, g, attempt), native);
        if last.Some? {
          return ClickRun(last.value.ok, kinds + last.value.kinds, last.value.dispatched, last.value.lost);
        }
        kinds := kinds + [native];
        attempt := attempt + 1;
      }
      assert kinds + [] == kinds;
      return ClickRun(false, kinds, false, false);
    }

    /**
     * The exception handling around one click attempt on a live node: a click
     * that went through, or an interception answered by dispatched mouse events,
     * returns True; a failed dispatch, or a stale error whose re-probe still finds
     * the node, moves on to the next attempt; a stale error on a node gone, or
     * any other error, breaks out of the loop.
     */
    method ReactToOutcome(o: ClickOutcome, native: bool) returns (last: Option<ClickRun>)
      ensures last == LastAttempt(o, native)
    {
      match o {
        case Clicked =>
          return Some(ClickRun(true, [native], false, false));
        case Intercepted(dispatchOk) =>
          if dispatchOk {
            return Some(ClickRun(true, [native], true, false));
          }
        case StaleError(gone) =>
          if gone {
            return Some(ClickRun(false, [native], false, true));
          }
        case OtherError =>
          return Some(ClickRun(false, [native], false, false));
      }
      return None;
    }

    /**
     * `click_element`: recover a stale handle, scroll, then at most three
     * attempts, native after neutralising overlapping elements on attempt 0
     * unless `useJs`, script clicks afterwards.
     */
    method ClickElement(h: Option<Handle>, useJs: bool, tryScroll: bool) returns (ok: bool)
      modifies driver
      ensures var c := Click(old(driver.Snap()), driver.behaviour, h, useJs, tryScroll);
        ok == c.ok && driver.elems == c.elems && driver.trace == old(driver.trace) + c.trace
    {
      ghost var s := driver.Snap();
      var rec := RecoverElement(h);
      if rec.Abort? {
        return false;
      }
      var g := rec.h;
      ClickProceeds(s, driver.behaviour, h, useJs, tryScroll, g);
      var scroll: seq<Effect> := [];
      if tryScroll && ElementExists(Some(g)) {
        scroll := [Scroll(g)];
      }
      ok := AttemptClicks(g, scroll, useJs);
    }

    /** `wait_and_click`: no click at all when the clickable wait yields nothing. */
    method WaitAndClick(loc: Locator, useJs: bool) returns (ok: bool)
      modifies driver
      ensures var e := Resolve(old(driver.Snap()), loc, Clickable);
        if e.None? then !ok && driver.elems == old(driver.elems) && driver.trace == old(driver.trace)
        else
          var c := Click(old(driver.Snap()), driver.behaviour, e, useJs, true);
          ok == c.ok && driver.elems == c.elems && driver.trace == old(driver.trace) + c.trace
    {
      var element := Resolve(driver.Snap(), loc, Clickable);
      if element.Some? {
        ok := ClickElement(element, useJs, true);
        return;
      }
      return false;
    }

    /**
     * `fill_field`: locate (or recover) the field, re-enable it, clear it, then
     * at most three attempts of typing, each verified by reading the value back
     * and falling back to a scripted assignment.
     */
    method FillField(loc: Locator, text: string, clear: bool, steps: seq<FillStep>) returns (ok: bool)
      modifies driver
      ensures var f := Fill(old(driver.Snap()), driver.behaviour, loc, text, clear, steps);
        ok == f.ok && driver.elems == f.elems
      ensures var t := FillTarget(old(driver.Snap()), driver.behaviour, loc);
        driver.trace == old(driver.trace) +
          if t.None? then []
          else (if !old(driver.elems)[t.value].enabled then [Unlock(t.value)] else []) + [Scroll(t.value), Focus(t.value)]
    {
      var element := LocateField(loc);
      if element.None? {
        return false;
      }
      var g := element.value;
      // a disabled field is unlocked, then the field is scrolled to and focused
      var unlock: seq<Effect> := if !driver.elems[g].enabled then [Unlock(g)] else [];
      driver.trace := driver.trace + (unlock + [Scroll(g), Focus(g)]);
      driver.elems := driver.elems[g := Prepared(driver.elems[g], clear)];
      ok := TypeAttempts(g, text, steps);
    }

    /** The field `fill_field` works on: the visible match, else the recovered one. */
    method LocateField(loc: Locator) returns (element: Option<Handle>)
      ensures element == FillTarget(driver.Snap(), driver.behaviour, loc)
    {
      element := Resolve(driver.Snap(), loc, Visible);
      if element.None? || !ElementExists(element) {
        element := EnsureValidElement(loc, element);
      }
    }

    /** The typing attempts of `fill_field` on the live field `g`. */
    method TypeAttempts(g: Handle, text: string, steps: seq<FillStep>) returns (ok: bool)
      requires g < |driver.elems|
      modifies driver
      ensures var run := FillLoop(old(driver.elems)[g].value, text, steps, 0);
        ok == run.0 && driver.elems == old(driver.elems)[g := old(driver.elems)[g].(value := run.1)]
      ensures driver.trace == old(driver.trace)
    {
      ghost var e := driver.elems[g];
      ghost var whole := FillLoop(e.value, text, steps, 0);
      var attempts := MaxAttempts;
      while attempts > 0
        invariant 0 <= attempts <= MaxAttempts
        invariant g < |driver.elems| && driver.trace == old(driver.trace)
        invariant driver.elems == old(driver.elems)[g := e.(value := driver.elems[g].value)]
        invariant FillLoop(driver.elems[g].value, text, steps, MaxAttempts - attempts) == whole
      {
        var step := StepAt(steps, MaxAttempts - attempts);
        match step.afterKeys {
          case None =>
          case Some(typed) =>
            driver.elems := driver.elems[g := driver.elems[g].(value := typed)];
            var currentValue := driver.elems[g].value;
            if currentValue == text {
              return true;
            }
            match step.afterScript {
              case None =>
              case Some(readBack) =>
                driver.elems := driver.elems[g := driver.elems[g].(value := readBack)];
                currentValue := driver.elems[g].value;
                if currentValue == text {
                  return true;
                }
            }
        }
        attempts := attempts - 1;
      }
      return false;
    }

    /**
     * `fill_masked_field`: no recovery; suppress the field's key listeners,
     * clear it, filter the text to digits under a numeric mask, type it key by
     * key, accept a value that contains or is contained in the text, else assign
     * the text by script and report success.
     */
    method FillMaskedField(loc: Locator, text: string, mask: Option<string>, keys: seq<Option<string>>) returns (ok: bool)
      modifies driver
      ensures var f := FillMasked(old(driver.Snap()), loc, text, mask, keys);
        ok == f.ok && driver.elems == f.elems
      ensures var h := Resolve(old(driver.Snap()), loc, Visible);
        driver.trace == old(driver.trace) + if h.Some? then [SuppressListeners(h.value)] else []
    {
      var s := driver.Snap();
      var element := Resolve(s, loc, Visible);
      if element.None? || !ElementExists(element) {
        return false;
      }
      var g := element.value;
      driver.trace := driver.trace + [SuppressListeners(g)];
      driver.elems := driver.elems[g := driver.elems[g].(value := "")];
      var t := text;
      if mask.Some? && HasDigit(mask.value) {
        t := Digits(text);
      }
      assert t == MaskedText(text, mask);
      ok := TypeMasked(g, t, keys);
    }

    /** Type `t` into the cleared field `g`; keep a value the mask check accepts, else assign `t` by script. */
    method TypeMasked(g: Handle, t: string, keys: seq<Option<string>>) returns (ok: bool)
      requires g < |driver.elems| && driver.elems[g].value == ""
      modifies driver
      ensures var m := MaskedTyping(t, keys);
        ok == m.0 && driver.elems == old(driver.elems)[g := old(driver.elems)[g].(value := m.1)]
      ensures driver.trace == old(driver.trace)
    {
      ok := TypeKeys(g, |t|, keys);
      if !ok {
        return;
      }
      var currentValue := driver.elems[g].value;
      if MaskAccepts(currentValue, t) {
        return;
      }
      driver.elems := driver.elems[g := driver.elems[g].(value := t)];
    }

    /** The keystrokes of `fill_masked_field` into the cleared field `g`, one per character, each answered by the field's new value. */
    method TypeKeys(g: Handle, n: nat, keys: seq<Option<string>>) returns (ok: bool)
      requires g < |driver.elems| && driver.elems[g].value == ""
      modifies driver
      ensures var r := Typed("", keys, n);
        ok == r.0 && driver.elems == old(driver.elems)[g := old(driver.elems)[g].(value := r.1)]
      ensures driver.trace == old(driver.trace)
    {
      ghost var e := driver.elems[g];
      for i := 0 to n
        invariant g < |driver.elems| && driver.trace == old(driver.trace)
        invariant driver.elems == old(driver.elems)[g := e.(value := driver.elems[g].value)]
        invariant Typed("", keys, i) == (true, driver.elems[g].value)
      {
        if i >= |keys| || keys[i].None? {
          TypedRaises("", keys, i, n);
          return false;
        }
        driver.elems := driver.elems[g := driver.elems[g].(value := keys[i].value)];
      }
      return true;
    }

    /**
     * `handle_popup`: close-like controls, then a click on the popup, then its
     * removal, then the overlay sweep; it reports True only from a visibility
     * check that found the popup gone.
     */
    method HandlePopup(loc: Locator) returns (ok: bool)
      modifies driver
      ensures ok <==> !IsVisible(driver.Snap(), loc)
      ensures DetachesOnly(old(driver.elems), driver.elems)
      ensures Extends(old(driver.trace), driver.trace)
      ensures OverlaySweep in driver.trace[|old(driver.trace)|..] ==> driver.trace[|driver.trace| - 1] == OverlaySweep
    {
      ghost var t0, e0 := driver.trace, driver.elems;
      ok := CloseViaButtons(loc);
      if ok {
        assert OverlaySweep !in driver.trace[|t0|..];
        return;
      }
      assert OverlaySweep !in driver.trace[|t0|..];
      ghost var t1, e1 := driver.trace, driver.elems;
      var popup := Resolve(driver.Snap(), loc, Clickable);
      if popup.Some? {
        ghost var p := PopupClick(driver.Snap(), driver.behaviour, loc, popup.value);
        ok := ClickPopup(loc, popup.value);
        assert driver.trace[|t1|..] == p.trace;
        DetachesOnlyTrans(e0, e1, driver.elems);
        ExtendsTrans(t0, t1, driver.trace);
        if ok {
          assert OverlaySweep !in t1[|t0|..] + driver.trace[|t1|..];
          return;
        }
      }
      ghost var t2, e2 := driver.trace, driver.elems;
      ok := SweepOverlays(loc);
      DetachesOnlyTrans(e0, e2, driver.elems);
      ExtendsTrans(t0, t2, driver.trace);
    }

    /** The last strategy of `handle_popup`: remove the overlay containers, then check the popup's visibility once more. */
    method SweepOverlays(loc: Locator) returns (ok: bool)
      modifies driver
      ensures ok <==> !IsVisible(driver.Snap(), loc)
      ensures driver.elems == Detach(old(driver.elems), driver.behaviour.overlays)
      ensures driver.trace == old(driver.trace) + [OverlaySweep]
    {
      driver.elems := Detach(driver.elems, driver.behaviour.overlays);
      driver.trace := driver.trace + [OverlaySweep];
      ok := !IsVisible(driver.Snap(), loc);
    }

    /** The first strategy of `handle_popup`: click every displayed, enabled close-like control until the popup is gone. */
    method CloseViaButtons(loc: Locator) returns (closed: bool)
      modifies driver
      ensures closed ==> !IsVisible(driver.Snap(), loc)
      ensures DetachesOnly(old(driver.elems), driver.elems)
      ensures Extends(old(driver.trace), driver.trace)
      ensures forall e :: e in driver.trace[|old(driver.trace)|..] ==> e.Scroll? || e.ClickAttempt? || e.Dispatch?
    {
      ghost var t0, e0 := driver.trace, driver.elems;
      var closeButtons := Matches(driver.Snap(), CloseControls);
      for i := 0 to |closeButtons|
        invariant DetachesOnly(e0, driver.elems)
        invariant Extends(t0, driver.trace)
        invariant forall e :: e in driver.trace[|t0|..] ==> e.Scroll? || e.ClickAttempt? || e.Dispatch?
      {
        var button := closeButtons[i];
        if !ElementExists(Some(button)) {
          continue;
        }
        if driver.elems[button].displayed && driver.elems[button].enabled {
          ghost var eb, tb := driver.elems, driver.trace;
          var clicked := ClickElement(Some(button), true, true);
          DetachesOnlyTrans(e0, eb, driver.elems);
          ExtendsTrans(t0, tb, driver.trace);
          if clicked && !IsVisible(driver.Snap(), loc) {
            return true;
          }
        }
      }
      return false;
    }

    /**
     * The second and third strategies of `handle_popup`: click the popup itself,
     * then, unless that closed it, remove it from the page when it still exists.
     */
    method ClickPopup(loc: Locator, popup: Handle) returns (closed: bool)
      modifies driver
      ensures var p := PopupClick(old(driver.Snap()), driver.behaviour, loc, popup);
        closed == p.ok && driver.elems == p.elems && driver.trace == old(driver.trace) + p.trace
    {
      var clicked := ClickElement(Some(popup), true, true);
      if clicked && !IsVisible(driver.Snap(), loc) {
        return true;
      }
      if ElementExists(Some(popup)) {
        closed := RemovePopup(loc, popup);
        return;
      }
      return false;
    }

    /** The third strategy of `handle_popup`: take the popup out of the page, then check its visibility once more. */
    method RemovePopup(loc: Locator, popup: Handle) returns (closed: bool)
      modifies driver
      ensures driver.elems == Detach(old(driver.elems), {popup})
      ensures driver.trace == old(driver.trace) + [Remove(popup)]
      ensures closed <==> !IsVisible(driver.Snap(), loc)
    {
      driver.elems := Detach(driver.elems, {popup});
      driver.trace := driver.trace + [Remove(popup)];
      closed := !IsVisible(driver.Snap(), loc);
    }
  }
}
