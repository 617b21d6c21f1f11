/**
 * Specification functions for the resilient interaction layer: what element
 * recovery, clicking and field filling compute on a page snapshot. The
 * `WebElementHandler` class (element_handler.dfy) implements each of them with
 * the source's loops and is proved equal to them; the lemmas here state what
 * the source promises about them.
 */
module HandlerSpec {
  import opened Wrappers
  import opened Strings
  import opened Dom

  /** `TIMEOUTS["element_wait"]`, the handler's default wait in seconds. */
  const ElementWait: nat := 10

  /** Number of click attempts and of typing attempts. */
  const MaxAttempts: nat := 3

  /** The candidate test of `find_similar_element`: attached, displayed and enabled. */
  predicate Usable(s: Snapshot, h: Handle)
  {
    h < |s.elems| && s.elems[h].attached && s.elems[h].displayed && s.elems[h].enabled
  }

  /** The first usable handle of `hs`. */
  function FirstUsable(s: Snapshot, hs: seq<Handle>): (r: Option<Handle>)
    ensures r.Some? ==> r.value in hs && Usable(s, r.value)
    ensures r.None? <==> forall k :: 0 <= k < |hs| ==> !Usable(s, hs[k])
  {
    if hs == [] then None
    else if Usable(s, hs[0]) then Some(hs[0])
    else FirstUsable(s, hs[1..])
  }

  /** The first usable candidate is the one returned: usable candidates after it are never preferred. */
  lemma {:induction false} FirstUsableIsFirst(s: Snapshot, hs: seq<Handle>, i: nat)
    requires i < |hs| && Usable(s, hs[i]) && forall k :: 0 <= k < i ==> !Usable(s, hs[k])
    ensures FirstUsable(s, hs) == Some(hs[i])
  {
    if i > 0 {
      FirstUsableIsFirst(s, hs[1..], i - 1);
    }
  }

  /** The first usable node carrying the class token `c`. */
  function TokenMatch(s: Snapshot, c: string): Option<Handle>
  {
    FirstUsable(s, Matches(s, ByClassName(c)))
  }

  /** The first answer of `f` over the tokens `cs`, in order, that finds something. */
  function FirstHit(cs: seq<string>, f: string -> Option<Handle>): (r: Option<Handle>)
    ensures r.Some? ==> exists k :: 0 <= k < |cs| && f(cs[k]) == r
    ensures r.None? <==> forall k :: 0 <= k < |cs| ==> f(cs[k]).None?
  {
    if cs == [] then None
    else if f(cs[0]).Some? then f(cs[0])
    else FirstHit(cs[1..], f)
  }

  /** The first token that finds something decides, whatever later tokens would find. */
  lemma {:induction false} FirstHitIsFirst(cs: seq<string>, f: string -> Option<Handle>, i: nat)
    requires i < |cs| && f(cs[i]).Some? && forall k :: 0 <= k < i ==> f(cs[k]).None?
    ensures FirstHit(cs, f) == f(cs[i])
  {
    if i > 0 {
      FirstHitIsFirst(cs[1..], f, i - 1);
    }
  }

  /** Class step: for each class token in order, the first usable node carrying that class. */
  function FirstUsableByClass(s: Snapshot, classes: seq<string>): (r: Option<Handle>)
    ensures r.Some? ==> Usable(s, r.value)
    ensures r.None? <==> forall k :: 0 <= k < |classes| ==> TokenMatch(s, classes[k]).None?
  {
    FirstHit(classes, c => TokenMatch(s, c))
  }

  /** Tokens are tried in order: the first token with a usable match decides, whatever later tokens would find. */
  lemma FirstUsableByClassIsFirst(s: Snapshot, classes: seq<string>, i: nat)
    requires i < |classes| && TokenMatch(s, classes[i]).Some?
    requires forall k :: 0 <= k < i ==> TokenMatch(s, classes[k]).None?
    ensures FirstUsableByClass(s, classes) == TokenMatch(s, classes[i])
  {
    FirstHitIsFirst(classes, c => TokenMatch(s, c), i);
  }

  /** Tag step candidate test: same `type` and `name` attributes as the original, and usable. */
  predicate LikeOriginal(s: Snapshot, h: Handle, o: Element)
  {
    h < |s.elems| && s.elems[h].kind == o.kind && s.elems[h].name == o.name && Usable(s, h)
  }

  function FirstLike(s: Snapshot, hs: seq<Handle>, o: Element): (r: Option<Handle>)
    ensures r.Some? ==> r.value in hs && LikeOriginal(s, r.value, o)
    ensures r.None? <==> forall k :: 0 <= k < |hs| ==> !LikeOriginal(s, hs[k], o)
  {
    if hs == [] then None
    else if LikeOriginal(s, hs[0], o) then Some(hs[0])
    else FirstLike(s, hs[1..], o)
  }

  /** The first candidate like the original is the one returned. */
  lemma {:induction false} FirstLikeIsFirst(s: Snapshot, hs: seq<Handle>, o: Element, i: nat)
    requires i < |hs| && LikeOriginal(s, hs[i], o) && forall k :: 0 <= k < i ==> !LikeOriginal(s, hs[k], o)
    ensures FirstLike(s, hs, o) == Some(hs[i])
  {
    if i > 0 {
      FirstLikeIsFirst(s, hs[1..], o, i - 1);
    }
  }

  function SimilarByTag(s: Snapshot, o: Element): (r: Option<Handle>)
    ensures r.Some? ==> Usable(s, r.value)
  {
    if o.tag != "" then FirstLike(s, Matches(s, ByTagName(o.tag)), o) else None
  }

  /** Text step; a quote in the text makes the generated XPath invalid, so the query raises. */
  function SimilarByText(s: Snapshot, o: Element): (r: Option<Handle>)
    ensures r.Some? ==> Usable(s, r.value)
  {
    if o.text == "" then SimilarByTag(s, o)
    else if '\'' in o.text then None
    else
      var t := FirstUsable(s, Matches(s, ByTextContains(o.text)));
      if t.Some? then t else SimilarByTag(s, o)
  }

  /**
   * The text step compares the original's rendered text with each candidate's
   * own text node, so an ancestor whose text only comes from its children is
   * never what the step returns.
   */
  lemma TextStepByOwnText(s: Snapshot, o: Element)
    requires o.text != "" && '\'' !in o.text
    requires FirstUsable(s, Matches(s, ByTextContains(o.text))).Some?
    ensures var r := SimilarByText(s, o);
      r.Some? && r.value < |s.elems| && Contains(s.elems[r.value].ownText, o.text)
  {
  }

  function SimilarByClass(s: Snapshot, o: Element): (r: Option<Handle>)
    ensures r.Some? ==> Usable(s, r.value)
  {
    var c := FirstUsableByClass(s, o.classes);
    if c.Some? then c else SimilarByText(s, o)
  }

  /**
   * `find_similar_element`: id, then class tokens, then text, then tag with the
   * same type and name. Reading the original's attributes may raise, and the id
   * lookup raises when no node has that id: both end the search with None.
   */
  function Similar(s: Snapshot, b: Behaviour, orig: Option<Handle>): (r: Option<Handle>)
    ensures r.Some? ==> Usable(s, r.value)
  {
    match Attrs(s, b, orig)
    case None => None
    case Some(o) =>
      if o.id != "" then
        var ms := Matches(s, ById(o.id));
        if |ms| == 0 then None
        else if Usable(s, ms[0]) then Some(ms[0])
        else SimilarByClass(s, o)
      else SimilarByClass(s, o)
  }

  /** The id step comes first: a usable first node with the original's id is returned before any class, text or tag step. */
  lemma SimilarIdFirst(s: Snapshot, b: Behaviour, orig: Option<Handle>)
    requires Attrs(s, b, orig).Some? && Attrs(s, b, orig).value.id != ""
    requires var ms := Matches(s, ById(Attrs(s, b, orig).value.id)); |ms| > 0 && Usable(s, ms[0])
    ensures Similar(s, b, orig) == Some(Matches(s, ById(Attrs(s, b, orig).value.id))[0])
  {
  }

  /** An id lookup that finds nothing raises and ends the search with None, however well a later step would match. */
  lemma SimilarIdMissEnds(s: Snapshot, b: Behaviour, orig: Option<Handle>)
    requires Attrs(s, b, orig).Some? && Attrs(s, b, orig).value.id != ""
    requires |Matches(s, ById(Attrs(s, b, orig).value.id))| == 0
    ensures Similar(s, b, orig) == None
  {
  }

  /**
   * Past the id step, the class step wins over the text and tag steps, and the
   * text step over the tag step: a node found by an earlier step is returned,
   * and the tag step decides only when the earlier steps found nothing.
   */
  lemma SimilarStepOrder(s: Snapshot, b: Behaviour, orig: Option<Handle>)
    requires Attrs(s, b, orig).Some?
    requires var o := Attrs(s, b, orig).value;
      o.id == "" || (|Matches(s, ById(o.id))| > 0 && !Usable(s, Matches(s, ById(o.id))[0]))
    ensures var o := Attrs(s, b, orig).value;
      var c := FirstUsableByClass(s, o.classes);
      var t := FirstUsable(s, Matches(s, ByTextContains(o.text)));
      (c.Some? ==> Similar(s, b, orig) == c)
      && (c.None? && o.text != "" && '\'' !in o.text && t.Some? ==> Similar(s, b, orig) == t)
      && (c.None? && o.text != "" && '\'' in o.text ==> Similar(s, b, orig) == None)
      && (c.None? && (o.text == "" || ('\'' !in o.text && t.None?)) ==> Similar(s, b, orig) == SimilarByTag(s, o))
  {
  }

  /** The wait strategies of `ensure_valid_element`, in order. */
  const RecoveryModes: seq<Mode> := [Present, Visible, Clickable]

  /** The first wait among `modes` whose result passes the liveness probe. */
  function RecoverByWaits(s: Snapshot, loc: Locator, modes: seq<Mode>): (r: Option<Handle>)
    ensures r.Some? ==> Live(s, r)
  {
    if modes == [] then None
    else
      var n := Resolve(s, loc, modes[0]);
      if Live(s, n) then n else RecoverByWaits(s, loc, modes[1..])
  }

  /** `ensure_valid_element`: a live handle unchanged, else the waits in order, else a similar node. */
  function EnsureValid(s: Snapshot, b: Behaviour, loc: Locator, h: Option<Handle>): (r: Option<Handle>)
    ensures r.Some? ==> Live(s, r)
  {
    if Live(s, h) then h
    else
      var w := RecoverByWaits(s, loc, RecoveryModes);
      if w.Some? then w else Similar(s, b, h)
  }

  /** Recovery never yields a stale handle, and calling it again on its result changes nothing. */
  lemma EnsureValidIdempotent(s: Snapshot, b: Behaviour, loc: Locator, loc': Locator, h: Option<Handle>)
    ensures var r := EnsureValid(s, b, loc, h);
      r.Some? ==> EnsureValid(s, b, loc', r) == r
  {
  }

  /** Once the present-mode wait fails, the visible and clickable waits cannot succeed either. */
  lemma {:induction false} RecoverByWaitsIsPresentWait(s: Snapshot, loc: Locator)
    ensures RecoverByWaits(s, loc, RecoveryModes) == Resolve(s, loc, Present)
  {
    ModesNested(s, loc);
    assert [Clickable][1..] == [];
    assert RecoverByWaits(s, loc, [Clickable]) == Resolve(s, loc, Clickable);
    assert [Visible, Clickable][1..] == [Clickable];
    assert RecoverByWaits(s, loc, [Visible, Clickable]) == Resolve(s, loc, Visible);
    assert RecoveryModes[1..] == [Visible, Clickable];
  }

  // ---------------------------------------------------------------- clicking

  /** The page's outcome of the k-th click attempt on `h`; a node without a recorded outcome just clicks. */
  function OutcomeAt(b: Behaviour, h: Handle, k: nat): ClickOutcome
  {
    if h in b.clickOutcomes && k < |b.clickOutcomes[h]| then b.clickOutcomes[h][k] else Clicked
  }

  function Reaction(b: Behaviour, h: Handle): set<Handle>
  {
    if h in b.reactions then b.reactions[h] else {}
  }

  /**
   * Attempt kinds (true for a native click) made by the attempt loop, whether it
   * succeeded, whether the success was by dispatched events, and whether the
   * loop ended because the node, live when the loop began, left the document.
   */
  datatype ClickRun = ClickRun(ok: bool, kinds: seq<bool>, dispatched: bool, lost: bool)

  /**
   * Attempts k, k+1, ... of the click loop on `h`, whose node is attached iff
   * `live` when the loop begins. Attempt 0 is native unless `useJs`; every
   * other attempt is a script click. On a detached node the attempt raises a
   * stale error and the re-probe ends the loop; on a live node a stale error
   * ends it too when the re-probe finds the node gone, and is retried otherwise.
   */
  function ClickLoop(b: Behaviour, h: Handle, live: bool, useJs: bool, k: nat): (r: ClickRun)
    requires k <= MaxAttempts
    decreases MaxAttempts - k
  {
    if k == MaxAttempts then ClickRun(false, [], false, false)
    else
      var native := !useJs && k == 0;
      if !live then ClickRun(false, [native], false, false)
      else
        match LastAttempt(OutcomeAt(b, h, k), native)
        case Some(last) => last
        case None =>
          var rest := ClickLoop(b, h, live, useJs, k + 1);
          ClickRun(rest.ok, [native] + rest.kinds, rest.dispatched, rest.lost)
  }

  /**
   * How the loop takes the outcome of one attempt on a live node: the run made
   * of that single attempt when it ends the loop, None when it is retried.
   */
  function LastAttempt(o: ClickOutcome, native: bool): (r: Option<ClickRun>)
    ensures r.None? <==> o == StaleError(false) || o == Intercepted(false)
  {
    match o
    case Clicked => Some(ClickRun(true, [native], false, false))
    case Intercepted(d) => if d then Some(ClickRun(true, [native], true, false)) else None
    case StaleError(gone) => if gone then Some(ClickRun(false, [native], false, true)) else None
    case OtherError => Some(ClickRun(false, [native], false, false))
  }

  function AttemptTrace(h: Handle, kinds: seq<bool>): (t: seq<Effect>)
    ensures |t| == |kinds|
    ensures forall i :: 0 <= i < |kinds| ==> t[i] == ClickAttempt(h, kinds[i])
  {
    seq(|kinds|, i requires 0 <= i < |kinds| => ClickAttempt(h, kinds[i]))
  }

  /** Outcome of the stale-handle recovery at the start of `click_element`. */
  datatype Recovery = Proceed(h: Handle) | Abort

  /** The recovery locator: the id when present, else the first class token. */
  function RecoveryLocator(e: Element): Option<Locator>
  {
    if e.id != "" then Some(ById(e.id))
    else if |e.classes| > 0 then Some(ByClassName(e.classes[0]))
    else None
  }

  function RecoverForClick(s: Snapshot, b: Behaviour, h: Option<Handle>): (r: Recovery)
  {
    if Live(s, h) then Proceed(h.value)
    else
      match Attrs(s, b, h)
      case None => Abort
      case Some(e) =>
        var loc := RecoveryLocator(e);
        var n := if loc.Some? then EnsureValid(s, b, loc.value, h) else h;
        var m := if n.Some? then n else Similar(s, b, h);
        if m.Some? then Proceed(m.value) else Abort
  }

  /** Result of `click_element`: the verdict, the effects it recorded, and the page afterwards. */
  datatype ClickResult = ClickResult(ok: bool, trace: seq<Effect>, elems: seq<Element>)

  /**
   * The attempt loop on `g`: its verdict, the attempts and dispatch it recorded,
   * and the page afterwards, where a successful click has taken its reaction
   * out of the document and a node found gone after a stale error is detached.
   */
  function Attempts(s: Snapshot, b: Behaviour, g: Handle, useJs: bool): (r: ClickResult)
    ensures DetachesOnly(s.elems, r.elems)
    ensures forall e :: e in r.trace ==> e.ClickAttempt? || e.Dispatch?
  {
    var run := ClickLoop(b, g, Live(s, Some(g)), useJs, 0);
    ClickResult(run.ok, RunTrace(g, run), AfterRun(s.elems, b, g, run))
  }

  /** The effects a run of the attempt loop on `g` records: its attempts, then the dispatch if there was one. */
  function RunTrace(g: Handle, run: ClickRun): (t: seq<Effect>)
    ensures forall e :: e in t ==> e.ClickAttempt? || e.Dispatch?
  {
    AttemptTrace(g, run.kinds) + if run.dispatched then [Dispatch(g)] else []
  }

  /** The page after a run of the attempt loop on `g`. */
  function AfterRun(elems: seq<Element>, b: Behaviour, g: Handle, run: ClickRun): (r: seq<Element>)
    ensures DetachesOnly(elems, r)
  {
    if run.ok then Detach(elems, Reaction(b, g))
    else if run.lost then Detach(elems, {g})
    else elems
  }

  function Click(s: Snapshot, b: Behaviour, h: Option<Handle>, useJs: bool, tryScroll: bool): (r: ClickResult)
    ensures DetachesOnly(s.elems, r.elems)
    ensures forall e :: e in r.trace ==> e.Scroll? || e.ClickAttempt? || e.Dispatch?
  {
    match RecoverForClick(s, b, h)
    case Abort => ClickResult(false, [], s.elems)
    case Proceed(g) =>
      var a := Attempts(s, b, g, useJs);
      var scroll := if tryScroll && Live(s, Some(g)) then [Scroll(g)] else [];
      ClickResult(a.ok, scroll + a.trace, a.elems)
  }

  /** A recovered click is the optional scroll followed by the attempt loop. */
  lemma ClickProceeds(s: Snapshot, b: Behaviour, h: Option<Handle>, useJs: bool, tryScroll: bool, g: Handle)
    requires RecoverForClick(s, b, h) == Proceed(g)
    ensures var a := Attempts(s, b, g, useJs);
      Click(s, b, h, useJs, tryScroll) ==
        ClickResult(a.ok, (if tryScroll && Live(s, Some(g)) then [Scroll(g)] else []) + a.trace, a.elems)
  {
  }

  /**
   * The second and third strategies of `handle_popup` on the clickable popup
   * `popup`: a script click, and unless that made the popup selector invisible,
   * the popup's removal when it still exists, followed by a visibility check.
   */
  function PopupClick(s: Snapshot, b: Behaviour, loc: Locator, popup: Handle): (r: ClickResult)
    ensures DetachesOnly(s.elems, r.elems)
    ensures forall e :: e in r.trace ==> e.Scroll? || e.ClickAttempt? || e.Dispatch? || e.Remove?
    ensures r.ok ==> !IsVisible(Snapshot(r.elems, s.located), loc)
  {
    var c := Click(s, b, Some(popup), true, true);
    var after := Snapshot(c.elems, s.located);
    if c.ok && !IsVisible(after, loc) then c
    else if Live(after, Some(popup)) then
      var removed := Detach(c.elems, {popup});
      ClickResult(!IsVisible(Snapshot(removed, s.located), loc), c.trace + [Remove(popup)], removed)
    else ClickResult(false, c.trace, c.elems)
  }

  /** The trace `t` continues the trace `t0`: effects are only ever appended. */
  ghost predicate Extends(t0: seq<Effect>, t: seq<Effect>)
  {
    |t0| <= |t| && t[..|t0|] == t0
  }

  /** Appending is transitive, and the effects added over two steps are those of each step in turn. */
  lemma ExtendsTrans(t0: seq<Effect>, t1: seq<Effect>, t2: seq<Effect>)
    requires Extends(t0, t1) && Extends(t1, t2)
    ensures Extends(t0, t2)
    ensures t2[|t0|..] == t1[|t0|..] + t2[|t1|..]
  {
    assert t2[..|t1|][..|t0|] == t2[..|t0|];
  }

  /** `whole` is the run `rest` continues after the attempts `done`. */
  predicate Resumes(whole: ClickRun, done: seq<bool>, rest: ClickRun)
  {
    whole == ClickRun(rest.ok, done + rest.kinds, rest.dispatched, rest.lost)
  }

  lemma ResumesStep(whole: ClickRun, done: seq<bool>, native: bool, next: ClickRun)
    requires Resumes(whole, done, ClickRun(next.ok, [native] + next.kinds, next.dispatched, next.lost))
    ensures Resumes(whole, done + [native], next)
  {
    assert done + ([native] + next.kinds) == (done + [native]) + next.kinds;
  }

  /** One attempt of the loop: an attempt that ends the loop completes the run, any other leaves the rest of the loop to run. */
  lemma ClickLoopAdvance(b: Behaviour, g: Handle, useJs: bool, k: nat, whole: ClickRun, kinds: seq<bool>)
    requires k < MaxAttempts && Resumes(whole, kinds, ClickLoop(b, g, true, useJs, k))
    ensures var native := !useJs && k == 0;
      var last := LastAttempt(OutcomeAt(b, g, k), native);
      if last.Some? then whole == ClickRun(last.value.ok, kinds + last.value.kinds, last.value.dispatched, last.value.lost)
      else Resumes(whole, kinds + [native], ClickLoop(b, g, true, useJs, k + 1))
  {
    var native := !useJs && k == 0;
    if LastAttempt(OutcomeAt(b, g, k), native).None? {
      ResumesStep(whole, kinds, native, ClickLoop(b, g, true, useJs, k + 1));
    }
  }

  /** The attempt loop makes between one and three attempts; the first is native unless `useJs`, the rest are script clicks. */
  lemma {:induction false} ClickLoopAttempts(b: Behaviour, h: Handle, live: bool, useJs: bool, k: nat)
    requires k < MaxAttempts
    decreases MaxAttempts - k
    ensures var r := ClickLoop(b, h, live, useJs, k);
      1 <= |r.kinds| <= MaxAttempts - k
      && r.kinds[0] == (!useJs && k == 0)
      && (forall i :: 1 <= i < |r.kinds| ==> !r.kinds[i])
      && (r.dispatched ==> r.ok)
      && (r.lost ==> live && !r.ok)
  {
    if live && k + 1 < MaxAttempts {
      match OutcomeAt(b, h, k)
      case Clicked =>
      case Intercepted(d) => if !d { ClickLoopAttempts(b, h, live, useJs, k + 1); }
      case StaleError(gone) => if !gone { ClickLoopAttempts(b, h, live, useJs, k + 1); }
      case OtherError =>
    }
  }

  /** A click succeeds only on a live node, at an attempt whose native or script click went through or whose interception was answered by dispatched events. */
  lemma {:induction false} ClickLoopOkWitness(b: Behaviour, h: Handle, live: bool, useJs: bool, k: nat)
    requires k <= MaxAttempts
    decreases MaxAttempts - k
    ensures var r := ClickLoop(b, h, live, useJs, k);
      r.ok ==> live && (exists j :: k <= j < MaxAttempts && j - k == |r.kinds| - 1 &&
                          (OutcomeAt(b, h, j) == Clicked || OutcomeAt(b, h, j) == Intercepted(true)))
  {
    if k < MaxAttempts && live {
      match OutcomeAt(b, h, k)
      case Clicked =>
      case Intercepted(d) => if !d { ClickLoopOkWitness(b, h, live, useJs, k + 1); }
      case StaleError(gone) => if !gone { ClickLoopOkWitness(b, h, live, useJs, k + 1); }
      case OtherError =>
    }
  }

  /** Outcomes the loop retries: a stale error whose re-probe finds the node, or an interception whose dispatch raised. */
  predicate Retried(o: ClickOutcome)
  {
    o == StaleError(false) || o == Intercepted(false)
  }

  /** The converse: after retried attempts only, the first attempt whose click went through or whose dispatch succeeded ends the loop with True. */
  lemma {:induction false} ClickLoopFirstSuccess(b: Behaviour, h: Handle, useJs: bool, k: nat, j: nat)
    requires k <= j < MaxAttempts
    requires forall i :: k <= i < j ==> Retried(OutcomeAt(b, h, i))
    requires OutcomeAt(b, h, j) == Clicked || OutcomeAt(b, h, j) == Intercepted(true)
    decreases j - k
    ensures var r := ClickLoop(b, h, true, useJs, k);
      r.ok && |r.kinds| == j - k + 1 && r.dispatched == (OutcomeAt(b, h, j) == Intercepted(true)) && !r.lost
  {
    if k < j {
      ClickLoopFirstSuccess(b, h, useJs, k + 1, j);
    }
  }

  /** Any error other than interception or staleness ends the loop: no further attempt is made. */
  lemma OtherErrorStops(b: Behaviour, h: Handle, useJs: bool, k: nat)
    requires k < MaxAttempts && OutcomeAt(b, h, k) == OtherError
    ensures ClickLoop(b, h, true, useJs, k) == ClickRun(false, [!useJs && k == 0], false, false)
  {
  }

  /** A detached node is tried once: the stale error and the failed re-probe end the loop with False. */
  lemma DetachedTriedOnce(b: Behaviour, h: Handle, useJs: bool)
    ensures ClickLoop(b, h, false, useJs, 0) == ClickRun(false, [!useJs], false, false)
  {
  }

  /** A stale error whose re-probe finds the node gone ends the loop with False at that attempt, whichever it is. */
  lemma StaleGoneStops(b: Behaviour, h: Handle, useJs: bool, k: nat)
    requires k < MaxAttempts && OutcomeAt(b, h, k) == StaleError(true)
    ensures ClickLoop(b, h, true, useJs, k) == ClickRun(false, [!useJs && k == 0], false, true)
  {
  }

  /**
   * A node that leaves the document after a first, retried attempt is not tried
   * a third time: the loop ends with False after two attempts, and the page has
   * the node detached.
   */
  lemma DetachedAfterFirstAttempt(s: Snapshot, b: Behaviour, g: Handle, useJs: bool)
    requires Live(s, Some(g)) && Retried(OutcomeAt(b, g, 0)) && OutcomeAt(b, g, 1) == StaleError(true)
    ensures Attempts(s, b, g, useJs) == ClickResult(false, [ClickAttempt(g, !useJs), ClickAttempt(g, false)], Detach(s.elems, {g}))
  {
    var run := ClickLoop(b, g, true, useJs, 0);
    assert run == ClickRun(false, [!useJs, false], false, true);
    assert AttemptTrace(g, run.kinds) == [ClickAttempt(g, !useJs), ClickAttempt(g, false)];
  }

  /**
   * A recovered node that is live is clicked until the first attempt that goes
   * through: after retried attempts only, that attempt gives True and the
   * click's reaction leaves the document.
   */
  lemma ClickFirstSuccess(s: Snapshot, b: Behaviour, h: Option<Handle>, useJs: bool, tryScroll: bool, g: Handle, j: nat)
    requires RecoverForClick(s, b, h) == Proceed(g) && Live(s, Some(g))
    requires j < MaxAttempts && forall i :: 0 <= i < j ==> Retried(OutcomeAt(b, g, i))
    requires OutcomeAt(b, g, j) == Clicked || OutcomeAt(b, g, j) == Intercepted(true)
    ensures var r := Click(s, b, h, useJs, tryScroll);
      r.ok && r.elems == Detach(s.elems, Reaction(b, g))
      && |r.trace| == (if tryScroll then 1 else 0) + (j + 1) + (if OutcomeAt(b, g, j).Intercepted? then 1 else 0)
  {
    ClickLoopFirstSuccess(b, g, useJs, 0, j);
  }

  /** The whole click: at most three attempts, the first native unless `useJs`, success only on a live node. */
  lemma ClickAttemptBound(s: Snapshot, b: Behaviour, h: Option<Handle>, useJs: bool, tryScroll: bool)
    ensures var r := Click(s, b, h, useJs, tryScroll);
      match RecoverForClick(s, b, h)
      case Abort => !r.ok && r.trace == [] && r.elems == s.elems
      case Proceed(g) =>
        var run := ClickLoop(b, g, Live(s, Some(g)), useJs, 0);
        1 <= |run.kinds| <= MaxAttempts && run.kinds[0] == !useJs
        && (forall i :: 1 <= i < |run.kinds| ==> !run.kinds[i])
        && (r.ok ==> Live(s, Some(g)))
  {
    match RecoverForClick(s, b, h)
    case Abort =>
    case Proceed(g) =>
      ClickLoopAttempts(b, g, Live(s, Some(g)), useJs, 0);
      ClickLoopOkWitness(b, g, Live(s, Some(g)), useJs, 0);
  }

  /** A stale handle with neither id nor class is not recovered: the click runs on it and fails after one attempt. */
  lemma StaleWithoutLocatorFails(s: Snapshot, b: Behaviour, h: Handle, useJs: bool, tryScroll: bool)
    requires h < |s.elems| && !s.elems[h].attached && !b.readsFailWhenDetached
    requires s.elems[h].id == "" && s.elems[h].classes == []
    ensures RecoverForClick(s, b, Some(h)) == Proceed(h)
    ensures Click(s, b, Some(h), useJs, tryScroll) == ClickResult(false, [ClickAttempt(h, !useJs)], s.elems)
  {
  }

  /** Under Selenium's semantics, reading a detached node raises, so recovery of a stale handle always aborts. */
  lemma StaleRecoveryAborts(s: Snapshot, b: Behaviour, h: Option<Handle>, useJs: bool, tryScroll: bool)
    requires b.readsFailWhenDetached && !Live(s, h)
    ensures RecoverForClick(s, b, h) == Abort
    ensures !Click(s, b, h, useJs, tryScroll).ok
  {
  }

  // ---------------------------------------------------------------- filling

  /**
   * What one typing attempt leaves in the field: the value read back after the
   * keystrokes, and after the scripted assignment; None when that step raised.
   */
  datatype FillStep = FillStep(afterKeys: Option<string>, afterScript: Option<string>)

  function StepAt(steps: seq<FillStep>, i: nat): FillStep
  {
    if i < |steps| then steps[i] else FillStep(None, None)
  }

  /** Attempts i, i+1, ... of the typing loop starting from field value `value`: (verified, final value). */
  function FillLoop(value: string, text: string, steps: seq<FillStep>, i: nat): (r: (bool, string))
    requires i <= MaxAttempts
    decreases MaxAttempts - i
  {
    if i == MaxAttempts then (false, value)
    else
      var st := StepAt(steps, i);
      match st.afterKeys
      case None => FillLoop(value, text, steps, i + 1)
      case Some(v) =>
        if v == text then (true, v)
        else
          match st.afterScript
          case None => FillLoop(v, text, steps, i + 1)
          case Some(w) => if w == text then (true, w) else FillLoop(w, text, steps, i + 1)
  }

  /** Result of `fill_field`: the verdict, the field used (if any) and the page afterwards. */
  datatype FillResult = FillResult(ok: bool, field: Option<Handle>, elems: seq<Element>)

  /** The field `fill_field` works on: the visible match, else whatever recovery yields. */
  function FillTarget(s: Snapshot, b: Behaviour, loc: Locator): (r: Option<Handle>)
    ensures r.Some? ==> Live(s, r)
  {
    var first := Resolve(s, loc, Visible);
    if Live(s, first) then first else EnsureValid(s, b, loc, first)
  }

  /** The field after it was re-enabled (when disabled) and cleared (when asked). */
  function Prepared(e: Element, clear: bool): Element
  {
    var e1 := e.(enabled := true);
    if clear then e1.(value := "") else e1
  }

  function Fill(s: Snapshot, b: Behaviour, loc: Locator, text: string, clear: bool, steps: seq<FillStep>): (r: FillResult)
  {
    match FillTarget(s, b, loc)
    case None => FillResult(false, None, s.elems)
    case Some(g) =>
      var e := Prepared(s.elems[g], clear);
      var run := FillLoop(e.value, text, steps, 0);
      FillResult(run.0, Some(g), s.elems[g := e.(value := run.1)])
  }

  lemma {:induction false} FillLoopVerified(value: string, text: string, steps: seq<FillStep>, i: nat)
    requires i <= MaxAttempts
    ensures FillLoop(value, text, steps, i).0 ==> FillLoop(value, text, steps, i).1 == text
    decreases MaxAttempts - i
  {
    if i < MaxAttempts {
      var st := StepAt(steps, i);
      match st.afterKeys
      case None => FillLoopVerified(value, text, steps, i + 1);
      case Some(v) =>
        if v != text {
          match st.afterScript
          case None => FillLoopVerified(v, text, steps, i + 1);
          case Some(w) => if w != text { FillLoopVerified(w, text, steps, i + 1); }
        }
    }
  }

  /** `fill_field` returns True only when the value read back from the field it filled equals `text`. */
  lemma FillVerified(s: Snapshot, b: Behaviour, loc: Locator, text: string, clear: bool, steps: seq<FillStep>)
    ensures var r := Fill(s, b, loc, text, clear, steps);
      r.ok ==> r.field.Some? && r.field.value < |r.elems| && r.elems[r.field.value].value == text
  {
    match FillTarget(s, b, loc)
    case None =>
    case Some(g) => FillLoopVerified(Prepared(s.elems[g], clear).value, text, steps, 0);
  }

  /** A field that can be neither found nor recovered gives False and leaves the page as it was. */
  lemma FillNotFound(s: Snapshot, b: Behaviour, loc: Locator, text: string, clear: bool, steps: seq<FillStep>)
    requires FillTarget(s, b, loc).None?
    ensures Fill(s, b, loc, text, clear, steps) == FillResult(false, None, s.elems)
  {
  }

  /** At most three typing attempts: the answers to a fourth and later attempt never matter. */
  lemma {:induction false} FillLoopThreeAttempts(value: string, text: string, steps: seq<FillStep>, i: nat)
    requires i <= MaxAttempts && |steps| >= MaxAttempts
    ensures FillLoop(value, text, steps, i) == FillLoop(value, text, steps[..MaxAttempts], i)
    decreases MaxAttempts - i
  {
    if i < MaxAttempts {
      assert StepAt(steps, i) == StepAt(steps[..MaxAttempts], i);
      var st := StepAt(steps, i);
      FillLoopThreeAttempts(value, text, steps, i + 1);
      match st.afterKeys
      case None =>
      case Some(v) =>
        FillLoopThreeAttempts(v, text, steps, i + 1);
        match st.afterScript
        case None =>
        case Some(w) => FillLoopThreeAttempts(w, text, steps, i + 1);
    }
  }

  // ---------------------------------------------------------------- masked fields

  /** A mask containing a digit reduces the text to its digits. */
  function MaskedText(text: string, mask: Option<string>): (t: string)
    ensures mask.Some? && HasDigit(mask.value) ==> AllDigits(t)
    ensures !(mask.Some? && HasDigit(mask.value)) ==> t == text
  {
    if mask.Some? && HasDigit(mask.value) then Digits(text) else text
  }

  /** Typing keystrokes 0..n-1: each answer is the field value after that keystroke, None when it raised. */
  function Typed(value: string, keys: seq<Option<string>>, n: nat): (r: (bool, string))
  {
    if n == 0 then (true, value)
    else
      var p := Typed(value, keys, n - 1);
      if !p.0 then p
      else if n - 1 < |keys| && keys[n - 1].Some? then (true, keys[n - 1].value)
      else (false, p.1)
  }

  /** The masked-field check: a non-empty value that contains, or is contained in, the text. */
  predicate MaskAccepts(v: string, t: string)
  {
    v != "" && (Contains(v, t) || Contains(t, v))
  }

  /** Typing `t` into the cleared field, then the check: (verdict, the field's final value). */
  function MaskedTyping(t: string, keys: seq<Option<string>>): (bool, string)
  {
    var typed := Typed("", keys, |t|);
    (typed.0, if !typed.0 || MaskAccepts(typed.1, t) then typed.1 else t)
  }

  function FillMasked(s: Snapshot, loc: Locator, text: string, mask: Option<string>, keys: seq<Option<string>>): (r: FillResult)
  {
    var h := Resolve(s, loc, Visible);
    if !Live(s, h) then FillResult(false, None, s.elems)
    else
      var g := h.value;
      var m := MaskedTyping(MaskedText(text, mask), keys);
      FillResult(m.0, h, s.elems[g := s.elems[g].(value := m.1)])
  }

  /**
   * `fill_masked_field` reports True only on a field it typed into, whose final
   * value then passes the mask check or equals the (filtered) text; a field that
   * is not visible gives False. `MaskedOk` and `TypedRaises` give the converse:
   * it succeeds exactly when no keystroke raised.
   */
  lemma MaskedOutcome(s: Snapshot, loc: Locator, text: string, mask: Option<string>, keys: seq<Option<string>>)
    ensures var r := FillMasked(s, loc, text, mask, keys);
      var t := MaskedText(text, mask);
      (r.ok ==> r.field.Some? && r.field.value < |r.elems|
                && (MaskAccepts(r.elems[r.field.value].value, t) || r.elems[r.field.value].value == t))
      && (!Live(s, Resolve(s, loc, Visible)) ==> !r.ok && r.elems == s.elems)
  {
  }

  /** A live visible field whose every keystroke is answered is filled with success. */
  lemma MaskedOk(s: Snapshot, loc: Locator, text: string, mask: Option<string>, keys: seq<Option<string>>)
    requires Live(s, Resolve(s, loc, Visible))
    requires |MaskedText(text, mask)| <= |keys| && forall i :: 0 <= i < |MaskedText(text, mask)| ==> keys[i].Some?
    ensures FillMasked(s, loc, text, mask, keys).ok
  {
    TypedAllAnswered("", keys, |MaskedText(text, mask)|);
  }

  /** Typing succeeds when every keystroke has an answer. */
  lemma {:induction false} TypedAllAnswered(value: string, keys: seq<Option<string>>, n: nat)
    requires n <= |keys| && forall i :: 0 <= i < n ==> keys[i].Some?
    ensures Typed(value, keys, n).0
    ensures n > 0 ==> Typed(value, keys, n).1 == keys[n - 1].value
  {
    if n > 0 {
      TypedAllAnswered(value, keys, n - 1);
    }
  }

  /** A keystroke that raises makes the masked fill fail, whatever the later answers. */
  lemma {:induction false} TypedRaises(value: string, keys: seq<Option<string>>, i: nat, n: nat)
    requires i < n && (i >= |keys| || keys[i].None?) && Typed(value, keys, i).0
    ensures Typed(value, keys, n) == (false, Typed(value, keys, i).1)
  {
    if n - 1 > i {
      TypedRaises(value, keys, i, n - 1);
    }
  }
}
