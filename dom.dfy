/**
 * The browser page as the element handler sees it through the driver.
 *
 * A handle is the index of a node in `elems`; nodes are never removed from the
 * sequence, a node taken out of the document is marked detached instead, so a
 * handle keeps meaning "that node" and becomes stale exactly when its node is
 * detached. Queries answer only with attached nodes, in document order.
 */
module Dom {
  import opened Wrappers
  import opened Strings

  type Handle = nat

  /**
   * One DOM node with the properties the handler reads (`kind` is the `type`
   * attribute). `text` is the rendered text the driver reports, descendants
   * included; `ownText` is the node's first own text node, which is what an
   * XPath `contains(text(), ...)` test looks at.
   */
  datatype Element = Element(
    attached: bool, displayed: bool, enabled: bool,
    id: string, classes: seq<string>, text: string, ownText: string, tag: string,
    kind: string, name: string, title: string, value: string)

  /**
   * A locator: the four kinds built by the handler itself are answered from the
   * nodes' properties; configured CSS selectors and XPath queries are answered
   * by the driver, which the page records in `located`.
   */
  datatype Locator =
    | ById(id: string)
    | ByClassName(cls: string)
    | ByTextContains(text: string)
    | ByTagName(tag: string)
    | CloseControls
    | Css(selector: string)
    | XPath(selector: string)

  /** Readiness required by a wait: present, visible, clickable. */
  datatype Mode = Present | Visible | Clickable

  /**
   * What one click attempt on a live node does. A stale-element error carries
   * the answer of the liveness re-probe that follows it: `gone` when the node
   * has left the document for good.
   */
  datatype ClickOutcome = Clicked | Intercepted(dispatchOk: bool) | StaleError(gone: bool) | OtherError

  /**
   * The page's fixed reactions: outcome of the k-th click attempt on a node,
   * the nodes a successful click on a node takes out of the document, the
   * overlay containers the overlay sweep removes, and whether reading an
   * attribute of a detached node raises (it does under Selenium).
   *
   * Click outcomes over-approximate the page: they are indexed by the attempt
   * number within one `click_element` call, so two calls on the same node meet
   * the same answers, and an interception may be answered on a script click,
   * which the driver's `execute_script` never raises.
   */
  datatype Behaviour = Behaviour(
    readsFailWhenDetached: bool,
    clickOutcomes: map<Handle, seq<ClickOutcome>>,
    reactions: map<Handle, set<Handle>>,
    overlays: set<Handle>)

  /** Script-only effects, recorded in order but otherwise opaque. */
  datatype Effect =
    | Scroll(h: Handle)
    | Focus(h: Handle)
    | ClickAttempt(h: Handle, native: bool)
    | Dispatch(h: Handle)
    | Unlock(h: Handle)
    | SuppressListeners(h: Handle)
    | Remove(h: Handle)
    | OverlaySweep

  datatype Snapshot = Snapshot(elems: seq<Element>, located: map<Locator, seq<Handle>>)

  /** Whether a handler-built locator selects `e` (configured selectors are never decided here). */
  predicate Selects(loc: Locator, e: Element)
  {
    match loc
    case ById(x) => e.id == x
    case ByClassName(c) => c in e.classes
    case ByTextContains(t) => Contains(e.ownText, t)
    case ByTagName(t) => e.tag == t
    case CloseControls =>
      (exists k :: 0 <= k < |e.classes| &&
         (Contains(e.classes[k], "close") || Contains(e.classes[k], "dismiss") || Contains(e.classes[k], "fechar")))
      || Contains(e.id, "close") || Contains(e.id, "fechar") || Contains(e.title, "Close")
      || Contains(e.ownText, "×") || Contains(e.ownText, "x")
    case Css(_) => false
    case XPath(_) => false
  }

  /** The attached nodes from index `from` on that `loc` selects, in document order. */
  function Scan(elems: seq<Element>, loc: Locator, from: nat): (r: seq<Handle>)
    requires from <= |elems|
    ensures forall k :: 0 <= k < |r| ==> from <= r[k] < |elems| && elems[r[k]].attached && Selects(loc, elems[r[k]])
    ensures forall i :: from <= i < |elems| && elems[i].attached && Selects(loc, elems[i]) ==> i in r
    decreases |elems| - from
  {
    if from == |elems| then []
    else if elems[from].attached && Selects(loc, elems[from]) then [from] + Scan(elems, loc, from + 1)
    else Scan(elems, loc, from + 1)
  }

  /** The handles of `hs` whose nodes are still attached. */
  function AttachedOnly(elems: seq<Element>, hs: seq<Handle>): (r: seq<Handle>)
    ensures forall k :: 0 <= k < |r| ==> r[k] in hs && r[k] < |elems| && elems[r[k]].attached
    ensures forall h :: h in hs && h < |elems| && elems[h].attached ==> h in r
  {
    if hs == [] then []
    else if hs[0] < |elems| && elems[hs[0]].attached then [hs[0]] + AttachedOnly(elems, hs[1..])
    else AttachedOnly(elems, hs[1..])
  }

  /** `find_elements`: every node the locator currently matches; never raises. */
  function Matches(s: Snapshot, loc: Locator): (r: seq<Handle>)
    ensures forall k :: 0 <= k < |r| ==> r[k] < |s.elems| && s.elems[r[k]].attached
  {
    match loc
    case Css(_) => AttachedOnly(s.elems, if loc in s.located then s.located[loc] else [])
    case XPath(_) => AttachedOnly(s.elems, if loc in s.located then s.located[loc] else [])
    case _ => Scan(s.elems, loc, 0)
  }

  predicate Ready(e: Element, mode: Mode)
  {
    match mode
    case Present => true
    case Visible => e.displayed
    case Clickable => e.displayed && e.enabled
  }

  /**
   * A wait in the given mode. Like the driver's expected conditions it looks at
   * the first match only: when that node is not ready, the wait times out and
   * yields None even if a later match is ready.
   */
  function Resolve(s: Snapshot, loc: Locator, mode: Mode): (r: Option<Handle>)
    ensures r.Some? ==> r.value < |s.elems| && s.elems[r.value].attached && Ready(s.elems[r.value], mode)
    ensures r.Some? <==> |Matches(s, loc)| > 0 && Ready(s.elems[Matches(s, loc)[0]], mode)
  {
    var ms := Matches(s, loc);
    if |ms| > 0 && Ready(s.elems[ms[0]], mode) then Some(ms[0]) else None
  }

  /** `check_visibility`: the visible-mode wait succeeded. */
  predicate IsVisible(s: Snapshot, loc: Locator)
  {
    Resolve(s, loc, Visible).Some?
  }

  /** The modes are nested: a clickable result is visible, a visible result is present. */
  lemma ModesNested(s: Snapshot, loc: Locator)
    ensures Resolve(s, loc, Clickable).Some? ==> Resolve(s, loc, Visible) == Resolve(s, loc, Clickable)
    ensures Resolve(s, loc, Visible).Some? ==> Resolve(s, loc, Present) == Resolve(s, loc, Visible)
  {
  }

  /** The liveness probe succeeds: the handle names a node that is still attached. */
  predicate Live(s: Snapshot, h: Option<Handle>)
  {
    h.Some? && h.value < |s.elems| && s.elems[h.value].attached
  }

  /** Reading the handle's attributes: None when the read raises (no handle, or a detached node under Selenium). */
  function Attrs(s: Snapshot, b: Behaviour, h: Option<Handle>): (r: Option<Element>)
    ensures Live(s, h) ==> r == Some(s.elems[h.value])
    ensures r.Some? ==> h.Some? && h.value < |s.elems| && r.value == s.elems[h.value]
  {
    if h.Some? && h.value < |s.elems| && (s.elems[h.value].attached || !b.readsFailWhenDetached)
    then Some(s.elems[h.value]) else None
  }

  /** Takes the nodes `hs` out of the document. */
  function Detach(elems: seq<Element>, hs: set<Handle>): (r: seq<Element>)
    ensures |r| == |elems|
    ensures forall i :: 0 <= i < |elems| ==> r[i] == if i in hs then elems[i].(attached := false) else elems[i]
  {
    seq(|elems|, i requires 0 <= i < |elems| => if i in hs then elems[i].(attached := false) else elems[i])
  }

  /** `b` differs from `a` only in nodes that were detached. */
  ghost predicate DetachesOnly(a: seq<Element>, b: seq<Element>)
  {
    |a| == |b| && forall i :: 0 <= i < |a| ==> b[i] == a[i] || b[i] == a[i].(attached := false)
  }

  lemma DetachesOnlyTrans(a: seq<Element>, b: seq<Element>, c: seq<Element>)
    requires DetachesOnly(a, b) && DetachesOnly(b, c)
    ensures DetachesOnly(a, c)
  {
  }

  /** The page behind the driver. */
  class Browser {
    var elems: seq<Element>
    const located: map<Locator, seq<Handle>>
    const behaviour: Behaviour
    var trace: seq<Effect>

    function Snap(): Snapshot
      reads this`elems
    {
      Snapshot(elems, located)
    }

    constructor (elems: seq<Element>, located: map<Locator, seq<Handle>>, behaviour: Behaviour)
      ensures this.elems == elems && this.located == located && this.behaviour == behaviour
      ensures trace == []
    {
      this.elems := elems;
      this.located := located;
      this.behaviour := behaviour;
      trace := [];
    }
  }
}
