/**
 * The bot's workflow over the element handler: popup monitoring, reward
 * collection, login, the values file, the site report and the browser
 * arguments. Each handler call the workflow makes is answered by an oracle
 * value (what the wait found, whether the click went through), and the clock
 * is a millisecond counter advanced by the waits and sleeps the code performs.
 */
module Bot {
  import opened Wrappers
  import opened Strings
  import Config

  // ---------------------------------------------------------------- selector strategy

  /** The locator strategy a popup selector is handed to. */
  datatype By = XPath | CssSelector

  function SelectorStrategy(selector: string): (strategy: By)
    ensures strategy == XPath <==> StartsWith(selector, "//")
  {
    if |selector| >= 2 && selector[..2] == "//" then XPath else CssSelector
  }

  /** Of the four registered popup selectors only the third, the "Cancelar" button, is an XPath. */
  lemma PopupSelectorStrategies()
    ensures |Config.PopupSelectors| == 4
    ensures forall j :: 0 <= j < 4 ==> (SelectorStrategy(Config.PopupSelectors[j]) == XPath <==> j == 2)
  {
    forall j | 0 <= j < 4
      ensures SelectorStrategy(Config.PopupSelectors[j]) == XPath <==> j == 2
    {
      var sel := Config.PopupSelectors[j];
      if j == 2 {
        assert sel[..2] == "//";
      } else {
        assert sel[..2] == "i.";
      }
    }
  }

  // ---------------------------------------------------------------- popup monitoring

  /** What one registered selector gave in one pass. */
  datatype PopupAnswer =
    | NotClickable                              // the 3-second clickable wait timed out
    | WaitRaised                                // the wait raised something other than a timeout
    | Clickable(nativeOk: bool, scriptOk: bool) // found: whether the plain click, then the script click, went through

  /**
   * One pass of the monitoring loop: an answer per registered selector, the
   * settle check's visibility answer per selector, and the time (ms) the
   * pass spent outside the waits and sleeps.
   */
  datatype Pass = Pass(answers: seq<PopupAnswer>, stillVisible: seq<bool>, overhead: nat)

  const WaitTimeoutMs: nat := 3000
  const AfterPopupMs: nat := 1000
  const SettleMs: nat := 2000
  const CheckTimeoutMs: nat := 1000
  const BudgetMs: nat := Config.PopupCheck * 1000
  const PopupAttempts: nat := 3

  function AnswerAt(p: Pass, j: nat): PopupAnswer
  {
    if j < |p.answers| then p.answers[j] else NotClickable
  }

  function VisibleAt(p: Pass, j: nat): bool
  {
    j < |p.stillVisible| && p.stillVisible[j]
  }

  function PassAt(passes: seq<Pass>, n: nat): Pass
  {
    if n < |passes| then passes[n] else Pass([], [], 0)
  }

  /** The selectors loop of a pass from selector `j` on: whether a popup was found, how many were closed, time spent. */
  datatype Sweep = Sweep(found: bool, closed: nat, ms: nat)

  function SweepFrom(p: Pass, j: nat): (r: Sweep)
    requires j <= |Config.PopupSelectors|
    decreases |Config.PopupSelectors| - j
    ensures r.found ==> r.ms >= AfterPopupMs
    ensures r.closed <= |Config.PopupSelectors| - j
  {
    if j == |Config.PopupSelectors| then Sweep(false, 0, 0)
    else
      var rest := SweepFrom(p, j + 1);
      match AnswerAt(p, j)
      case NotClickable => Sweep(rest.found, rest.closed, rest.ms + WaitTimeoutMs)
      case WaitRaised => rest
      case Clickable(nativeOk, scriptOk) =>
        Sweep(true, rest.closed + (if nativeOk || scriptOk then 1 else 0), rest.ms + AfterPopupMs)
  }

  /** Selector `j` held a popup that the plain or the script click closed. */
  predicate ClosedAt(p: Pass, j: nat)
  {
    AnswerAt(p, j).Clickable? && (AnswerAt(p, j).nativeOk || AnswerAt(p, j).scriptOk)
  }

  /** The selectors among `j..` whose popup was closed by a click. */
  function ClosedSelectors(p: Pass, j: nat): set<nat>
    requires j <= |Config.PopupSelectors|
  {
    set k | j <= k < |Config.PopupSelectors| && ClosedAt(p, k)
  }

  /** A pass counts exactly the popups its plain or script clicks closed; the click on the page body never counts. */
  lemma {:induction false} SweepCountsClicks(p: Pass, j: nat)
    requires j <= |Config.PopupSelectors|
    decreases |Config.PopupSelectors| - j
    ensures SweepFrom(p, j).closed == |ClosedSelectors(p, j)|
    ensures SweepFrom(p, j).found <==> exists k :: j <= k < |Config.PopupSelectors| && AnswerAt(p, k).Clickable?
  {
    if j < |Config.PopupSelectors| {
      SweepCountsClicks(p, j + 1);
      if ClosedAt(p, j) {
        assert ClosedSelectors(p, j) == ClosedSelectors(p, j + 1) + {j};
      } else {
        assert ClosedSelectors(p, j) == ClosedSelectors(p, j + 1);
      }
    } else {
      assert ClosedSelectors(p, j) == {};
    }
  }

  /** The settle check from selector `j` on: whether some selector is still visible, and time spent. */
  function SettleFrom(p: Pass, j: nat): (r: (bool, nat))
    requires j <= |Config.PopupSelectors|
    decreases |Config.PopupSelectors| - j
    ensures r.0 <==> exists k :: j <= k < |Config.PopupSelectors| && VisibleAt(p, k)
  {
    if j == |Config.PopupSelectors| then (false, 0)
    else if VisibleAt(p, j) then (true, 0)
    else
      var rest := SettleFrom(p, j + 1);
      (rest.0, rest.1 + CheckTimeoutMs)
  }

  /** The loop's variables between passes; `settled` is set by the early exit. */
  datatype Monitor = Monitor(elapsed: nat, closed: nat, attemptsLeft: nat, passes: nat, settled: bool)

  const Start := Monitor(0, 0, PopupAttempts, 0, false)

  /** One pass of the monitoring loop. */
  function Step(passes: seq<Pass>, m: Monitor): (r: Monitor)
    requires m.attemptsLeft > 0
    ensures r.passes == m.passes + 1 && r.elapsed >= m.elapsed
    ensures r.attemptsLeft == m.attemptsLeft || r.attemptsLeft == m.attemptsLeft - 1
    ensures r.attemptsLeft == m.attemptsLeft ==> r.elapsed >= m.elapsed + AfterPopupMs
    ensures r.settled ==> r.closed > 0
  {
    var p := PassAt(passes, m.passes);
    var sweep := SweepFrom(p, 0);
    var left := if sweep.found then m.attemptsLeft else m.attemptsLeft - 1;
    var closed := m.closed + sweep.closed;
    var t := m.elapsed + p.overhead + sweep.ms;
    if closed > 0 then
      var settle := SettleFrom(p, 0);
      Monitor(t + SettleMs + settle.1, closed, left, m.passes + 1, !settle.0)
    else Monitor(t, closed, left, m.passes + 1, false)
  }

  function Remaining(m: Monitor): nat
  {
    if m.elapsed < BudgetMs then BudgetMs - m.elapsed else 0
  }

  /** The monitoring loop from state `m`: passes run while time is left, attempts are left and no pass settled. */
  function Monitoring(passes: seq<Pass>, m: Monitor): (r: Monitor)
    decreases Remaining(m), m.attemptsLeft
  {
    if m.settled || m.elapsed >= BudgetMs || m.attemptsLeft == 0 then m
    else Monitoring(passes, Step(passes, m))
  }

  /**
   * `handle_popups`: pass after pass, try every registered selector, count the
   * popups closed by the plain or the script click, drop an attempt on a pass
   * that found nothing, and stop early once something was closed and no
   * selector is visible any more.
   */
  method HandlePopups(passes: seq<Pass>) returns (popupsClosed: nat, elapsed: nat, passCount: nat)
    ensures var m := Monitoring(passes, Start);
      popupsClosed == m.closed && elapsed == m.elapsed && passCount == m.passes
  {
    elapsed, popupsClosed, passCount := 0, 0, 0;
    var maxAttempts := PopupAttempts;
    ghost var whole := Monitoring(passes, Start);
    while elapsed < BudgetMs && maxAttempts > 0
      invariant Monitoring(passes, Monitor(elapsed, popupsClosed, maxAttempts, passCount, false)) == whole
      decreases Remaining(Monitor(elapsed, popupsClosed, maxAttempts, passCount, false)), maxAttempts
    {
      ghost var m := Monitor(elapsed, popupsClosed, maxAttempts, passCount, false);
      var p := PassAt(passes, passCount);
      var popupFound, closed, ms := TrySelectors(p);
      elapsed := elapsed + p.overhead + ms;
      popupsClosed := popupsClosed + closed;
      if !popupFound {
        maxAttempts := maxAttempts - 1;
      }
      passCount := passCount + 1;
      if popupsClosed > 0 {
        var stillVisible, checkMs := SettleCheck(p);
        elapsed := elapsed + SettleMs + checkMs;
        if !stillVisible {
          assert Step(passes, m) == Monitor(elapsed, popupsClosed, maxAttempts, passCount, true);
          return;
        }
      }
      assert Step(passes, m) == Monitor(elapsed, popupsClosed, maxAttempts, passCount, false);
    }
  }

  /** One pass over the registered selectors, in order: the wait, then the plain click, the script click, or the click on the page body. */
  method TrySelectors(p: Pass) returns (popupFound: bool, closed: nat, ms: nat)
    ensures Sweep(popupFound, closed, ms) == SweepFrom(p, 0)
  {
    popupFound, closed, ms := false, 0, 0;
    for j := 0 to |Config.PopupSelectors|
      invariant var rest := SweepFrom(p, j);
        SweepFrom(p, 0) == Sweep(popupFound || rest.found, closed + rest.closed, ms + rest.ms)
    {
      match AnswerAt(p, j) {
        case NotClickable =>
          ms := ms + WaitTimeoutMs;
        case WaitRaised =>
        case Clickable(nativeOk, scriptOk) =>
          popupFound := true;
          if nativeOk {
            closed := closed + 1;
          } else if scriptOk {
            closed := closed + 1;
          }
          ms := ms + AfterPopupMs;
      }
    }
  }

  /** The settle check: the registered selectors in order, up to the first one still visible. */
  method SettleCheck(p: Pass) returns (stillVisible: bool, ms: nat)
    ensures (stillVisible, ms) == SettleFrom(p, 0)
  {
    stillVisible, ms := false, 0;
    var j := 0;
    while j < |Config.PopupSelectors|
      invariant j <= |Config.PopupSelectors|
      invariant SettleFrom(p, 0) == (SettleFrom(p, j).0, ms + SettleFrom(p, j).1)
    {
      if VisibleAt(p, j) {
        return true, ms;
      }
      ms := ms + CheckTimeoutMs;
      j := j + 1;
    }
  }

  /** The loop stops only when time is up, attempts are used up, or a pass settled. */
  lemma {:induction false} MonitoringStops(passes: seq<Pass>, m: Monitor)
    decreases Remaining(m), m.attemptsLeft
    ensures var r := Monitoring(passes, m);
      r.settled || r.elapsed >= BudgetMs || r.attemptsLeft == 0
  {
    if !(m.settled || m.elapsed >= BudgetMs || m.attemptsLeft == 0) {
      MonitoringStops(passes, Step(passes, m));
    }
  }

  /**
   * Each pass either uses an attempt or costs at least a second, so at most
   * `attemptsLeft` plus one pass per started second of the remaining budget run.
   */
  lemma {:induction false} MonitoringPassBound(passes: seq<Pass>, m: Monitor)
    decreases Remaining(m), m.attemptsLeft
    ensures Monitoring(passes, m).passes <= m.passes + m.attemptsLeft + (Remaining(m) + AfterPopupMs - 1) / AfterPopupMs
  {
    if !(m.settled || m.elapsed >= BudgetMs || m.attemptsLeft == 0) {
      var n := Step(passes, m);
      MonitoringPassBound(passes, n);
      if n.attemptsLeft == m.attemptsLeft {
        assert Remaining(n) == 0 || Remaining(n) + AfterPopupMs <= Remaining(m);
      }
    }
  }

  /** From the start: three attempts and a 40-second budget allow at most 43 passes. */
  lemma PopupPassesAtMost43(passes: seq<Pass>)
    ensures Monitoring(passes, Start).passes <= 43
  {
    MonitoringPassBound(passes, Start);
  }

  /** A pass on which nothing was found uses an attempt; a pass that found a popup keeps the attempts. */
  lemma AttemptsDropOnEmptyPass(passes: seq<Pass>, m: Monitor)
    requires m.attemptsLeft > 0
    ensures var p := PassAt(passes, m.passes);
      Step(passes, m).attemptsLeft ==
        if exists j :: 0 <= j < |Config.PopupSelectors| && AnswerAt(p, j).Clickable? then m.attemptsLeft
        else m.attemptsLeft - 1
  {
    SweepCountsClicks(PassAt(passes, m.passes), 0);
  }

  /**
   * Once something was closed, by an earlier pass or by this one, a pass whose
   * settle check sees no registered selector ends the loop.
   */
  lemma SettledPassEndsLoop(passes: seq<Pass>, m: Monitor)
    requires !m.settled && m.elapsed < BudgetMs && m.attemptsLeft > 0
    requires m.closed + SweepFrom(PassAt(passes, m.passes), 0).closed > 0
    requires forall j :: 0 <= j < |Config.PopupSelectors| ==> !VisibleAt(PassAt(passes, m.passes), j)
    ensures Monitoring(passes, m) == Step(passes, m) && Monitoring(passes, m).settled
  {
  }

  /** No popup ever: three empty passes of four 3-second waits each, 36 seconds, nothing closed. */
  lemma NoPopupsThreePasses(passes: seq<Pass>)
    requires forall n :: 0 <= n < |passes| ==>
      passes[n].overhead == 0 && forall j :: 0 <= j < |passes[n].answers| ==> passes[n].answers[j] == NotClickable
    ensures Monitoring(passes, Start) == Monitor(36000, 0, 0, 3, false)
  {
    forall n: nat ensures SweepFrom(PassAt(passes, n), 0) == Sweep(false, 0, 12000) {
      SweepCountsClicks(PassAt(passes, n), 0);
    }
  }

  // ---------------------------------------------------------------- reward collection

  /** What the prize lookup after a successful click gave. */
  datatype PrizeAnswer =
    | PrizeShown   // the prize element was present
    | PrizeMissing // the present-wait timed out
    | PrizeRaised  // the lookup raised, which the code takes as a collected package

  /** What one attempt of the reward loop met. */
  datatype RewardAttempt =
    | NoButton                                                  // the clickable wait for the main button timed out
    | Button(clicked: bool, blocked: bool, prize: PrizeAnswer)  // the click, the block-popup check, the prize lookup
    | CallRaised                                                // a handler call outside the prize lookup raised

  const RewardAttempts: nat := 3

  function RewardAt(attempts: seq<RewardAttempt>, k: nat): RewardAttempt
  {
    if k < |attempts| then attempts[k] else NoButton
  }

  /** The verdict of the reward loop and how many attempts it started. */
  datatype Collected = Collected(ok: bool, used: nat)

  function CollectFrom(attempts: seq<RewardAttempt>, k: nat): (r: Collected)
    requires k <= RewardAttempts
    decreases RewardAttempts - k
    ensures r.used <= RewardAttempts - k
    ensures k < RewardAttempts ==> r.used >= 1
  {
    if k == RewardAttempts then Collected(false, 0)
    else
      match RewardAt(attempts, k)
      case CallRaised => Collected(false, 1)
      case NoButton =>
        var rest := CollectFrom(attempts, k + 1);
        Collected(rest.ok, rest.used + 1)
      case Button(clicked, blocked, prize) =>
        if clicked && blocked then Collected(false, 1)
        else if clicked && prize != PrizeMissing then Collected(true, 1)
        else
          var rest := CollectFrom(attempts, k + 1);
          Collected(rest.ok, rest.used + 1)
  }

  /** An attempt that collects: the click went through, no block popup, and the prize lookup did not time out. */
  predicate Collects(a: RewardAttempt)
  {
    a.Button? && a.clicked && !a.blocked && a.prize != PrizeMissing
  }

  /** An attempt after which the loop moves on: no button, a failed click, or a click with no prize found. */
  predicate MovesOn(a: RewardAttempt)
  {
    a.NoButton? || (a.Button? && (!a.clicked || (!a.blocked && a.prize == PrizeMissing)))
  }

  /** `collect_reward` succeeds exactly when some attempt among the first three collects and every earlier one moved on. */
  lemma {:induction false} CollectCharacterised(attempts: seq<RewardAttempt>, k: nat)
    requires k <= RewardAttempts
    decreases RewardAttempts - k
    ensures CollectFrom(attempts, k).ok <==>
      exists j :: k <= j < RewardAttempts && Collects(RewardAt(attempts, j)) &&
        forall i :: k <= i < j ==> MovesOn(RewardAt(attempts, i))
  {
    if k < RewardAttempts {
      CollectCharacterised(attempts, k + 1);
      var a := RewardAt(attempts, k);
      if Collects(a) {
        assert Collects(RewardAt(attempts, k));
      } else if MovesOn(a) {
        if CollectFrom(attempts, k).ok {
          var j :| k + 1 <= j < RewardAttempts && Collects(RewardAt(attempts, j)) &&
            forall i :: k + 1 <= i < j ==> MovesOn(RewardAt(attempts, i));
          assert forall i :: k <= i < j ==> MovesOn(RewardAt(attempts, i));
        }
      } else {
        assert !CollectFrom(attempts, k).ok;
        forall j | k <= j < RewardAttempts && Collects(RewardAt(attempts, j))
          ensures !forall i :: k <= i < j ==> MovesOn(RewardAt(attempts, i))
        {
          assert j != k;
          assert !MovesOn(RewardAt(attempts, k));
        }
      }
    }
  }

  /** A block popup after a successful click ends the loop at once with False. */
  lemma BlockedStops(attempts: seq<RewardAttempt>, k: nat)
    requires k < RewardAttempts
    requires RewardAt(attempts, k).Button? && RewardAt(attempts, k).clicked && RewardAt(attempts, k).blocked
    ensures CollectFrom(attempts, k) == Collected(false, 1)
  {
  }

  /** `collect_reward`: at most three attempts of clicking the main button, checking for the block popup and reading the prize. */
  method CollectReward(attempts: seq<RewardAttempt>) returns (ok: bool, used: nat)
    ensures Collected(ok, used) == CollectFrom(attempts, 0)
    ensures used <= RewardAttempts
  {
    used := 0;
    for attempt := 0 to RewardAttempts
      invariant used == attempt
      invariant var rest := CollectFrom(attempts, attempt);
        CollectFrom(attempts, 0) == Collected(rest.ok, used + rest.used)
    {
      used := used + 1;
      match RewardAt(attempts, attempt) {
        case CallRaised =>
          return false, used;
        case NoButton =>
        case Button(clicked, blocked, prize) =>
          if clicked {
            if blocked {
              return false, used;
            }
            if prize != PrizeMissing {
              return true, used;
            }
          }
      }
    }
    return false, used;
  }

  // ---------------------------------------------------------------- login

  /** Python's `\w` over ASCII: letters, digits and the underscore. */
  predicate IsWordChar(c: char)
  {
    'a' <= c <= 'z' || 'A' <= c <= 'Z' || '0' <= c <= '9' || c == '_'
  }

  predicate WordChars(s: string)
  {
    forall k :: 0 <= k < |s| ==> IsWordChar(s[k])
  }

  /** `re.search(r"_btn_\w+_43", s)` finds a match: "_btn_", one or more word characters, then "_43". */
  ghost predicate LoginClassPattern(s: string)
  {
    exists i: nat, j: nat :: i + 5 < j && j + 3 <= |s| && OccursAt(s, "_btn_", i) && OccursAt(s, "_43", j) && WordChars(s[i + 5..j])
  }

  /** The end of the run of word characters that starts at `k`. */
  function WordRunEnd(s: string, k: nat): (e: nat)
    requires k <= |s|
    decreases |s| - k
    ensures k <= e <= |s| && WordChars(s[k..e]) && (e < |s| ==> !IsWordChar(s[e]))
  {
    if k == |s| || !IsWordChar(s[k]) then k
    else
      var e := WordRunEnd(s, k + 1);
      assert s[k..e] == [s[k]] + s[k + 1..e];
      e
  }

  /** Some "_43" starts at an index in `j..` and ends by `end`. */
  function TailFrom(s: string, j: nat, end: nat): (b: bool)
    requires end <= |s|
    decreases |s| - j
    ensures b <==> exists m: nat :: j <= m && m + 3 <= end && OccursAt(s, "_43", m)
  {
    if j + 3 > end then false
    else OccursAt(s, "_43", j) || TailFrom(s, j + 1, end)
  }

  /** The search from index `i` on, as the regex engine scans: each "_btn_" in turn, with the longest run of word characters after it. */
  function SearchFrom(s: string, i: nat): bool
    decreases |s| - i
  {
    if i + 5 > |s| then false
    else (OccursAt(s, "_btn_", i) && TailFrom(s, i + 6, WordRunEnd(s, i + 5))) || SearchFrom(s, i + 1)
  }

  function LoginClassMatch(s: string): bool
  {
    SearchFrom(s, 0)
  }

  /** The run of word characters from `k` reaches past any all-word stretch that starts at `k`. */
  lemma {:induction false} WordRunCovers(s: string, k: nat, m: nat)
    requires k <= m <= |s| && WordChars(s[k..m])
    decreases m - k
    ensures m <= WordRunEnd(s, k)
  {
    if k < m {
      assert IsWordChar(s[k..m][0]);
      assert s[k + 1..m] == s[k..m][1..];
      WordRunCovers(s, k + 1, m);
    }
  }

  /** Some "_btn_" at or after `i` is followed by one or more word characters and "_43". */
  ghost predicate MatchFrom(s: string, i: nat)
  {
    exists a: nat, j: nat :: i <= a && a + 5 < j && j + 3 <= |s| && OccursAt(s, "_btn_", a) && OccursAt(s, "_43", j) && WordChars(s[a + 5..j])
  }

  /** What the scanner finds is a match of the pattern. */
  lemma {:induction false} SearchFromSound(s: string, i: nat)
    requires SearchFrom(s, i)
    decreases |s| - i
    ensures MatchFrom(s, i)
  {
    if OccursAt(s, "_btn_", i) && TailFrom(s, i + 6, WordRunEnd(s, i + 5)) {
      var e := WordRunEnd(s, i + 5);
      var m: nat :| i + 6 <= m && m + 3 <= e && OccursAt(s, "_43", m);
      var run, w := s[i + 5..e], s[i + 5..m];
      assert WordChars(run);
      forall k | 0 <= k < |w|
        ensures IsWordChar(w[k])
      {
        assert w[k] == run[k];
      }
    } else {
      SearchFromSound(s, i + 1);
    }
  }

  /** A match of the pattern starting at `a` is found by the scan from any `i` up to `a`. */
  lemma {:induction false} SearchFromComplete(s: string, i: nat, a: nat, j: nat)
    requires i <= a && a + 5 < j && j + 3 <= |s| && OccursAt(s, "_btn_", a) && OccursAt(s, "_43", j) && WordChars(s[a + 5..j])
    decreases a - i
    ensures SearchFrom(s, i)
  {
    if a == i {
      assert s[j..j + 3] == "_43";
      assert s[i + 5..j + 3] == s[i + 5..j] + s[j..j + 3];
      assert WordChars(s[i + 5..j + 3]);
      WordRunCovers(s, i + 5, j + 3);
      assert TailFrom(s, i + 6, WordRunEnd(s, i + 5));
    } else {
      SearchFromComplete(s, i + 1, a, j);
    }
  }

  /** The scanner finds exactly the classes the login-button pattern matches. */
  lemma LoginClassMatchCorrect(s: string)
    ensures LoginClassMatch(s) <==> LoginClassPattern(s)
  {
    if LoginClassMatch(s) {
      SearchFromSound(s, 0);
    }
    if LoginClassPattern(s) {
      var a: nat, j: nat :| a + 5 < j && j + 3 <= |s| && OccursAt(s, "_btn_", a) && OccursAt(s, "_43", j) && WordChars(s[a + 5..j]);
      SearchFromComplete(s, 0, a, j);
    }
  }

  /** A login button on the page: whether it is displayed, its class attribute (None when absent), and whether clicking it went through. */
  datatype LoginButton = LoginButton(displayed: bool, classAttr: Option<string>, clicked: bool)

  /** What the page answered during one login. */
  datatype LoginAnswers = LoginAnswers(
    pageLoaded: bool,         // opening the site's url did not raise
    buttons: seq<LoginButton>,
    fieldsVisible: bool,      // the username field became visible within 2 seconds
    usernameFilled: bool,
    passwordFilled: bool,
    submitted: bool)

  /** The handler calls of a login that make a difference, in the order they are made. */
  datatype LoginStep = OpenPage | ClickLogin(index: nat) | CheckFields | FillUsername | FillPassword | Submit

  /** How the scan of the login buttons ended: a click went through, nothing was clicked, or a missing class attribute raised. */
  datatype ButtonScan = ScanClicked(index: nat) | ScanNone | ScanRaised

  /** The button loop from button `i` on: how it ended and the clicks it made. */
  function ScanButtons(buttons: seq<LoginButton>, i: nat): (r: (ButtonScan, seq<LoginStep>))
    decreases |buttons| - i
    ensures r.0.ScanClicked? ==> i <= r.0.index < |buttons| && |r.1| > 0 && r.1[|r.1| - 1] == ClickLogin(r.0.index)
    ensures forall k :: 0 <= k < |r.1| ==> r.1[k].ClickLogin?
  {
    if i >= |buttons| then (ScanNone, [])
    else
      var b := buttons[i];
      if !b.displayed then ScanButtons(buttons, i + 1)
      else
        match b.classAttr
        case None => (ScanRaised, [])
        case Some(c) =>
          if !LoginClassMatch(c) then ScanButtons(buttons, i + 1)
          else if b.clicked then (ScanClicked(i), [ClickLogin(i)])
          else
            var rest := ScanButtons(buttons, i + 1);
            (rest.0, [ClickLogin(i)] + rest.1)
  }

  /** A button is eligible when it is displayed and its class matches the login-button pattern. */
  ghost predicate Eligible(b: LoginButton)
  {
    b.displayed && b.classAttr.Some? && LoginClassPattern(b.classAttr.value)
  }

  /** The button clicked is the first eligible one whose click went through; every displayed button before it had a class. */
  lemma {:induction false} ScanClickedFirst(buttons: seq<LoginButton>, i: nat)
    decreases |buttons| - i
    ensures var r := ScanButtons(buttons, i).0;
      r.ScanClicked? ==>
        Eligible(buttons[r.index]) && buttons[r.index].clicked &&
        forall k :: i <= k < r.index ==> (buttons[k].displayed ==> buttons[k].classAttr.Some?) && !(Eligible(buttons[k]) && buttons[k].clicked)
  {
    if i < |buttons| {
      ScanClickedFirst(buttons, i + 1);
      var b := buttons[i];
      if b.displayed && b.classAttr.Some? {
        LoginClassMatchCorrect(b.classAttr.value);
      }
    }
  }

  /** `do_login`: the verdict and the steps taken. */
  function Login(a: LoginAnswers): (r: (bool, seq<LoginStep>))
    ensures |r.1| > 0 && r.1[0] == OpenPage
  {
    if !a.pageLoaded then (false, [OpenPage])
    else
      var scan := ScanButtons(a.buttons, 0);
      var before := [OpenPage] + scan.1;
      if scan.0.ScanRaised? then (false, before)
      else
        var ready := scan.0.ScanClicked? || a.fieldsVisible;
        var steps := if scan.0.ScanClicked? then before else before + [CheckFields];
        if !ready then (false, steps)
        else if !a.usernameFilled then (false, steps + [FillUsername])
        else if !a.passwordFilled then (false, steps + [FillUsername] + [FillPassword])
        else (a.submitted, steps + [FillUsername] + [FillPassword] + [Submit])
  }

  /**
   * A login succeeds only when a login button was clicked or the username
   * field was visible, and then the username, the password and the submit
   * click all went through, in that order, as the last three steps.
   */
  lemma LoginSucceeds(a: LoginAnswers)
    ensures var r := Login(a);
      r.0 <==> (a.pageLoaded && !ScanButtons(a.buttons, 0).0.ScanRaised? &&
                (ScanButtons(a.buttons, 0).0.ScanClicked? || a.fieldsVisible) &&
                a.usernameFilled && a.passwordFilled && a.submitted)
    ensures var r := Login(a);
      r.0 ==> (|r.1| >= 4 && r.1[|r.1| - 3..] == [FillUsername, FillPassword, Submit] &&
               (CheckFields in r.1 ||
                exists k :: 0 <= k < |a.buttons| && ClickLogin(k) in r.1 && Eligible(a.buttons[k]) && a.buttons[k].clicked))
  {
    var scan := ScanButtons(a.buttons, 0);
    ScanClickedFirst(a.buttons, 0);
    if a.pageLoaded && scan.0.ScanClicked? {
      var k := scan.0.index;
      assert ClickLogin(k) in [OpenPage] + scan.1;
    }
  }

  /** `do_login`: open the page, click the first matching login button (or find the fields already visible), fill both fields and submit. */
  method DoLogin(a: LoginAnswers) returns (ok: bool, steps: seq<LoginStep>)
    ensures (ok, steps) == Login(a)
  {
    steps := [OpenPage];
    if !a.pageLoaded {
      return false, steps;
    }
    var scan, clicks := ClickLoginButton(a.buttons);
    steps := steps + clicks;
    if scan.ScanRaised? {
      return false, steps;
    }
    var buttonFound := scan.ScanClicked?;
    if !buttonFound {
      steps := steps + [CheckFields];
      if !a.fieldsVisible {
        return false, steps;
      }
    }
    steps := steps + [FillUsername];
    if !a.usernameFilled {
      return false, steps;
    }
    steps := steps + [FillPassword];
    if !a.passwordFilled {
      return false, steps;
    }
    steps := steps + [Submit];
    if !a.submitted {
      return false, steps;
    }
    return true, steps;
  }

  /** The login-button loop: displayed buttons whose class matches are clicked in turn until a click goes through. */
  method ClickLoginButton(buttons: seq<LoginButton>) returns (scan: ButtonScan, clicks: seq<LoginStep>)
    ensures (scan, clicks) == ScanButtons(buttons, 0)
  {
    clicks := [];
    assert clicks + ScanButtons(buttons, 0).1 == ScanButtons(buttons, 0).1;
    var i := 0;
    while i < |buttons|
      invariant i <= |buttons|
      invariant var rest := ScanButtons(buttons, i); ScanButtons(buttons, 0) == (rest.0, clicks + rest.1)
    {
      var button := buttons[i];
      if button.displayed {
        if button.classAttr.None? {
          assert clicks + [] == clicks;
          return ScanRaised, clicks;
        }
        if LoginClassMatch(button.classAttr.value) {
          ghost var rest := ScanButtons(buttons, i + 1);
          ghost var done := clicks;
          clicks := clicks + [ClickLogin(i)];
          if button.clicked {
            return ScanClicked(i), clicks;
          }
          assert done + ([ClickLogin(i)] + rest.1) == clicks + rest.1;
        }
      }
      i := i + 1;
    }
    assert clicks + [] == clicks;
    return ScanNone, clicks;
  }

  // ---------------------------------------------------------------- the values file

  /** A site's record in the values file; `value` is None when the record has no "value" key. */
  datatype SiteEntry = SiteEntry(value: Option<string>, timestamp: string)

  /** The JSON document of the values file; `sites` is None when the document has no "sites" key. */
  datatype ValuesDoc = ValuesDoc(lastUpdate: string, sites: Option<map<string, SiteEntry>>)

  /** The values file on disk: absent, present but unreadable as a document, or holding one. */
  datatype ValuesFile = Missing | Unreadable | Stored(doc: ValuesDoc)

  /** The value previously recorded for `url`, None for an unseen url. */
  function PreviousValue(sites: map<string, SiteEntry>, url: string): Option<string>
  {
    if url in sites then sites[url].value else None
  }

  /** The document after `sites[url]` is replaced by the new value and timestamp. */
  function Record(doc: ValuesDoc, url: string, value: string, now: string): (d: ValuesDoc)
    requires doc.sites.Some?
    ensures d.lastUpdate == doc.lastUpdate && d.sites.Some?
    ensures d.sites.value.Keys == doc.sites.value.Keys + {url}
    ensures d.sites.value[url] == SiteEntry(Some(value), now)
    ensures forall u :: u in doc.sites.value && u != url ==> d.sites.value[u] == doc.sites.value[u]
  {
    doc.(sites := Some(doc.sites.value[url := SiteEntry(Some(value), now)]))
  }

  /** What `save_value` returns and the file it leaves. */
  datatype Saved = Saved(changed: bool, previous: Option<string>, file: ValuesFile)

  /** `save_value` as a function of the file before, the url, the value, the clock reading and whether the write goes through. */
  function Save(file: ValuesFile, url: string, value: string, now: string, writeOk: bool): Saved
  {
    var doc := if file.Stored? then file.doc else ValuesDoc(now, Some(map[]));
    if file.Unreadable? || doc.sites.None? || !writeOk then Saved(false, None, file)
    else
      var previous := PreviousValue(doc.sites.value, url);
      Saved(previous != Some(value), previous, Stored(Record(doc, url, value, now)))
  }

  /** A save that goes through records the value, and reports a change exactly when it differs from the one recorded before. */
  lemma SaveRecords(file: ValuesFile, url: string, value: string, now: string)
    requires !file.Unreadable? && (file.Stored? ==> file.doc.sites.Some?)
    ensures var r := Save(file, url, value, now, true);
      r.file.Stored? && r.file.doc.sites.Some? && PreviousValue(r.file.doc.sites.value, url) == Some(value) &&
      (r.changed <==> r.previous != Some(value)) &&
      (file.Stored? ==> r.previous == PreviousValue(file.doc.sites.value, url) && r.file.doc.lastUpdate == file.doc.lastUpdate) &&
      (file.Missing? ==> r.previous == None && r.changed)
  {
  }

  /** Saving the same value twice: the second save reports no change and leaves the same document but for the timestamp. */
  lemma SaveTwiceUnchanged(file: ValuesFile, url: string, value: string, now: string, later: string)
    requires !file.Unreadable? && (file.Stored? ==> file.doc.sites.Some?)
    ensures var first := Save(file, url, value, now, true);
      var second := Save(first.file, url, value, later, true);
      !second.changed && second.previous == Some(value) &&
      second.file == Stored(Record(first.file.doc, url, value, later))
  {
  }

  /** Any failure (an unreadable file, a document with no "sites", a failed write) gives (False, None) and leaves the file alone. */
  lemma SaveFailureKeepsFile(file: ValuesFile, url: string, value: string, now: string, writeOk: bool)
    requires file.Unreadable? || (file.Stored? && file.doc.sites.None?) || !writeOk
    ensures Save(file, url, value, now, writeOk) == Saved(false, None, file)
  {
  }

  // ---------------------------------------------------------------- the report

  /** What the page and the file system answered while one site was processed. */
  datatype SiteRun = SiteRun(
    login: LoginAnswers,
    popups: seq<Pass>,
    reward: seq<RewardAttempt>,
    value: string,   // the formatted currency value read from the page
    writeOk: bool)   // whether writing the values file goes through

  function RunAt(runs: seq<SiteRun>, i: nat): SiteRun
  {
    if i < |runs| then runs[i] else SiteRun(LoginAnswers(false, [], false, false, false, false), [], [], "", false)
  }

  const ReportHeader := "<b>Value Report:</b>\n\n"
  const LoginFailed := "Login failed"

  function ValueBlock(url: string, value: string, difference: Option<string>): string
  {
    "<b>Site:</b> " + url + "\n<b>Value:</b> " + value +
    (if difference.Some? then " (" + difference.value + ")" else "") + "\n\n"
  }

  function ErrorBlock(url: string, message: string): string
  {
    "<b>Site:</b> " + url + "\n<b>Error:</b> " + message + "\n\n"
  }

  /** Python truthiness of the previous value: present and not empty. */
  predicate Truthy(previous: Option<string>)
  {
    previous.Some? && previous.value != ""
  }

  /** One site: its report block and the values file afterwards. */
  function SiteReport(site: Config.Site, run: SiteRun, file: ValuesFile, now: string,
                      difference: (string, string) -> string): (string, ValuesFile)
  {
    if !Login(run.login).0 then (ErrorBlock(site.url, LoginFailed), file)
    else
      var saved := Save(file, site.url, run.value, now, run.writeOk);
      var shown := saved.changed && Truthy(saved.previous);
      (ValueBlock(site.url, run.value, if shown then Some(difference(saved.previous.value, run.value)) else None), saved.file)
  }

  /** The blocks of sites `i..`, in order, and the values file after them. */
  function ReportFrom(sites: seq<Config.Site>, runs: seq<SiteRun>, i: nat, file: ValuesFile, now: string,
                      difference: (string, string) -> string): (r: (string, ValuesFile))
    requires i <= |sites|
    decreases |sites| - i
  {
    if i == |sites| then ("", file)
    else
      var here := SiteReport(sites[i], RunAt(runs, i), file, now, difference);
      var rest := ReportFrom(sites, runs, i + 1, here.1, now, difference);
      (here.0 + rest.0, rest.1)
  }

  /** The blocks of sites `i..` are the block of site `i` followed by those of the rest, on the file it left. */
  lemma ReportFromStep(sites: seq<Config.Site>, runs: seq<SiteRun>, i: nat, file: ValuesFile, now: string,
                       difference: (string, string) -> string)
    requires i < |sites|
    ensures var here := SiteReport(sites[i], RunAt(runs, i), file, now, difference);
      var rest := ReportFrom(sites, runs, i + 1, here.1, now, difference);
      ReportFrom(sites, runs, i, file, now, difference) == (here.0 + rest.0, rest.1)
  {
  }

  /** A failed login yields the "Login failed" error block, leaves the file untouched, and processing goes on with the next site. */
  lemma LoginFailureContinues(sites: seq<Config.Site>, runs: seq<SiteRun>, i: nat, file: ValuesFile, now: string,
                              difference: (string, string) -> string)
    requires i < |sites| && !Login(RunAt(runs, i).login).0
    ensures ReportFrom(sites, runs, i, file, now, difference) ==
      var rest := ReportFrom(sites, runs, i + 1, file, now, difference);
      (ErrorBlock(sites[i].url, LoginFailed) + rest.0, rest.1)
  {
  }

  /** A site seen for the first time never shows a difference: its previous value is None. */
  lemma FirstSightShowsNoDifference(site: Config.Site, run: SiteRun, file: ValuesFile, now: string,
                                    difference: (string, string) -> string)
    requires Login(run.login).0 && run.writeOk
    requires file.Missing? || (file.Stored? && file.doc.sites.Some? && site.url !in file.doc.sites.value)
    ensures SiteReport(site, run, file, now, difference).0 == ValueBlock(site.url, run.value, None)
    ensures SiteReport(site, run, file, now, difference).1.Stored?
  {
  }

  /** The difference is shown exactly when the saved value changed and the previous one was non-empty. */
  lemma DifferenceShown(site: Config.Site, run: SiteRun, file: ValuesFile, now: string, difference: (string, string) -> string)
    requires Login(run.login).0
    ensures var saved := Save(file, site.url, run.value, now, run.writeOk);
      SiteReport(site, run, file, now, difference).0 ==
        if saved.changed && Truthy(saved.previous) then
          ValueBlock(site.url, run.value, Some(difference(saved.previous.value, run.value)))
        else ValueBlock(site.url, run.value, None)
  {
  }

  /** The report for the first `k` sites is a prefix of the report for more sites: blocks are only appended, in site order. */
  lemma {:induction false} ReportExtends(sites: seq<Config.Site>, runs: seq<SiteRun>, i: nat, file: ValuesFile,
                                         now: string, difference: (string, string) -> string, k: nat)
    requires i <= k <= |sites|
    decreases |sites| - i
    ensures var short := ReportFrom(sites[..k], runs, i, file, now, difference);
      var long := ReportFrom(sites, runs, i, file, now, difference);
      |short.0| <= |long.0| && long.0[..|short.0|] == short.0
  {
    if i < k {
      assert sites[..k][i] == sites[i];
      var here := SiteReport(sites[i], RunAt(runs, i), file, now, difference);
      ReportExtends(sites, runs, i + 1, here.1, now, difference, k);
      var short := ReportFrom(sites[..k], runs, i + 1, here.1, now, difference);
      var long := ReportFrom(sites, runs, i + 1, here.1, now, difference);
      assert (here.0 + long.0)[..|here.0 + short.0|] == here.0 + long.0[..|short.0|];
    }
  }

  /** The bot and the state it keeps across sites: the values file. */
  class BetBot {
    var valuesFile: ValuesFile

    constructor(file: ValuesFile)
      ensures valuesFile == file
    {
      valuesFile := file;
    }

    /** `save_value`: read the file (or start a fresh document), compare with the recorded value, replace `sites[url]`, write. */
    method SaveValue(url: string, value: string, now: string, writeOk: bool) returns (changed: bool, previous: Option<string>)
      modifies this
      ensures Saved(changed, previous, valuesFile) == Save(old(valuesFile), url, value, now, writeOk)
    {
      var data := ValuesDoc(now, Some(map[]));
      if valuesFile != Missing {
        if valuesFile.Unreadable? {
          return false, None;
        }
        data := valuesFile.doc;
      }
      if data.sites.None? {
        return false, None;
      }
      previous := PreviousValue(data.sites.value, url);
      changed := previous != Some(value);
      data := data.(sites := Some(data.sites.value[url := SiteEntry(Some(value), now)]));
      if !writeOk {
        return false, None;
      }
      valuesFile := Stored(data);
    }

    /**
     * `process_sites`: for each configured site in order, process it and
     * append its block to the report.
     */
    method ProcessSites(sites: seq<Config.Site>, runs: seq<SiteRun>, now: string,
                        difference: (string, string) -> string) returns (report: string)
      modifies this
      ensures var r := ReportFrom(sites, runs, 0, old(valuesFile), now, difference);
        report == ReportHeader + r.0 && valuesFile == r.1
    {
      report := ReportHeader;
      ghost var blocks := "";
      ghost var whole := ReportFrom(sites, runs, 0, valuesFile, now, difference);
      assert "" + whole.0 == whole.0 && ReportHeader + "" == ReportHeader;
      for i := 0 to |sites|
        invariant report == ReportHeader + blocks
        invariant var rest := ReportFrom(sites, runs, i, valuesFile, now, difference);
          whole == (blocks + rest.0, rest.1)
      {
        ghost var file := valuesFile;
        var block := ProcessSite(sites[i], RunAt(runs, i), now, difference);
        ghost var next := ReportFrom(sites, runs, i + 1, valuesFile, now, difference);
        ReportFromStep(sites, runs, i, file, now, difference);
        assert blocks + (block + next.0) == (blocks + block) + next.0;
        assert (ReportHeader + blocks) + block == ReportHeader + (blocks + block);
        report := report + block;
        blocks := blocks + block;
      }
      assert blocks + "" == blocks;
    }

    /**
     * One site of `process_sites`: log in (a failure becomes the "Login
     * failed" error block), handle the popups, try to collect the reward,
     * save the value read from the page, and build the site's block.
     */
    method ProcessSite(site: Config.Site, run: SiteRun, now: string, difference: (string, string) -> string)
      returns (block: string)
      modifies this
      ensures (block, valuesFile) == SiteReport(site, run, old(valuesFile), now, difference)
    {
      var loggedIn, _ := DoLogin(run.login);
      if !loggedIn {
        return ErrorBlock(site.url, LoginFailed);
      }
      var _, _, _ := HandlePopups(run.popups);
      var _, _ := CollectReward(run.reward);
      var value := run.value;
      var changed, previousValue := SaveValue(site.url, value, now, run.writeOk);
      if changed && Truthy(previousValue) {
        var diff := difference(previousValue.value, value);
        block := ValueBlock(site.url, value, Some(diff));
      } else {
        block := ValueBlock(site.url, value, None);
      }
    }
  }

  // ---------------------------------------------------------------- browser arguments

  /** The flag for each switch that is on, in declaration order: "--" and the key with '_' replaced by '-'. */
  function Flags(config: seq<(string, bool)>): seq<string>
  {
    if config == [] then []
    else
      var rest := Flags(config[1..]);
      if config[0].1 then ["--" + ReplaceChar(config[0].0, '_', '-')] + rest else rest
  }

  /** A flag is produced exactly for each switch that is on; no flag keeps an underscore. */
  lemma {:induction false} FlagsAreEnabledSwitches(config: seq<(string, bool)>)
    ensures forall f :: f in Flags(config) <==>
      exists i :: 0 <= i < |config| && config[i].1 && f == "--" + ReplaceChar(config[i].0, '_', '-')
    ensures forall f :: f in Flags(config) ==> StartsWith(f, "--") && '_' !in f
  {
    if config != [] {
      FlagsAreEnabledSwitches(config[1..]);
      forall f | f in Flags(config)
        ensures StartsWith(f, "--") && '_' !in f
      {
        if config[0].1 && f == "--" + ReplaceChar(config[0].0, '_', '-') {
          ReplaceCharRemoves(config[0].0, '_', '-');
          assert f[..2] == "--";
        }
      }
      forall f ensures f in Flags(config) <==>
        exists i :: 0 <= i < |config| && config[i].1 && f == "--" + ReplaceChar(config[i].0, '_', '-')
      {
        if exists i :: 0 <= i < |config| && config[i].1 && f == "--" + ReplaceChar(config[i].0, '_', '-') {
          var i :| 0 <= i < |config| && config[i].1 && f == "--" + ReplaceChar(config[i].0, '_', '-');
          if i > 0 {
            assert config[1..][i - 1] == config[i];
          }
        }
        if f in Flags(config[1..]) {
          var i :| 0 <= i < |config[1..]| && config[1..][i].1 && f == "--" + ReplaceChar(config[1..][i].0, '_', '-');
          assert config[i + 1] == config[1..][i];
        }
      }
    }
  }

  /** With the shipped configuration every switch is off: the browser gets only the profile directory. */
  lemma ShippedConfigHasNoFlags(dir: string)
    ensures ["--user-data-dir=" + dir] + Flags(Config.BrowserConfig) == ["--user-data-dir=" + dir]
  {
    assert Flags(Config.BrowserConfig) == [];
  }

  /** The option-argument loop of `initialize_driver`: the profile directory, then one flag per switch that is on. */
  method DriverArguments(userDataDir: string, config: seq<(string, bool)>) returns (args: seq<string>)
    ensures args == ["--user-data-dir=" + userDataDir] + Flags(config)
  {
    args := ["--user-data-dir=" + userDataDir];
    for k := 0 to |config|
      invariant args + Flags(config[k..]) == ["--user-data-dir=" + userDataDir] + Flags(config)
    {
      var (key, value) := config[k];
      assert config[k..][1..] == config[k + 1..];
      if value {
        args := args + ["--" + ReplaceChar(key, '_', '-')];
      }
    }
    assert config[|config|..] == [];
  }
}
