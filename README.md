# Red Packet Collector: a Dafny model

Red Packet Collector is a browser bot. It runs every two hours. For each configured
betting site it opens the site and logs in. Then it closes the popups the site throws
up and clicks the "red packet" button to collect the daily reward. It reads the
account's currency value, records it in a JSON values file, and sends a report
listing each site's value and its change since the last run.

This project models three parts of it:

- **The element handler** (`src/handlers/web_element_handler.py`). It is the
  resilient layer over the browser driver. It checks whether an element still
  exists and recovers stale handles: waits in three modes, then a search for a
  similar element by id, class, text and tag. It clicks with overlay
  neutralisation, script clicks and dispatched mouse events, and fills plain and
  masked fields, reading the value back. It closes popups by close controls,
  then a direct click, then removal, then an overlay sweep. The page is the
  class `Dom.Browser`. A handle is an index into its node sequence, and a node
  taken out of the document is marked detached, so a stale handle is one whose
  node is detached. `ElementHandler.WebElementHandler` holds the driver.
  Its lookup, recovery, click, fill and popup-click methods run the source's
  loops and are proved equal to specification functions in `HandlerSpec`.
  `SweepOverlays` states its whole new state directly. `CloseViaButtons` and
  `HandlePopup` are bounded by their verdict, the nodes they may detach and the
  effects they may append (see "Left out"). The lemmas in `HandlerSpec` state
  what the source promises: at most three attempts, stop at the first success,
  success only on a live node, and a verified fill.
- **The bot workflow** (`src/betbot.py`). It covers:
  - popup monitoring under its 40-second budget and 3 empty-pass allowance;
  - reward collection;
  - login, including the `_btn_\w+_43` class pattern, which is modelled by a
    scanner proved equal to the pattern;
  - the values-file update;
  - the consolidated report;
  - the browser option arguments.

  Each handler call the workflow makes is answered by a value: what the wait
  found, whether the click went through. Time is a millisecond counter advanced
  by the waits and sleeps the code performs. `Bot.BetBot` keeps the values file
  across sites.
- **The scheduler front end** (`main.py`). It covers:
  - parsing the "HH:MM" schedule strings;
  - the job ids and names;
  - the registration loop;
  - the start-up test that decides whether to run at once.

`Config` holds the configuration constants of `config.py`: sites, selectors,
timeouts, popup selectors and browser switches.

## Model

| member | source | states |
|---|---|---|
| ElementHandler.WebElementHandler.ElementExists | src/handlers/web_element_handler.py:389-395 | True exactly for a present handle whose node is still attached; a missing handle gives False, never an error |
| ElementHandler.WebElementHandler.FirstUsableOf | src/handlers/web_element_handler.py:352-354 | the scan returns the first displayed, enabled, attached candidate in order (`HandlerSpec.FirstUsable`) |
| HandlerSpec.FirstUsable | src/handlers/web_element_handler.py:352-354 | a result is a usable member of the candidates; None exactly when no candidate is usable |
| HandlerSpec.FirstUsableIsFirst | src/handlers/web_element_handler.py:352-354 | the scan returns the usable candidate that has no usable candidate before it |
| ElementHandler.WebElementHandler.FirstUsableOfClasses | src/handlers/web_element_handler.py:347-354 | the class-token loops equal `HandlerSpec.FirstUsableByClass`: tokens in order, each token's matches in document order |
| HandlerSpec.FirstUsableByClass | src/handlers/web_element_handler.py:347-354 | a result is usable; None exactly when no token has a usable match |
| HandlerSpec.FirstHitIsFirst | src/handlers/web_element_handler.py:350-354 | over tokens taken in order, the first token whose lookup finds something decides the result |
| HandlerSpec.FirstUsableByClassIsFirst | src/handlers/web_element_handler.py:350-354 | the first token with a usable match decides, and its first usable match is returned |
| ElementHandler.WebElementHandler.FirstLikeOf | src/handlers/web_element_handler.py:364-372 | the tag-step loop equals `HandlerSpec.FirstLike` |
| HandlerSpec.FirstLike | src/handlers/web_element_handler.py:366-372 | a result is a usable candidate with the original's `type` and `name`; None exactly when no candidate is |
| HandlerSpec.FirstLikeIsFirst | src/handlers/web_element_handler.py:366-372 | the first candidate like the original is the one returned |
| HandlerSpec.TextStepByOwnText | src/handlers/web_element_handler.py:356-362 | when the text query has a usable match, the text step returns a node whose own text node contains the original's rendered text |
| ElementHandler.WebElementHandler.FindSimilarElement | src/handlers/web_element_handler.py:340-378 | equals `HandlerSpec.Similar` (id, class, text, tag, with the id lookup and unreadable attributes giving None); any node found is displayed, enabled and attached |
| HandlerSpec.Similar | src/handlers/web_element_handler.py:340-378 | every node the similarity search returns is usable |
| HandlerSpec.SimilarIdFirst | src/handlers/web_element_handler.py:341-345 | a non-empty id whose first match is usable gives that match, before any other step |
| HandlerSpec.SimilarIdMissEnds | src/handlers/web_element_handler.py:341-343 | a non-empty id with no match raises, and the search gives None without trying class, text or tag |
| HandlerSpec.SimilarStepOrder | src/handlers/web_element_handler.py:347-372 | past the id step, a class result wins; else a text result, with a quote in the text giving None; else the tag step's result |
| ElementHandler.WebElementHandler.EnsureValidElement | src/handlers/web_element_handler.py:492-512 | a live handle comes back unchanged; otherwise the present, visible, clickable waits in order, then the similarity search; any result is live |
| HandlerSpec.EnsureValidIdempotent | src/handlers/web_element_handler.py:492-493 | recovering a handle that recovery produced returns it unchanged, whatever the locator |
| HandlerSpec.RecoverByWaitsIsPresentWait | src/handlers/web_element_handler.py:497-507 | the three waits together yield exactly what the present-mode wait yields: the visible and clickable waits never rescue a failed present wait |
| Dom.ModesNested | src/handlers/web_element_handler.py:17-75 | a clickable wait result is the visible wait result, and a visible one the present one |
| ElementHandler.WebElementHandler.RecoverElement | src/handlers/web_element_handler.py:108-140 | the stale-handle recovery of `click_element`: id locator, else first class token, then `ensure_valid_element`, then the similarity search, else abort (`HandlerSpec.RecoverForClick`) |
| ElementHandler.WebElementHandler.AttemptClicks | src/handlers/web_element_handler.py:152-200 | verdict, page and appended effects equal `HandlerSpec.Attempts` after the given scroll: the attempts made (native first unless `use_js`), the dispatched-events fallback on interception, retry on a stale error while the node exists, a node found gone by the re-probe detached, stop on any other error |
| ElementHandler.WebElementHandler.RunAttempts | src/handlers/web_element_handler.py:152-200 | the attempt loop's run equals `HandlerSpec.ClickLoop` from the node's liveness at the start |
| ElementHandler.WebElementHandler.LiveAttempts | src/handlers/web_element_handler.py:152-198 | on a live node, the loop's run equals `HandlerSpec.ClickLoop` from attempt 0 |
| ElementHandler.WebElementHandler.ReactToOutcome | src/handlers/web_element_handler.py:171-198 | the reaction to one attempt's outcome equals `HandlerSpec.LastAttempt` |
| HandlerSpec.LastAttempt | src/handlers/web_element_handler.py:171-198 | the loop goes on exactly after a stale error whose node still exists or an interception whose dispatch raised; every other outcome ends it, with True exactly for a click or a dispatch |
| HandlerSpec.ClickLoopAdvance | src/handlers/web_element_handler.py:152-198 | one attempt either ends the run with its own outcome or leaves the rest of the run to the next attempt |
| ElementHandler.WebElementHandler.ClickElement | src/handlers/web_element_handler.py:96-204 | verdict, page and appended effects equal `HandlerSpec.Click` (recovery, optional scroll, attempt loop) |
| HandlerSpec.ClickProceeds | src/handlers/web_element_handler.py:142-200 | once recovery proceeds, the click is the optional scroll followed by the attempts' effects and page |
| HandlerSpec.Attempts | src/handlers/web_element_handler.py:152-200 | the attempt loop only detaches nodes and records only click attempts and dispatches |
| HandlerSpec.RunTrace | src/handlers/web_element_handler.py:152-187 | one click attempt per attempt made, of the kind made, then the dispatch when the run ended by one |
| HandlerSpec.AfterRun | src/handlers/web_element_handler.py:152-200 | the page after the loop only loses nodes: the click's reaction on success, the node itself when the re-probe found it gone |
| HandlerSpec.Click | src/handlers/web_element_handler.py:96-204 | a click only detaches nodes and records only scrolls, click attempts and dispatches |
| HandlerSpec.ClickLoopAttempts | src/handlers/web_element_handler.py:152-170 | between one and three attempts; the first is native exactly when not `use_js` and the others are script clicks; a dispatched success is a success |
| HandlerSpec.ClickLoopFirstSuccess | src/handlers/web_element_handler.py:152-190 | after attempts that were all retried, the first success ends the loop: True after exactly that many attempts, with a dispatch exactly when it was an answered interception |
| HandlerSpec.ClickFirstSuccess | src/handlers/web_element_handler.py:96-200 | the same for the whole click: True, the click's reaction applied, and the scroll, attempts and dispatch counted exactly |
| HandlerSpec.ClickLoopOkWitness | src/handlers/web_element_handler.py:171-187 | success implies the node was live and the last attempt was a plain success or an interception answered by dispatched events |
| HandlerSpec.OtherErrorStops | src/handlers/web_element_handler.py:192-198 | an error other than interception or staleness ends the loop with False after that attempt |
| HandlerSpec.DetachedTriedOnce | src/handlers/web_element_handler.py:192-196 | on a node detached when the loop starts, the stale error and the failed re-probe end the loop with False after one attempt |
| HandlerSpec.StaleGoneStops | src/handlers/web_element_handler.py:192-196 | a stale error at any attempt whose re-probe finds the node gone ends the loop with False after that attempt, marking the node lost |
| HandlerSpec.DetachedAfterFirstAttempt | src/handlers/web_element_handler.py:152-196 | a node that goes stale during the loop: a retried first attempt, then a stale error with the node gone, gives False after two attempts and detaches the node |
| HandlerSpec.ClickAttemptBound | src/handlers/web_element_handler.py:96-204 | an aborted recovery clicks nothing and changes nothing; otherwise one to three attempts, and success only on a live node |
| HandlerSpec.StaleWithoutLocatorFails | src/handlers/web_element_handler.py:116-136 | a stale handle with neither id nor class is clicked as is and fails after one attempt |
| HandlerSpec.StaleRecoveryAborts | src/handlers/web_element_handler.py:112-140 | when reading a detached node's attributes raises, recovery aborts and the click returns False |
| ElementHandler.WebElementHandler.WaitAndClick | src/handlers/web_element_handler.py:219-222 | no clickable element: False and nothing changes; otherwise exactly the scrolling click on the wait's result |
| ElementHandler.WebElementHandler.LocateField | src/handlers/web_element_handler.py:237-242 | the field is the visible match if live, else whatever `ensure_valid_element` recovers |
| ElementHandler.WebElementHandler.TypeAttempts | src/handlers/web_element_handler.py:276-305 | at most three typing attempts, each keystrokes then scripted assignment with read-back; result and field value equal `HandlerSpec.FillLoop` |
| ElementHandler.WebElementHandler.FillField | src/handlers/web_element_handler.py:236-309 | verdict and page equal `HandlerSpec.Fill`; on a located field the effects are the unlock of a disabled field, then the scroll and the focus; no field, no effect |
| HandlerSpec.FillTarget | src/handlers/web_element_handler.py:237-242 | the field chosen is always live |
| HandlerSpec.FillLoopVerified | src/handlers/web_element_handler.py:279-298 | the typing loop reports True only with `text` read back |
| HandlerSpec.FillVerified | src/handlers/web_element_handler.py:236-305 | `fill_field` returns True only when the field it filled holds exactly `text` |
| HandlerSpec.FillNotFound | src/handlers/web_element_handler.py:237-242 | an unrecoverable field gives False and leaves the page unchanged |
| HandlerSpec.FillLoopThreeAttempts | src/handlers/web_element_handler.py:276-277 | answers to a fourth or later attempt never matter |
| HandlerSpec.MaskedText | src/handlers/web_element_handler.py:550-551 | a mask holding a digit reduces the text to digits only; otherwise the text is kept |
| Strings.DigitsKeepsDigits | src/handlers/web_element_handler.py:551 | the digit filter keeps every digit with its multiplicity |
| Strings.DigitsAppend | src/handlers/web_element_handler.py:551 | the digit filter distributes over concatenation, so digits keep their order |
| Strings.DigitsIdempotent | src/handlers/web_element_handler.py:551 | filtering twice is filtering once |
| ElementHandler.WebElementHandler.TypeKeys | src/handlers/web_element_handler.py:553-555 | one keystroke per character; the field ends with the last answer, and a keystroke that raises gives False (`HandlerSpec.Typed`) |
| ElementHandler.WebElementHandler.TypeMasked | src/handlers/web_element_handler.py:553-574 | after typing, a value that contains or is contained in the text is kept, else the text is assigned by script (`HandlerSpec.MaskedTyping`) |
| ElementHandler.WebElementHandler.FillMaskedField | src/handlers/web_element_handler.py:526-578 | no recovery: a missing field gives False and changes nothing; otherwise listener suppression, clearing, filtering and typing equal `HandlerSpec.FillMasked` |
| HandlerSpec.MaskedOutcome | src/handlers/web_element_handler.py:526-574 | a successful masked fill leaves a value that passes the check or equals the filtered text; a missing field gives False with the page unchanged |
| HandlerSpec.MaskedOk | src/handlers/web_element_handler.py:526-574 | conversely, a live field whose every keystroke is answered is filled with True |
| HandlerSpec.TypedAllAnswered | src/handlers/web_element_handler.py:553-555 | typing succeeds when every keystroke is answered, ending with the last answer |
| HandlerSpec.TypedRaises | src/handlers/web_element_handler.py:553-555 | a keystroke that raises fails the whole fill, whatever later answers are |
| ElementHandler.WebElementHandler.CloseViaButtons | src/handlers/web_element_handler.py:428-443 | True only when the popup is no longer visible; it only detaches nodes and appends scrolls, click attempts and dispatches |
| ElementHandler.WebElementHandler.ClickPopup | src/handlers/web_element_handler.py:445-458 | verdict, page and appended effects equal `HandlerSpec.PopupClick` |
| HandlerSpec.PopupClick | src/handlers/web_element_handler.py:445-458 | the script click, then removal of a popup still present unless the click closed it; True only when the popup is no longer visible; nodes are only detached and the effects are scrolls, attempts, dispatches and the removal |
| ElementHandler.WebElementHandler.RemovePopup | src/handlers/web_element_handler.py:452-456 | the popup node is detached, the removal recorded, and the verdict is the visibility check |
| ElementHandler.WebElementHandler.SweepOverlays | src/handlers/web_element_handler.py:460-473 | the overlay containers are detached, the sweep recorded, and the verdict is the visibility check |
| ElementHandler.WebElementHandler.HandlePopup | src/handlers/web_element_handler.py:427-473 | True exactly when the final check finds the popup gone; nodes are only detached, effects only appended, and when an overlay sweep was appended it is the last effect |
| HandlerSpec.ExtendsTrans | src/handlers/web_element_handler.py:435-473 | effects appended over two steps are those of each step, in order |
| Bot.SelectorStrategy | src/betbot.py:154 | XPath exactly for a selector starting with "//", CSS otherwise |
| Bot.PopupSelectorStrategies | src/betbot.py:152-154 | of the four registered popup selectors only the "Cancelar" button is an XPath |
| Bot.TrySelectors | src/betbot.py:152-179 | one pass over the selectors equals `Bot.SweepFrom` |
| Bot.SweepFrom | src/betbot.py:152-179 | a pass that found a popup spent at least the one-second pause; at most one close per selector |
| Bot.SweepCountsClicks | src/betbot.py:160-171 | a pass counts exactly the selectors whose plain or script click closed their popup, and finds a popup exactly when some selector was clickable |
| Bot.SettleCheck | src/betbot.py:185-194 | the settle check equals `Bot.SettleFrom` |
| Bot.SettleFrom | src/betbot.py:188-192 | the check reports a popup still visible exactly when some registered selector is visible |
| Bot.Step | src/betbot.py:150-194 | a pass never turns back the clock, keeps or uses one attempt, costs at least a second when it keeps it, and settles only once something was closed |
| Bot.HandlePopups | src/betbot.py:142-196 | popups closed, time used and passes run equal `Bot.Monitoring` from the start state |
| Bot.MonitoringStops | src/betbot.py:150 | the loop ends only when the budget is spent, the attempts are used up, or a pass settled |
| Bot.MonitoringPassBound | src/betbot.py:150-183 | the passes are bounded by the attempts left plus one per started second of remaining budget |
| Bot.PopupPassesAtMost43 | src/betbot.py:144-150 | from the start, at most 43 passes run |
| Bot.AttemptsDropOnEmptyPass | src/betbot.py:181-182 | a pass uses an attempt exactly when no selector was clickable |
| Bot.SettledPassEndsLoop | src/betbot.py:185-194 | once something was closed, by an earlier pass or by this one, a pass whose settle check sees nothing ends the loop |
| Bot.NoPopupsThreePasses | src/betbot.py:150-183 | with no popup ever, three empty passes take 36 seconds and close nothing |
| Bot.CollectReward | src/betbot.py:204-250 | verdict and attempts used equal `Bot.CollectFrom`, at most three attempts |
| Bot.CollectFrom | src/betbot.py:205-246 | at most three attempts, at least one |
| Bot.CollectCharacterised | src/betbot.py:205-246 | collection succeeds exactly when some attempt of the first three clicks, finds no block and gets a prize answer, after attempts that all moved on |
| Bot.BlockedStops | src/betbot.py:221-227 | a block popup after a successful click ends the loop with False |
| Bot.WordRunEnd | src/betbot.py:96 | the run of word characters from a position is all word characters and maximal |
| Bot.TailFrom | src/betbot.py:96 | true exactly when "_43" occurs in the range |
| Bot.WordRunCovers | src/betbot.py:96 | the maximal run reaches past any all-word stretch from the same position |
| Bot.SearchFromSound | src/betbot.py:96 | whatever the scanner finds is a match of `_btn_\w+_43` |
| Bot.SearchFromComplete | src/betbot.py:96 | every match of `_btn_\w+_43` is found by the scanner |
| Bot.LoginClassMatchCorrect | src/betbot.py:96 | the scanner accepts exactly the class strings the login-button pattern matches |
| Bot.ClickLoginButton | src/betbot.py:92-101 | the button loop equals `Bot.ScanButtons` |
| Bot.ScanButtons | src/betbot.py:95-101 | a clicked button is the last click made, and the loop only makes login-button clicks |
| Bot.ScanClickedFirst | src/betbot.py:95-101 | the button clicked is the first displayed button with a matching class whose click went through |
| Bot.DoLogin | src/betbot.py:87-140 | verdict and steps equal `Bot.Login` |
| Bot.Login | src/betbot.py:87-140 | every login starts by opening the page |
| Bot.LoginSucceeds | src/betbot.py:87-140 | login succeeds exactly when the page loaded, no displayed button lacked a class, a button was clicked or the fields were visible, and both fills and the submit went through; it then ends with username, password and submit |
| Bot.Record | src/betbot.py:306-311 | the url's entry is replaced by the new value and timestamp; other entries and the last-update stamp are unchanged |
| Bot.BetBot.SaveValue | src/betbot.py:298-319 | the returned pair and the file afterwards equal `Bot.Save` |
| Bot.SaveRecords | src/betbot.py:300-316 | a save that goes through records the value and reports a change exactly when it differs from the previous one; a missing file gives previous None and a change |
| Bot.SaveTwiceUnchanged | src/betbot.py:306-316 | saving the same value twice reports no change the second time |
| Bot.SaveFailureKeepsFile | src/betbot.py:299-319 | an unreadable file, a document without "sites" or a failed write gives (False, None) and leaves the file alone |
| Bot.BetBot.ProcessSite | src/betbot.py:349-373 | the site's block and the file afterwards equal `Bot.SiteReport` |
| Bot.BetBot.ProcessSites | src/betbot.py:343-375 | the report is the header followed by `Bot.ReportFrom`, and the file is the one it leaves |
| Bot.ReportFromStep | src/betbot.py:348-373 | the report of the sites from one on is that site's block followed by the rest on the file it left |
| Bot.LoginFailureContinues | src/betbot.py:352-353 | a failed login gives the "Login failed" error block, leaves the file alone and processing goes on |
| Bot.FirstSightShowsNoDifference | src/betbot.py:361-367 | a site seen for the first time never shows a difference |
| Bot.DifferenceShown | src/betbot.py:363-367 | the difference is shown exactly when the value changed and the previous one was non-empty |
| Bot.ReportExtends | src/betbot.py:346-375 | the report for fewer sites is a prefix of the report for more: blocks are only appended, in site order |
| Bot.DriverArguments | src/betbot.py:57-62 | the profile directory argument, then the flags of `Bot.Flags` |
| Bot.FlagsAreEnabledSwitches | src/betbot.py:60-62 | a flag is produced exactly for each enabled switch, as "--" and the key with '_' replaced by '-'; no flag keeps an underscore |
| Bot.ShippedConfigHasNoFlags | config.py:9-14 | with the shipped switches all off, the browser gets only the profile directory |
| Strings.ReplaceChar | src/betbot.py:62 | every occurrence of the character is replaced and nothing else changes |
| Schedule.Split | main.py:48 | splitting yields at least one part and no part holds the separator |
| Schedule.JoinSplit | main.py:48 | joining the parts with the separator gives back the string |
| Schedule.SplitPair | main.py:48 | two separator-free strings around one separator split back into exactly those two |
| Schedule.ParseFormat | main.py:48 | parsing a formatted "HH:MM" gives back its hour and minute |
| Schedule.SchedulesAreEvenHours | main.py:42-45 | the shipped schedules are the even hours 0 to 22 at minute 20, in order |
| Schedule.JobIdInjective | main.py:56 | schedules without underscores get distinct job ids |
| Schedule.Register | main.py:47-58 | at most one job per schedule; all of them when every schedule parses |
| Schedule.RegisterJobs | main.py:47-58 | every job carries its schedule's id, name and parsed hour and minute |
| Schedule.ShippedJobs | main.py:42-58 | the shipped schedules give twelve jobs at hour 2i, minute 20, with distinct ids |
| Schedule.ScheduleExecutions | main.py:40-59 | the scheduler's jobs are extended by `Schedule.Register`'s jobs in order; a schedule that does not parse stops registration there |
| Schedule.RunNow | main.py:74-76 | run at once exactly when the hour is even and in 0..22 and the minute is at most 10 |
| Schedule.RunNowPrecedesScheduledJob | main.py:42-76 | an immediate run falls in an hour that has a scheduled job, before that job's minute |

## Left out

- Timing. Waits, polling and sleeps are not modelled as time passing in the
  element handler. A wait looks at one snapshot of the page and, like Selenium's
  expected conditions, only at the first match. The popup loop of
  `handle_popups` advances a millisecond counter by the source's timeouts and
  sleeps. It also adds an "overhead" value per pass for the time spent outside
  them.
- Browser scripts. Scrolls, focus, click attempts, dispatched events, popup
  removal, the overlay sweep and unlocking are recorded as effects in
  `Browser.trace`. The overlay neutralisation of a native click is part of its
  `ClickAttempt(h, true)` effect. On the page, unlocking sets the field enabled,
  removal and the sweep detach nodes, and a click detaches the nodes of its
  reaction. Scrolling, focus, neutralisation and listener suppression change
  nothing else in the model. The overlay sweep removes the page's fixed set of
  overlay containers rather than evaluating its CSS conditions.
- Class attributes. A class attribute made only of whitespace is modelled as an
  empty token list. So the model does not capture one behaviour: the stale-handle
  recovery of `click_element` fails with an index error on such an attribute and
  returns False. An absent attribute and an empty one are not distinguished in
  the element handler.
- HandlerSpec.MaskedText: the digit filter keeps ASCII digits only. Python's
  `str.isdigit` also keeps other Unicode digits, such as fullwidth digits,
  which the model drops. The mask test itself is exactly ASCII in the source.
- `\w` is taken over ASCII letters, digits and the underscore. Python's
  Unicode word characters are not modelled.
- `int()` in schedule parsing accepts only plain ASCII digit strings. Python
  also accepts surrounding whitespace, a sign and underscores. The shipped
  schedules use none of these.
- The values file:
  - The clock reading is a parameter.
  - JSON encoding and the file system are abstracted to the three states
    Missing, Unreadable and Stored.
  - A failed write is modelled as leaving the file unchanged, although in
    Python opening for writing truncates it.
- `capture_value` and the money helpers (`src/utils/money_handler.py`) are not
  part of this model. The captured value is an input of each site's run, and
  the difference text is a function parameter.
- Not modelled:
  - logging;
  - Telegram messages, including the start message of `process_sites`;
  - creating and closing the driver and the temporary profile directory;
  - `execute`;
  - APScheduler's trigger semantics, time zones and the event listener.

  These are I/O or foreign library calls with no logic of the bot's own.
- Exceptions:
  - The outer `except` clauses of `handle_popup`, `fill_field` and
    `fill_masked_field` are not modelled: only calls whose failures are part
    of the model raise.
  - An exception inside `handle_popups`' settle check, which would escape the
    method, is not modelled.
  - A failure of the body click in `handle_popups` is ignored, as in the
    source.
- Schedule.ScheduleExecutions: duplicate job ids would make APScheduler refuse
  the second job. The model appends it anyway. `Schedule.ShippedJobs` shows the
  shipped ids are distinct.
- ElementHandler.WebElementHandler.HandlePopup: states the verdict, that nodes
  are only detached and effects only appended, and that when an overlay sweep
  is appended it is the last effect. It does not state the order of the
  close-control clicks, the popup click and the removal, and it is not tied to
  a single specification function of the whole popup procedure.
- ElementHandler.WebElementHandler.CloseViaButtons: states only that a True
  verdict means the popup is gone, plus the page and effect frame. It does not
  describe which buttons were clicked.
