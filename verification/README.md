# Site health crawler: the check pipeline and its bookkeeping

This project models the decision and bookkeeping logic of a small Flask
application that watches a list of websites. For each registered site it
probes the site over HTTP. If the probe answers 200, it takes a screenshot
with a headless Chrome browser. It then records a status record (`dns`,
`ssl`, `online`, `error`, `screenshot`, `last_checked`) in a table that
persists between passes. New sites are added through a form.

Every call into the outside world is replaced by the outcome it produced:

- The HTTP session is a `SessionOutcome`. Opening or closing the session may
  raise. Otherwise the request gives a status code or fails.
- The browser is a `DriverOutcome`. Starting the driver may raise. The three
  browser calls either all return without raising (`Saved`) or one raises.
  The value `save_screenshot` returns is ignored (app.py:44), so `Saved`
  does not mean a file was written, and the path is returned either way.
  `driver.quit()` may raise.
- The clock reading is part of the per-task `SiteEnv`, because every call
  of `check_website` reads the clock itself (app.py:59).
- The `asyncio.gather` fan-out is a sequence `runs` with one `SiteRun` per
  list entry. A task either ran `check_website` or ended in an exception.
  A site listed twice is checked twice, and its two tasks may differ.

Modules:

- `Outcomes`: `Option` stands for `None`-or-value. `Raise` stands for
  "returned a value or raised an exception with this message".
- `Checks`: `check_dns`, `take_screenshot` and `check_website`.
  `check_website` is both a specification function (`Status`) and a method
  that fills the record in field by field (`CheckWebsite`).
- `StatusTable`: the table as a map, and the fold that the result loop
  performs on it (`Apply`, over `Zip` of sites and results).
- `Registry`: the guard of `add_website`.
- `Monitor`: the two module-level variables, `websites` and
  `website_status`, as a class. Its methods are the check pass and
  `add_website`.

Facts about the code that the model keeps:

- The code updates the table in place, key by key (app.py:79-83). It never
  clears the table, so entries of earlier passes stay.
- The code starts one task per list entry, with no limit on how many run at
  once (app.py:77-78).
- A failed probe (timeout, refused connection, non-200 status) gives
  `dns = False` and no error (app.py:28-30). Only an exception that escapes a
  helper sets `error`, and `error` holds that exception's message
  (app.py:67-72).
- `add_website` returns a redirect (app.py:97) and does not report whether
  the URL was added. `AddWebsite` returns `added`, which only exposes the
  branch it took.
- The configured site list is not de-duplicated (app.py:20). So distinctness
  is a lemma about `Register`, not an invariant of `Monitor`. When a site is
  listed twice, the later task's result is the one kept.

## Model

| member | source | states |
|---|---|---|
| `Checks.CheckDns` | app.py:23-30 | The probe returns True exactly on an HTTP 200 reply. A failed request or a non-200 status gives False. Only a failure of the session itself raises, carrying its message. |
| `Checks.ScreenshotPath` | app.py:39 | The screenshot file is `static/screenshots/` + domain + `.png`. The domain can be read back from it, so distinct domains give distinct path strings. |
| `Checks.TakeScreenshot` | app.py:32-50 | The result is either exactly the domain's screenshot path (all browser steps succeeded and quit was clean) or None (a browser step failed). It raises when the driver cannot start. It also raises when `driver.quit()` in the finally clause raises, and that exception replaces the return value. |
| `Checks.Initial` | app.py:53-60 | The starting record has `dns`, `ssl` and `online` False and no error or screenshot, and carries the clock reading. It already obeys the record rules for any domain. |
| `Checks.Status` | app.py:52-74 | The record never has `ssl` set. `online` implies `dns`. `online` holds exactly when a screenshot path is present, and that path is the domain's. A screenshot is attempted only after a True probe; otherwise the record stays initial apart from `error`. `error` is set exactly when a sub-step raised, and then it holds that exception's message. Fields assigned before the raise keep their values. `last_checked` is the clock reading. |
| `Checks.CheckWebsite` | app.py:52-74 | Assigning the fields one at a time, as the try block does, yields exactly the record `Status` describes. |
| `StatusTable.Zip` | app.py:79 | Pairs the i-th site with the i-th result and stops at the shorter list. |
| `StatusTable.Stored` | app.py:80-83 | A result that is an exception is stored as `Failed(msg)` (`{'error': msg}`) with its message. Any other result is stored as the record itself. |
| `StatusTable.Apply` | app.py:79-83 | Writing the pairs in order never removes a key. The last pair's site holds that pair's stored entry. |
| `StatusTable.ApplyKeys` | app.py:79-83 | After the loop the table's keys are the old keys plus every site written. The table is never cleared. |
| `StatusTable.ApplyOutside` | app.py:79-83 | A key that no pair names keeps its presence and its entry unchanged. |
| `StatusTable.ApplyLast` | app.py:79-83 | A written site holds what its last pair stored: an exception result becomes `Failed(msg)` (`{'error': msg}`), and any other result is stored unchanged. |
| `Monitor.Task` | app.py:77-78 | A task that ran gives a well-formed record for its own site. A task ended by an exception gives that exception's message. |
| `Monitor.Gather` | app.py:77-78 | There is one result per list entry, in list order, and the i-th result is the i-th task's own outcome. |
| `Monitor.RunAll` | app.py:77-78 | Running the tasks one per list entry and collecting their results in order gives exactly `Gather`. |
| `Monitor.RunTask` | app.py:77-78 | Running one task by calling `CheckWebsite` gives the result `Task` describes. |
| `Monitor.PassResult` | app.py:76-83 | After a full pass every site has the entry of its last task in the list. Keys outside the site list keep their entries. The keys are the old keys plus the sites. |
| `Monitor.DuplicateLaterWins` | app.py:77-83 | For a site listed twice whose two checks differ, the table holds the second check's record. |
| `Monitor.TwoSitePass` | app.py:52-83 | For one site captured and one that times out, the table holds exactly two entries. The first is online with its screenshot. The second is offline with no error. |
| `Monitor.Monitor.constructor` | app.py:20-21 | The site list is the configured list and the table starts empty. |
| `Monitor.Monitor.RecordResults` | app.py:79-83 | The loop leaves the table equal to the fold of the zipped pairs over the old table. Only registered sites have entries. |
| `Monitor.Monitor.CheckWebsitesAsync` | app.py:76-83 | A pass gives every registered site the entry of its last task in the list, and every stored record is well formed. The table's keys become exactly the registered sites. No key is lost. |
| `Monitor.Monitor.AddWebsite` | app.py:91-97 | A non-empty URL not yet listed is appended and a full pass is run. Otherwise neither the list nor the table changes. |
| `Registry.Register` | app.py:94-95 | The old list is a prefix of the new one, which grows by at most one. It grows exactly when the URL is non-empty and new. A non-empty URL is listed afterwards, and nothing else is added. |
| `Registry.RegisterIdempotent` | app.py:94-95 | Adding the same URL twice is the same as adding it once. |
| `Registry.RegisterKeepsDistinct` | app.py:94-95 | A list without duplicates stays without duplicates. |
| `Registry.RegisterOccurrences` | app.py:94-95 | A new non-empty URL occurs exactly once afterwards. The count of a URL already listed is unchanged. |

## Left out

- Flask routing, templates, redirects and reading the form field (app.py:13-14, 85-92, 96-100) are presentation plumbing.
- The real HTTP request and the aiohttp session handling are left out. They are replaced by `SessionOutcome`.
- ChromeDriver installation, browser options, navigation, window sizing and saving the image are left out. They are replaced by `DriverOutcome`. That `driver.quit()` always runs once the driver has started is not modelled as a separate observable, because only its raising affects the result.
- The concurrency of `asyncio.gather` is left out. Tasks are run in list order, and results are reported in that order, as `gather` does. Interleaving between a request to `index` and one to `add_website` is not modelled.
- Logging, configuration loading and the formatting of `datetime.now()` are I/O and clock, so they are left out. The timestamp is an opaque string given per site.
- The `url` argument of `check_website` and `take_screenshot` is never read, so the model has no such argument.
- An exception that is a `BaseException` but not an `Exception` (for example a cancelled task) fails the `isinstance` test at app.py:80, so the code stores that exception object itself as the entry (app.py:83). The model turns every crashed task into `Failed(msg)`; it has no entry for a raw exception object.
- The distinction between `WebDriverException` and other exceptions in `check_website` only changes the log message, so both are one `Raised(msg)`.
