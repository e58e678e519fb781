/** The per-site pipeline of app.py: `check_dns`, `take_screenshot` and the
    status record that `check_website` assembles from them.  The network and
    the browser are replaced by the outcomes they produced. */
module Checks {
  import opened Outcomes

  /** What `session.get(...)` did inside the try block of `check_dns`. */
  datatype HttpReply = Response(status: int) | RequestFailed(msg: string)

  /** Opening or closing the aiohttp client session, which happens outside
      that try block, either worked or raised. */
  datatype SessionOutcome = Opened(reply: HttpReply) | SessionFailed(msg: string)

  /** The browser steps inside the try block of `take_screenshot`
      (navigate, size the window, save the image): `Saved` means the three
      calls returned without raising; what `save_screenshot` returns is
      ignored, so it does not say that a file was written. */
  datatype BrowserRun = Saved | BrowserFailed(msg: string)

  /** Starting the Chrome driver happens outside the try block; once it has
      started, `driver.quit()` runs in the finally clause and may itself raise. */
  datatype DriverOutcome =
    | DriverFailed(msg: string)
    | Started(run: BrowserRun, quit: Option<string>)

  /** Everything the outside world contributes to one call of `check_website`,
      including the clock reading taken when the record is created. */
  datatype SiteEnv = SiteEnv(session: SessionOutcome, driver: DriverOutcome, clock: string)

  /** The dict built by `check_website`. */
  datatype StatusRecord = StatusRecord(
    dns: bool,
    ssl: bool,
    online: bool,
    error: Option<string>,
    screenshot: Option<string>,
    lastChecked: string)

  /** `check_dns`: True exactly on an HTTP 200 reply; every failure inside the
      try block is turned into False; only the session itself can raise. */
  function CheckDns(session: SessionOutcome): (r: Raise<bool>)
    ensures r.Raised? <==> session.SessionFailed?
    ensures session.SessionFailed? ==> r == Raised(session.msg)
    ensures r == Returned(true) <==> session == Opened(Response(200))
  {
    match session
    case SessionFailed(m) => Raised(m)
    case Opened(Response(code)) => Returned(code == 200)
    case Opened(RequestFailed(_)) => Returned(false)
  }

  /** The file `take_screenshot` writes for a domain. */
  function ScreenshotPath(domain: string): (p: string)
    ensures |p| == |domain| + 23
    ensures p[..19] == "static/screenshots/" && p[19..|p| - 4] == domain && p[|p| - 4..] == ".png"
  {
    "static/screenshots/" + domain + ".png"
  }

  /** `take_screenshot`: the path on success, None when a browser step fails;
      it raises when the driver cannot be started or when `driver.quit()` in
      the finally clause raises (that exception replaces the return value). */
  function TakeScreenshot(domain: string, driver: DriverOutcome): (r: Raise<Option<string>>)
    ensures r.Returned? && r.value.Some? ==> r.value.value == ScreenshotPath(domain)
    ensures r == Returned(Some(ScreenshotPath(domain))) <==> driver == Started(Saved, None)
    ensures r == Returned(None) <==> driver.Started? && driver.run.BrowserFailed? && driver.quit.None?
    ensures r.Raised? <==> driver.DriverFailed? || driver.quit.Some?
    ensures driver.Started? && driver.quit.Some? ==> r == Raised(driver.quit.value)
    ensures driver.DriverFailed? ==> r == Raised(driver.msg)
  {
    match driver
    case DriverFailed(m) => Raised(m)
    case Started(run, quit) =>
      if quit.Some? then Raised(quit.value)
      else if run.Saved? then Returned(Some(ScreenshotPath(domain)))
      else Returned(None)
  }

  /** Python truthiness of a `str | None` value. */
  predicate Truthy(s: Option<string>) {
    s.Some? && s.value != ""
  }

  /** The record every check starts from: nothing is up, no error, no
      screenshot, only the clock reading; it obeys the rules for any domain. */
  function Initial(clock: string): (r: StatusRecord)
    ensures forall d :: WellFormed(r, d)
    ensures !r.dns && !r.ssl && !r.online && r.error == None && r.screenshot == None
    ensures r.lastChecked == clock
  {
    StatusRecord(false, false, false, None, None, clock)
  }

  /** The rules every record produced for `domain` obeys. */
  predicate WellFormed(r: StatusRecord, domain: string) {
    && !r.ssl
    && (r.online ==> r.dns)
    && (r.online <==> r.screenshot.Some?)
    && (r.screenshot.Some? ==> r.screenshot.value == ScreenshotPath(domain))
    && (r.error.Some? ==> !r.online)
  }

  /** The record `check_website` returns: it never raises, attempts the
      screenshot only after a True probe, and reports the message of the
      first exception while keeping the fields assigned before it. */
  function Status(domain: string, env: SiteEnv): (r: StatusRecord)
    ensures WellFormed(r, domain)
    ensures r.lastChecked == env.clock
    ensures r.dns <==> CheckDns(env.session) == Returned(true)
    ensures r.online <==> r.dns && TakeScreenshot(domain, env.driver) == Returned(Some(ScreenshotPath(domain)))
    ensures !r.dns ==> r.screenshot == None && !r.online
    ensures r.error.Some? <==>
              CheckDns(env.session).Raised? || (r.dns && TakeScreenshot(domain, env.driver).Raised?)
    ensures CheckDns(env.session).Raised? ==> r.error == Some(env.session.msg)
    ensures r.dns && TakeScreenshot(domain, env.driver).Raised? ==>
              r.error == Some(TakeScreenshot(domain, env.driver).msg)
    ensures !r.dns ==> r == Initial(env.clock).(error := r.error)
  {
    var start := Initial(env.clock);
    match CheckDns(env.session)
    case Raised(m) => start.(error := Some(m))
    case Returned(up) =>
      if !up then start
      else
        match TakeScreenshot(domain, env.driver)
        case Raised(m) => start.(dns := true, error := Some(m))
        case Returned(shot) => start.(dns := true, screenshot := shot, online := Truthy(shot))
  }

  /** `check_website`, filling in the record one field at a time. */
  method CheckWebsite(domain: string, env: SiteEnv) returns (r: StatusRecord)
    ensures r == Status(domain, env)
  {
    r := Initial(env.clock);
    var probe := CheckDns(env.session);
    if probe.Raised? {
      r := r.(error := Some(probe.msg));
    } else {
      r := r.(dns := probe.value);
      if r.dns {
        var shot := TakeScreenshot(domain, env.driver);
        if shot.Raised? {
          r := r.(error := Some(shot.msg));
        } else {
          r := r.(screenshot := shot.value);
          r := r.(online := Truthy(r.screenshot));
        }
      }
    }
  }
}
