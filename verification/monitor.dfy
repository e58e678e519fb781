/** The module-level state of app.py, `websites` and `website_status`, and the
    operations that change it: the check pass and `add_website`. */
module Monitor {
  import opened Outcomes
  import opened Checks
  import opened StatusTable
  import opened Registry

  /** How one task of the pass ended: `check_website` ran against `env`, or
      an exception it does not catch ended the task. */
  datatype SiteRun = Ran(env: SiteEnv) | Crashed(msg: string)

  /** The result `asyncio.gather(..., return_exceptions=True)` reports for one task. */
  function Task(site: string, run: SiteRun): (o: Raise<StatusRecord>)
    ensures o.Returned? <==> run.Ran?
    ensures o.Returned? ==> WellFormed(o.value, site) && o.value == Status(site, run.env)
    ensures o.Raised? ==> o.msg == run.msg
  {
    match run
    case Ran(env) => Returned(Status(site, env))
    case Crashed(m) => Raised(m)
  }

  /** The results of the whole fan-out: one task per list entry, each with its
      own outcome, reported in the order of the list. */
  function Gather(sites: seq<string>, runs: seq<SiteRun>): (rs: seq<Raise<StatusRecord>>)
    requires |runs| == |sites|
    ensures |rs| == |sites|
    ensures forall i :: 0 <= i < |sites| ==> rs[i] == Task(sites[i], runs[i])
    decreases |sites|
  {
    if sites == [] then []
    else
      var n := |sites| - 1;
      Gather(sites[..n], runs[..n]) + [Task(sites[n], runs[n])]
  }

  /** The table a full pass over `sites` publishes, starting from `t`: every
      site gets the entry of its last task in the list, every other key is
      kept, nothing is removed. */
  lemma PassResult(t: map<string, Entry>, sites: seq<string>, runs: seq<SiteRun>)
    requires |runs| == |sites|
    ensures var p := Apply(t, Zip(sites, Gather(sites, runs)));
      && (forall s :: s in sites ==> s in p && p[s] == Stored(Task(s, runs[LastIndex(sites, s)])))
      && (forall k :: k in t && k !in sites ==> k in p && p[k] == t[k])
      && p.Keys == t.Keys + set s | s in sites
  {
    var ps := Zip(sites, Gather(sites, runs));
    var p := Apply(t, ps);
    forall s | s in sites
      ensures s in p && p[s] == Stored(Task(s, runs[LastIndex(sites, s)]))
    {
      var i := LastIndex(sites, s);
      ApplyLast(t, ps, i);
    }
    forall k | k in t && k !in sites
      ensures k in p && p[k] == t[k]
    {
      ApplyOutside(t, ps, k);
    }
    ApplyKeys(t, ps);
    assert Sites(ps) == set s | s in sites by {
      forall s | s in sites ensures s in Sites(ps) {
        var i :| 0 <= i < |sites| && sites[i] == s;
        assert ps[i] in ps;
      }
    }
  }

  /** Two sites, one that answers 200 and is captured, one whose request
      times out: the pass publishes exactly two entries; the first is online
      with its screenshot, the second is offline with no error recorded,
      because `check_dns` swallows the timeout. */
  lemma TwoSitePass(clock: string)
    ensures var runs := [Ran(SiteEnv(Opened(Response(200)), Started(Saved, None), clock)),
                         Ran(SiteEnv(Opened(RequestFailed("timeout")), DriverFailed("unused"), clock))];
            var p := Apply(map[], Zip(["a.example", "b.example"], Gather(["a.example", "b.example"], runs)));
            && p.Keys == {"a.example", "b.example"}
            && p["a.example"] == Checked(StatusRecord(true, false, true, None, Some(ScreenshotPath("a.example")), clock))
            && p["b.example"] == Checked(StatusRecord(false, false, false, None, None, clock))
  {
    var runs := [Ran(SiteEnv(Opened(Response(200)), Started(Saved, None), clock)),
                 Ran(SiteEnv(Opened(RequestFailed("timeout")), DriverFailed("unused"), clock))];
    var sites := ["a.example", "b.example"];
    PassResult(map[], sites, runs);
    assert LastIndex(sites, sites[0]) == 0;
    assert LastIndex(sites, sites[1]) == 1;
    assert (set s | s in sites) == {"a.example", "b.example"};
  }

  /** A site listed twice is checked twice; the table keeps the second
      task's record, even when the two checks disagree. */
  lemma DuplicateLaterWins(first: SiteEnv, second: SiteEnv)
    ensures var sites := ["a.example", "a.example"];
            var p := Apply(map[], Zip(sites, Gather(sites, [Ran(first), Ran(second)])));
            && p.Keys == {"a.example"}
            && p["a.example"] == Checked(Status("a.example", second))
  {
    var sites := ["a.example", "a.example"];
    PassResult(map[], sites, [Ran(first), Ran(second)]);
    assert LastIndex(sites, sites[0]) == 1;
    assert (set s | s in sites) == {"a.example"};
  }

  /** One task of the pass: run `check_website`, or report the exception
      that ended the task. */
  method RunTask(site: string, run: SiteRun) returns (o: Raise<StatusRecord>)
    ensures o == Task(site, run)
  {
    match run
    case Crashed(m) =>
      o := Raised(m);
    case Ran(env) =>
      var rec := CheckWebsite(site, env);
      o := Returned(rec);
  }

  /** The fan-out: one task per list entry, run in list order, results
      collected in list order. */
  method RunAll(sites: seq<string>, runs: seq<SiteRun>) returns (results: seq<Raise<StatusRecord>>)
    requires |runs| == |sites|
    ensures results == Gather(sites, runs)
  {
    results := [];
    for i := 0 to |sites|
      invariant results == Gather(sites[..i], runs[..i])
    {
      assert sites[..i + 1][..i] == sites[..i];
      assert runs[..i + 1][..i] == runs[..i];
      var o := RunTask(sites[i], runs[i]);
      results := results + [o];
    }
    assert sites[..|sites|] == sites;
    assert runs[..|runs|] == runs;
  }

  class Monitor {
    /** The registered sites, in order; the configured list may hold duplicates. */
    var websites: seq<string>
    /** The status table, kept between passes. */
    var status: map<string, Entry>

    /** Only registered sites ever get a table entry. */
    ghost predicate Valid()
      reads this
    {
      forall k :: k in status ==> k in websites
    }

    /** Start-up: the configured list and an empty table. */
    constructor (configured: seq<string>)
      ensures Valid()
      ensures websites == configured && status == map[]
    {
      websites := configured;
      status := map[];
    }

    /** The result loop of `check_websites_async`: pair the sites with the
        results and write each pair into the table. */
    method RecordResults(results: seq<Raise<StatusRecord>>)
      requires Valid()
      modifies this`status
      ensures Valid()
      ensures status == Apply(old(status), Zip(websites, results))
    {
      var pairs := Zip(websites, results);
      for i := 0 to |pairs|
        invariant status == Apply(old(status), pairs[..i])
      {
        assert pairs[..i + 1][..i] == pairs[..i];
        status := status[pairs[i].0 := Stored(pairs[i].1)];
      }
      assert pairs[..|pairs|] == pairs;
      ApplyKeys(old(status), pairs);
      forall k | k in status ensures k in websites {
        if k !in old(status) {
          var p :| p in pairs && p.0 == k;
          var i :| 0 <= i < |pairs| && pairs[i] == p;
        }
      }
    }

    /** `check_websites_async`: run one task per list entry (`runs[i]` is
        what the world did during the i-th task), then record the results;
        every site ends up with the entry of its last task. */
    method CheckWebsitesAsync(runs: seq<SiteRun>)
      requires Valid()
      requires |runs| == |websites|
      modifies this`status
      ensures Valid()
      ensures status == Apply(old(status), Zip(websites, Gather(websites, runs)))
      ensures status.Keys == set s | s in websites
      ensures old(status).Keys <= status.Keys
      ensures forall s :: s in websites ==>
                s in status && status[s] == Stored(Task(s, runs[LastIndex(websites, s)]))
      ensures forall s :: s in websites && status[s].Checked? ==> WellFormed(status[s].record, s)
    {
      var results := RunAll(websites, runs);
      RecordResults(results);
      PassResult(old(status), websites, runs);
    }

    /** `add_website`: a non-empty URL not yet listed is appended and a new
        pass runs over the grown list (one run per entry); otherwise nothing
        changes. */
    method AddWebsite(url: string, runs: seq<SiteRun>) returns (added: bool)
      requires Valid()
      requires |runs| == |Register(websites, url)|
      modifies this
      ensures Valid()
      ensures websites == Register(old(websites), url)
      ensures added <==> url != "" && url !in old(websites)
      ensures added ==> status == Apply(old(status), Zip(websites, Gather(websites, runs)))
      ensures !added ==> status == old(status)
    {
      added := url != "" && url !in websites;
      if added {
        websites := websites + [url];
        CheckWebsitesAsync(runs);
      }
    }
  }
}
