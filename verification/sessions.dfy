/** Sequences of requests handled one after another against one usage file,
    and the properties that hold across them. */
module Sessions {
  import opened Wrappers
  import opened UsageStore
  import opened QuotaGate
  import opened Handlers

  /** One request as it arrives: the host's date at that moment, the request,
      and whether the PDF library would succeed on it. */
  datatype Event = Event(today: Date, req: Request, pdfOk: bool)

  /** The responses to a run of events and the usage file left behind. */
  datatype Trace = Trace(responses: seq<Response>, file: UsageFile)

  /** Handles `evs` in order, each request seeing the file the previous one left. */
  function Run(f: UsageFile, evs: seq<Event>): (t: Trace)
    ensures |t.responses| == |evs|
    ensures t.file.Malformed? <==> f.Malformed?
    decreases |evs|
  {
    if evs == [] then Trace([], f)
    else
      var st := Handle(f, evs[0].today, evs[0].req, evs[0].pdfOk);
      var rest := Run(st.file, evs[1..]);
      Trace([st.response] + rest.responses, rest.file)
  }

  /** The count for `d` is a value the quota can reach: between 0 and the
      limit (or the file cannot be read, so there is no count). */
  ghost predicate DayWithinQuota(f: UsageFile, d: Date)
  {
    match GetUsageCount(f, d)
    case None => true
    case Some(c) => 0 <= c <= USAGE_LIMIT
  }

  /** Whether `e` is a reset request for day `d`, with any key. */
  predicate ResetsDay(e: Event, d: Date)
  {
    e.today == d && e.req.ResetRequest?
  }

  /** The number of actions in a run that succeeded on day `d`. */
  function Successes(evs: seq<Event>, rs: seq<Response>, d: Date): nat
    requires |rs| == |evs|
    decreases |evs|
  {
    if evs == [] then 0
    else (if evs[0].today == d && rs[0].Download? then 1 else 0) + Successes(evs[1..], rs[1..], d)
  }

  /** A single request keeps any day's count within the quota: an increment
      only happens below the limit, and a reset only lowers to 0. */
  lemma HandleKeepsQuota(f: UsageFile, today: Date, req: Request, pdfOk: bool, d: Date)
    requires DayWithinQuota(f, d)
    ensures DayWithinQuota(Handle(f, today, req, pdfOk).file, d)
  {
  }

  /** The quota invariant: if a day's count starts within [0, limit], it stays
      there after any sequence of merges, protects, resets and page views,
      whatever dates they arrive on. */
  lemma {:induction false} RunKeepsQuota(f: UsageFile, evs: seq<Event>, d: Date)
    requires DayWithinQuota(f, d)
    ensures DayWithinQuota(Run(f, evs).file, d)
    decreases |evs|
  {
    if evs != [] {
      var st := Handle(f, evs[0].today, evs[0].req, evs[0].pdfOk);
      HandleKeepsQuota(f, evs[0].today, evs[0].req, evs[0].pdfOk, d);
      RunKeepsQuota(st.file, evs[1..], d);
    }
  }

  /** The form shown after any run from a state within quota offers between
      0 and the limit remaining actions. */
  lemma RemainingWithinBounds(f: UsageFile, evs: seq<Event>, today: Date)
    requires DayWithinQuota(f, today)
    ensures var g := Run(f, evs).file;
            var st := FormStep(g, today);
            st.file == g
            && (st.response.Form? ==> 0 <= st.response.remaining <= USAGE_LIMIT)
  {
    RunKeepsQuota(f, evs, today);
  }

  /** Dates no request arrives on are never changed by a run. */
  lemma {:induction false} RunLeavesOtherDays(f: UsageFile, evs: seq<Event>, d: Date)
    requires forall i :: 0 <= i < |evs| ==> evs[i].today != d
    ensures GetUsageCount(Run(f, evs).file, d) == GetUsageCount(f, d)
    decreases |evs|
  {
    if evs != [] {
      var st := Handle(f, evs[0].today, evs[0].req, evs[0].pdfOk);
      if !f.Malformed? {
        assert Lookup(LoadUsage(st.file).value, d) == Lookup(LoadUsage(f).value, d);
      }
      RunLeavesOtherDays(st.file, evs[1..], d);
    }
  }

  /** One request moves day `d`'s count by one exactly when it is a successful
      action on `d`, and leaves it alone otherwise (resets on `d` excluded). */
  lemma HandleCountsSuccess(f: UsageFile, today: Date, req: Request, pdfOk: bool, d: Date)
    requires !f.Malformed?
    requires !(today == d && req.ResetRequest?)
    ensures var st := Handle(f, today, req, pdfOk);
            GetUsageCount(st.file, d).value
              == GetUsageCount(f, d).value + (if today == d && st.response.Download? then 1 else 0)
  {
  }

  /** The counter counts exactly the successful actions: over a run with no
      reset on day `d`, its count rises by the number of merges and protects
      that succeeded on `d`, and by nothing else. */
  lemma {:induction false} RunCountsSuccesses(f: UsageFile, evs: seq<Event>, d: Date)
    requires !f.Malformed?
    requires forall i :: 0 <= i < |evs| ==> !ResetsDay(evs[i], d)
    ensures var t := Run(f, evs);
            GetUsageCount(t.file, d).value == GetUsageCount(f, d).value + Successes(evs, t.responses, d)
    decreases |evs|
  {
    if evs != [] {
      var st := Handle(f, evs[0].today, evs[0].req, evs[0].pdfOk);
      assert !ResetsDay(evs[0], d);
      HandleCountsSuccess(f, evs[0].today, evs[0].req, evs[0].pdfOk, d);
      assert forall i :: 0 <= i < |evs[1..]| ==> !ResetsDay(evs[1..][i], d) by {
        forall i | 0 <= i < |evs[1..]| ensures !ResetsDay(evs[1..][i], d) {
          assert evs[1..][i] == evs[i + 1];
        }
      }
      RunCountsSuccesses(st.file, evs[1..], d);
      var t := Run(f, evs);
      assert t.responses[0] == st.response;
      assert t.responses[1..] == Run(st.file, evs[1..]).responses;
    }
  }

  /** Without a reset, a day's count never goes down. */
  lemma RunNeverLowersWithoutReset(f: UsageFile, evs: seq<Event>, d: Date)
    requires !f.Malformed?
    requires forall i :: 0 <= i < |evs| ==> !ResetsDay(evs[i], d)
    ensures GetUsageCount(Run(f, evs).file, d).value >= GetUsageCount(f, d).value
  {
    RunCountsSuccesses(f, evs, d);
  }

  /** The daily budget is enforced across actions: with no reset on `d`, at most
      `USAGE_LIMIT - c` merges and protects succeed on `d` in total, where `c`
      is the count the day started with. From a fresh day that is 5. */
  lemma AtMostLimitSuccessesPerDay(f: UsageFile, evs: seq<Event>, d: Date)
    requires !f.Malformed?
    requires DayWithinQuota(f, d)
    requires forall i :: 0 <= i < |evs| ==> !ResetsDay(evs[i], d)
    ensures Successes(evs, Run(f, evs).responses, d) <= USAGE_LIMIT - GetUsageCount(f, d).value
  {
    RunCountsSuccesses(f, evs, d);
    RunKeepsQuota(f, evs, d);
  }

  /** One working merge on a day whose only entry is `n`, below the limit,
      succeeds and leaves `n + 1`. */
  lemma MergeOnDay(today: Date, n: int)
    requires n < USAGE_LIMIT
    ensures Handle(Written(map[today := n]), today, MergeSubmit, true)
              == Step(Download(MergedPdf), Written(map[today := n + 1]))
  {
  }

  /** Five successful merges on a fresh day, each with a working PDF library,
      and the sixth is refused: the bound of AtMostLimitSuccessesPerDay is
      reached, not just respected. */
  lemma FiveActionsThenRefused(today: Date)
    ensures var e := Event(today, MergeSubmit, true);
            var t := Run(Absent, [e, e, e, e, e, e]);
            t.responses == [Download(MergedPdf), Download(MergedPdf), Download(MergedPdf),
                            Download(MergedPdf), Download(MergedPdf), LimitReached]
            && GetUsageCount(t.file, today) == Some(USAGE_LIMIT)
  {
    var e := Event(today, MergeSubmit, true);
    var d := Download(MergedPdf);
    var f5 := Written(map[today := 5]);
    assert Run(f5, [e]) == Trace([LimitReached], f5);
    var evs: seq<Event> := [e];
    var rs: seq<Response> := [LimitReached];
    var n := 4;
    while n >= 0
      invariant -1 <= n <= 4
      invariant |evs| == 5 - n && |rs| == |evs|
      invariant forall i :: 0 <= i < |evs| ==> evs[i] == e
      invariant forall i :: 0 <= i < |rs| - 1 ==> rs[i] == d
      invariant rs[|rs| - 1] == LimitReached
      invariant Run(if n == -1 then Absent else Written(map[today := n + 1]), evs) == Trace(rs, f5)
      decreases n
    {
      var g := if n == 0 then Absent else Written(map[today := n]);
      if n == 0 {
        assert Increment(map[], today) == map[today := 1];
        assert Handle(g, today, MergeSubmit, true) == Step(d, Written(map[today := 1]));
      } else {
        MergeOnDay(today, n);
      }
      assert ([e] + evs)[1..] == evs;
      evs := [e] + evs;
      rs := [d] + rs;
      n := n - 1;
    }
    assert evs == [e, e, e, e, e, e];
    assert rs == [d, d, d, d, d, LimitReached];
  }

  /** A reset before the day's first action reports success but creates no
      entry and writes no file; the day's count is 0 before and after. */
  lemma ResetOnFreshDayWritesNothing(today: Date)
    ensures var t := Run(Absent, [Event(today, ResetRequest(Some(ADMIN_KEY)), false)]);
            t == Trace([ResetDone], Absent) && GetUsageCount(t.file, today) == Some(0)
  {
  }
}
