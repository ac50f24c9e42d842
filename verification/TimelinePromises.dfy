/** What a caller of the timeline provider can rely on after each call and each event, in terms of what is asked,
    what is pending and what is shown. */
module TimelinePromises {
  import opened Option
  import opened TimelineProtocol
  import opened TimelineLaws

  /** One request was added that supersedes any other: it has the next serial, asks for exactly this, and when
      the browser can abort nothing else can be answered any more. No throttle timer is left. */
  ghost predicate Asks(s: State, t: State, request: Request) {
    && t.canAbort == s.canAbort
    && t.fetchSerial == s.fetchSerial + 1
    && t.flights.Keys == s.flights.Keys + {t.fetchSerial}
    && t.flights[t.fetchSerial] == Flight(request, false)
    && (forall n :: n in s.flights ==> t.flights[n].request == s.flights[n].request)
    && (t.canAbort ==> forall n :: n in s.flights ==> t.flights[n].aborted)
    && t.timer.None? && t.backoffs == s.backoffs
    && t.log != [] && t.log[|t.log| - 1] == Issued(t.fetchSerial, request, s.now)
    && s.log <= t.log
    && t.content == s.content && t.lastFetchAt == s.lastFetchAt && t.status == Loading && t.now == s.now
  }

  /** A request for what the window says, long-polling from the cursor. */
  function LiveRequest(window: Window, cursor: string): Request {
    Request(window.fromIso, window.toIso, if window.bucket != "" then window.bucket else "auto", 15000, cursor)
  }

  /** A request for what the window says, answered at once and from the start. */
  function FixedRequest(window: Window): Request {
    Request(window.fromIso, window.toIso, if window.bucket != "" then window.bucket else "auto", 0, "")
  }

  /** The parts of the invariant that hold between the statements of a call, too. */
  ghost predicate Consistent(s: State) {
    FlightsOk(s) && LogOk(s)
  }

  lemma ReachableIsConsistent(s: State)
    requires Reachable(s)
    ensures Consistent(s)
  {
    hide Reachable;
    ReachableOk(s);
  }

  lemma AbortSilences(s: State)
    requires Consistent(s)
    ensures var t := AbortInFlight(s);
            && Consistent(t) && t.timer.None? && t.flights.Keys == s.flights.Keys
            && (s.canAbort ==> forall n :: n in t.flights ==> t.flights[n].aborted)
            && (!s.canAbort ==> t.flights == s.flights)
  {
    AbortKeeps(s);
  }

  lemma FetchAsks(s: State)
    requires FlightsOk(s)
    ensures Asks(s, FetchOnce(s), RequestOf(s))
  {
  }

  /** Changes before the request that leave the other requests and what is shown alone do not matter. */
  lemma AsksFrom(s: State, m: State, t: State, request: Request)
    requires Asks(m, t, request)
    requires m.canAbort == s.canAbort && m.fetchSerial == s.fetchSerial && m.flights.Keys == s.flights.Keys
    requires forall n :: n in s.flights ==> m.flights[n].request == s.flights[n].request
    requires s.log <= m.log
    requires m.backoffs == s.backoffs && m.now == s.now && m.content == s.content && m.lastFetchAt == s.lastFetchAt
    ensures Asks(s, t, request)
  {
  }

  lemma StartLiveAsks(s: State)
    requires FlightsOk(s)
    ensures Asks(s, StartLive(s), LiveRequest(s.window, s.cursor))
  {
    var m := s.(mode := Live, loopActive := true);
    FetchAsks(m);
    hide Asks, FetchOnce;
    AsksFrom(s, m, StartLive(s), RequestOf(m));
  }

  lemma PauseAsks(s: State, from: string, to: string)
    requires FlightsOk(s)
    ensures var t := PauseToReplay(s, from, to); Asks(s, t, FixedRequest(t.window))
  {
    var m := AbortInFlight(s.(mode := Replay, loopActive := false));
    var n := SetWindow(m, Or(from, m.window.fromIso), Or(to, m.window.toIso));
    FetchAsks(n);
    WindowSurvives(n);
    hide Asks, FetchOnce, FlightsOk;
    AsksFrom(s, n, PauseToReplay(s, from, to), RequestOf(n));
  }

  lemma ResumeAsks(s: State)
    requires FlightsOk(s)
    ensures var t := ResumeLive(s); Asks(s, t, LiveRequest(t.window, t.cursor))
  {
    var m := SetWindow(AbortInFlight(s), DEFAULT_LIVE_FROM, DEFAULT_LIVE_TO);
    StartLiveAsks(m);
    WindowSurvives(m.(mode := Live, loopActive := true));
    hide Asks, FetchOnce, FlightsOk;
    AsksFrom(s, m, StartLive(m), LiveRequest(m.window, m.cursor));
  }

  lemma SetBucketAsks(s: State, bucket: string)
    requires FlightsOk(s)
    ensures var t := SetBucket(s, bucket);
            Asks(s, t, if t.mode == Live then LiveRequest(t.window, t.cursor) else FixedRequest(t.window))
  {
    var m := ChooseBucket(s, Or(bucket, "auto"));
    FetchAsks(m);
    WindowSurvives(m);
    hide Asks, FetchOnce, FlightsOk;
    AsksFrom(s, m, FetchOnce(m), RequestOf(m));
  }

  lemma WindowSurvives(s: State)
    ensures var t := FetchOnce(s); t.window == s.window && t.mode == s.mode && t.cursor == s.cursor
  {
  }

  lemma FetchStaysConsistent(s: State)
    requires Consistent(s)
    ensures Consistent(FetchOnce(s)) && Asks(s, FetchOnce(s), RequestOf(s))
  {
    FetchAsks(s);
    hide Asks;
    AbortKeeps(s);
    var t, u := AbortInFlight(s), FetchOnce(s);
    assert u.log[..|t.log|] == t.log;
    LogAppend(t.log, Issued(t.fetchSerial + 1, RequestOf(t), t.now));
  }

  /** The request of a state asks for the bounds, and in live mode the cursor, that the log leaves. */
  lemma RequestFollowsLog(s: State)
    requires Consistent(s)
    ensures var r := RequestOf(s);
            && (r.fromIso, r.toIso) == BoundsOf(s.log)
            && r.bucket == (if BucketOf(s.log) != "" then BucketOf(s.log) else "auto")
            && (if s.mode == Live then r.waitMs == 15000 && r.cursor == CursorOf(s.log)
                else r.waitMs == 0 && r.cursor == "")
  {
  }

  /** How the end of a request shows: one that was aborted or superseded leaves no trace, a 410 asks again
      without a cursor, an answer is shown and in live mode followed up exactly one interval later, and a failure
      keeps what is shown and in live mode is followed up by a back-off timer. */
  ghost predicate EndsAs(s: State, t: State, serial: nat, outcome: Outcome) {
    var left := s.(flights := s.flights - {serial});
    if outcome.AbortError? || serial != s.fetchSerial then t == left
    else
      match outcome
      case Gone =>
        && t.cursor == "" && t.window == s.window && t.mode == s.mode && t.loopActive == s.loopActive
        && Asks(left, t, if s.mode == Live then LiveRequest(s.window, "") else FixedRequest(s.window))
      case Answered(Some(b)) =>
        t == left.(content := b.content, cursor := b.cursor, status := Ready, lastFetchAt := s.now,
                   window := Window(if b.fromIso != "" then b.fromIso else s.window.fromIso,
                                    if b.toIso != "" then b.toIso else s.window.toIso, s.window.bucket),
                   log := s.log + [Applied(serial, b, s.now)],
                   timer := if s.Polling() then Some(s.now + 750) else None)
      case _ =>
        t == left.(status := Error, timer := None, lastFetchAt := if outcome.Answered? then s.now else s.lastFetchAt,
                   backoffs := s.backoffs + (if s.Polling() then [s.now + 5000] else []))
  }

  lemma SettleEnds(s: State, serial: nat, outcome: Outcome)
    requires Inv(s) && Enabled(s, Settles(serial, outcome))
    ensures EndsAs(s, Settle(s, serial, outcome), serial, outcome)
    ensures serial == s.fetchSerial && !outcome.Gone? && !s.Polling() ==> Quiet(Settle(s, serial, outcome))
  {
    var t := s.(flights := s.flights - {serial});
    if serial == s.fetchSerial && outcome.Gone? {
      LandKeeps(s, serial);
      hide LogOk;
      var u := t.(cursor := "", log := t.log + [WentStale(serial)]);
      FetchAsks(u);
    } else {
      hide LogOk, FetchOnce;
    }
  }

  lemma StopQuietens(s: State)
    requires Reachable(s)
    ensures Quiet(Stop(s)) <==> s.canAbort || s.fetchSerial !in s.flights
  {
    hide Reachable;
    ReachableOk(s);
    hide LogOk;
  }

  /** What the continuation of a request finds when its answer is still wanted. */
  lemma SettleReady(s: State, serial: nat, outcome: Outcome)
    requires Inv(s) && Enabled(s, Settles(serial, outcome))
    ensures Consistent(s.(flights := s.flights - {serial}))
    ensures serial == s.fetchSerial ==> LastApplied(s.log) < serial
  {
    LandKeeps(s, serial);
  }

  lemma AnswerKeepsLog(s: State, serial: nat, b: Body)
    requires Consistent(s) && serial == s.fetchSerial && serial !in s.flights && LastApplied(s.log) < serial
    ensures var t := Reconcile(s, serial, b);
            && Consistent(t) && LastApplied(t.log) == serial
            && BoundsOf(t.log) == (t.window.fromIso, t.window.toIso) && BucketOf(t.log) == t.window.bucket
            && CursorOf(t.log) == t.cursor && ContentOf(t.log) == t.content
  {
    ReconcileKeeps(s, serial, b);
  }

  lemma GoneKeepsLog(s: State, serial: nat)
    requires Consistent(s)
    ensures Consistent(s.(cursor := "", log := s.log + [WentStale(serial)]))
  {
    var e := WentStale(serial);
    var t := s.(cursor := "", log := s.log + [e]);
    assert t.log[..|s.log|] == s.log;
    LogAppend(s.log, e);
  }
}
