/** How far apart the timeline's requests are: which of them keep the minimum interval after the last answer
    and after every earlier request, and which do not. */
module TimelinePace {
  import opened Option
  import opened TimelineProtocol
  import opened TimelineLaws

  /** What made the provider issue a request. */
  datatype Cause =
    | Throttle              // the throttle timer
    | NewestBackoff         // the newest back-off timer, with no request and no throttle timer pending
    | OlderBackoff          // an older one, with no request and no throttle timer pending
    | BackoffBesideTimer    // a back-off timer while the throttle timer is pending
    | BackoffBesideFlight   // a back-off timer while a request is pending
    | StaleCursor           // a 410
    | Call                  // a public call

  /** The cause of the request that an event issues, if it issues one. */
  function CauseOf(s: State, e: Event): Option<Cause>
    requires Enabled(s, e)
  {
    match e
    case Settles(serial, outcome) => if serial == s.fetchSerial && outcome.Gone? then Some(StaleCursor) else None
    case ThrottleElapses => if s.Polling() then Some(Throttle) else None
    case BackoffElapses(i) =>
      if !s.Polling() then None
      else if s.fetchSerial in s.flights && !s.flights[s.fetchSerial].aborted then Some(BackoffBesideFlight)
      else if s.timer.Some? then Some(BackoffBesideTimer)
      else if i < |s.backoffs| - 1 then Some(OlderBackoff)
      else Some(NewestBackoff)
    case _ => if e.IsCall() && !e.CallStop? then Some(Call) else None
  }

  /** What any issued request leaves behind. */
  ghost predicate JustIssued(s: State, t: State) {
    && t.fetchSerial == s.fetchSerial + 1
    && InFlight(t) && t.timer.None?
    && t.now == s.now && t.lastFetchAt == s.lastFetchAt
  }

  lemma FetchIssues()
    ensures forall s :: JustIssued(s, FetchOnce(s))
  {
  }

  lemma CauseExact(s: State, e: Event)
    requires Enabled(s, e)
    ensures CauseOf(s, e).Some? ==> JustIssued(s, Step(s, e))
    ensures CauseOf(s, e).None? ==> Step(s, e).fetchSerial == s.fetchSerial
  {
    FetchIssues();
    hide FetchOnce, InFlight;
  }

  /** Everything that was pending for the next request at time `since` or came up later keeps its distance. */
  ghost predicate PacedSince(s: State, since: int) {
    && since <= s.now
    && (s.timer.Some? ==> since + MIN_LIVE_FETCH_INTERVAL_MS <= s.timer.value)
    && (s.Polling() && !InFlight(s) && s.timer.None? ==>
          s.backoffs != [] && since + BACKOFF_MS <= s.backoffs[|s.backoffs| - 1])
  }

  lemma PacedStep(s: State, e: Event, since: int)
    requires Inv(s) && PacedSince(s, since) && Enabled(s, e)
    ensures PacedSince(Step(s, e), since)
    ensures Step(s, e).lastFetchAt == s.lastFetchAt || PacedSince(Step(s, e), Step(s, e).lastFetchAt)
  {
    hide LogOk;
    if CauseOf(s, e).Some? {
      hide Step;
      CauseExact(s, e);
    } else {
      QuietEventPaces(s, e, since);
    }
  }

  lemma QuietEventPaces(s: State, e: Event, since: int)
    requires Inv(s) && PacedSince(s, since) && Enabled(s, e) && CauseOf(s, e).None?
    ensures PacedSince(Step(s, e), since)
    ensures Step(s, e).lastFetchAt == s.lastFetchAt || PacedSince(Step(s, e), Step(s, e).lastFetchAt)
  {
    hide LogOk, FetchOnce;
  }

  lemma IssuePaces(s: State, e: Event)
    requires Enabled(s, e) && CauseOf(s, e).Some?
    ensures PacedSince(Step(s, e), s.now)
  {
    hide Step;
    CauseExact(s, e);
  }

  /** Between two states of a run nothing comes closer. */
  lemma {:induction false} RunPaced(run: seq<State>, events: seq<Event>, i: nat, j: nat, since: int)
    requires IsRun(run, events) && Reachable(run[0]) && i <= j < |run| && PacedSince(run[i], since)
    ensures PacedSince(run[j], since)
    decreases j
  {
    hide Step, Enabled, Inv, Reachable, PacedSince;
    if i < j {
      RunPaced(run, events, i, j - 1, since);
      ReachableRun(run, events, j - 1);
      ReachableOk(run[j - 1]);
      PacedStep(run[j - 1], events[j - 1], since);
    }
  }

  lemma {:induction false} RunAnswersPaced(run: seq<State>, events: seq<Event>, i: nat)
    requires IsRun(run, events) && Reachable(run[0]) && PacedSince(run[0], run[0].lastFetchAt) && i < |run|
    ensures PacedSince(run[i], run[i].lastFetchAt)
  {
    hide Step, Enabled, Inv, Reachable, PacedSince;
    if i > 0 {
      RunAnswersPaced(run, events, i - 1);
      ReachableRun(run, events, i - 1);
      ReachableOk(run[i - 1]);
      PacedStep(run[i - 1], events[i - 1], run[i - 1].lastFetchAt);
    }
  }

  lemma ReachablePaced(s: State)
    requires Reachable(s)
    ensures PacedSince(s, s.lastFetchAt)
  {
    hide Step, Enabled;
    var run, events, canAbort, now: nat :| IsRun(run, events) && run[0] == Initial(canAbort, now) && run[|events|] == s;
    InitialReachable(canAbort, now);
    RunAnswersPaced(run, events, |events|);
  }

  predicate IsPunctual(c: Cause) {
    c.Throttle? || c.NewestBackoff?
  }

  lemma PunctualSince(s: State, e: Event, since: int)
    requires PacedSince(s, since) && Enabled(s, e) && CauseOf(s, e).Some? && IsPunctual(CauseOf(s, e).value)
    ensures since + 750 <= s.now
  {
  }

  /** A request that the throttle timer issues, or the newest back-off timer when nothing else is pending, goes
      out no sooner than the full interval after the last answer. */
  lemma IntervalAfterAnswer(s: State, e: Event)
    requires Reachable(s) && Enabled(s, e) && CauseOf(s, e).Some? && IsPunctual(CauseOf(s, e).value)
    ensures s.lastFetchAt + 750 <= s.now
  {
    hide Reachable, CauseOf, IsPunctual, Enabled, PacedSince;
    ReachablePaced(s);
    PunctualSince(s, e, s.lastFetchAt);
  }

  /** And no sooner than the full interval after any earlier request of the run, whatever issued that one; so
      two requests of the throttle timer are never closer than the interval. */
  lemma IntervalAfterRequests(run: seq<State>, events: seq<Event>, i: nat, j: nat)
    requires IsRun(run, events) && Reachable(run[0]) && i < j < |events|
    requires Enabled(run[i], events[i]) && CauseOf(run[i], events[i]).Some?
    requires Enabled(run[j], events[j]) && CauseOf(run[j], events[j]).Some?
    requires IsPunctual(CauseOf(run[j], events[j]).value)
    ensures run[i].now + 750 <= run[j].now
  {
    hide Step, Enabled, Reachable, PacedSince, CauseOf, IsPunctual;
    IssuePaces(run[i], events[i]);
    RunPaced(run, events, i + 1, j, run[i].now);
    PunctualSince(run[j], events[j], run[i].now);
  }

  // The other causes

  /** An answer has been applied, and the interval after the last one is not over. */
  ghost predicate TooSoon(s: State) {
    LastApplied(s.log) > 0 && s.now < s.lastFetchAt + 750
  }

  /** No request of this cause ever comes too soon after an answer. */
  ghost predicate KeepsInterval(c: Cause) {
    forall s, e :: Reachable(s) && Enabled(s, e) && CauseOf(s, e) == Some(c) ==> !TooSoon(s)
  }

  /** One request has just been answered while the back-off timer of another is due in 100 ms. */
  ghost predicate AnsweredBeforeBackoff(s: State) {
    && Reachable(s) && s.Polling() && s.timer.Some? && s.fetchSerial !in s.flights
    && s.backoffs == [BACKOFF_MS] && s.now == s.lastFetchAt == BACKOFF_MS - 100
    && LastApplied(s.log) > 0
  }

  lemma Reached(s: State, e: Event) returns (t: State)
    requires Reachable(s) && Enabled(s, e)
    ensures t == Step(s, e) && Reachable(t)
  {
    t := Step(s, e);
    ReachableStep(s, e);
  }

  lemma FirstFails() returns (s: State)
    ensures Reachable(s) && s.Polling() && s.flights == map[] && s.timer.None? && s.controller == Some(1)
    ensures s.canAbort && s.fetchSerial == 1 && s.backoffs == [BACKOFF_MS] && s.now == BACKOFF_MS - 100
  {
    hide Reachable;
    s := Initial(true, 0);
    InitialReachable(true, 0);
    s := Reached(s, CallStartLive);
    s := Reached(s, Settles(1, Failed));
    s := Reached(s, ClockTicks(BACKOFF_MS - 100));
  }

  lemma SecondIsAnswered() returns (s: State)
    ensures AnsweredBeforeBackoff(s)
  {
    hide Reachable;
    s := FirstFails();
    s := Reached(s, CallRefresh);
    s := Reached(s, Settles(2, Answered(Some(Body("", "", "", 0)))));
  }

  /** A third request meanwhile. */
  lemma ThirdIsAsked(s: State) returns (t: State)
    requires AnsweredBeforeBackoff(s)
    ensures Reachable(t) && t.Polling() && InFlight(t) && LastApplied(t.log) > 0
    ensures t.backoffs == s.backoffs && t.now == t.lastFetchAt == s.now
  {
    hide Reachable;
    t := Reached(s, CallRefresh);
    assert t.log[..|t.log| - 1] == s.log;
  }

  /** And 100 ms later. */
  lemma BackoffIsDue(s: State) returns (t: State)
    requires Reachable(s) && s.now == BACKOFF_MS - 100
    ensures Reachable(t) && t == s.(now := BACKOFF_MS)
  {
    hide Reachable;
    t := Reached(s, ClockTicks(BACKOFF_MS));
  }

  lemma ThirdFails(s: State) returns (t: State)
    requires Reachable(s) && s.Polling() && InFlight(s)
    ensures Reachable(t) && t == s.(flights := s.flights - {s.fetchSerial}, status := Error,
                                    backoffs := s.backoffs + [s.now + BACKOFF_MS])
  {
    hide Reachable;
    t := Reached(s, Settles(s.fetchSerial, Failed));
  }

  /** A state and an event for each cause that does not keep the interval. */
  lemma TooSoonExample(c: Cause) returns (s: State, e: Event)
    requires !IsPunctual(c)
    ensures Reachable(s) && Enabled(s, e) && CauseOf(s, e) == Some(c) && TooSoon(s)
  {
    hide Reachable;
    s := SecondIsAnswered();
    if c.Call? {
      e := CallRefresh;
    } else if c.BackoffBesideTimer? {
      s := BackoffIsDue(s);
      e := BackoffElapses(0);
    } else {
      s := ThirdIsAsked(s);
      if c.StaleCursor? {
        e := Settles(s.fetchSerial, Gone);
      } else if c.BackoffBesideFlight? {
        s := BackoffIsDue(s);
        e := BackoffElapses(0);
      } else {
        ThirdHasNoTimer(s);
        s := ThirdFails(s);
        s := BackoffIsDue(s);
        e := BackoffElapses(0);
      }
    }
  }

  lemma ThirdHasNoTimer(s: State)
    requires Reachable(s) && InFlight(s)
    ensures s.timer.None?
  {
    ReachableOk(s);
  }

  /** The interval is kept by exactly two causes: the throttle timer, and the newest back-off timer with
      nothing else pending. A 410, a leftover back-off timer and a call can each ask again too soon. */
  lemma IntervalExact(c: Cause)
    ensures KeepsInterval(c) <==> IsPunctual(c)
  {
    hide Reachable, CauseOf, Enabled;
    if IsPunctual(c) {
      forall s, e | Reachable(s) && Enabled(s, e) && CauseOf(s, e) == Some(c) ensures !TooSoon(s) {
        IntervalAfterAnswer(s, e);
      }
    } else {
      var s, e := TooSoonExample(c);
    }
  }
}
