/** What holds in every state the timeline protocol can reach, under any interleaving of calls, answers
    and timers. */
module TimelineLaws {
  import opened Option
  import opened TimelineProtocol

  // The invariant, in independent parts

  /** The request whose answer would still be acted on. */
  ghost predicate InFlight(s: State) {
    s.fetchSerial in s.flights && !s.flights[s.fetchSerial].aborted
  }

  ghost predicate FlightsOk(s: State) {
    && (forall n :: n in s.flights ==> 1 <= n <= s.fetchSerial)
    && (s.controller.Some? ==> s.canAbort && s.controller.value == s.fetchSerial)
    && (s.canAbort ==> forall n :: n in s.flights && !s.flights[n].aborted ==> s.controller == Some(n))
    && (!s.canAbort ==> forall n :: n in s.flights ==> !s.flights[n].aborted)
  }

  /** A throttle timer is pending only while polling and never beside a request still to be answered. */
  ghost predicate TimerOk(s: State) {
    s.timer.Some? ==>
      && s.Polling()
      && s.fetchSerial !in s.flights
      && s.timer.value == s.lastFetchAt + 750
  }

  ghost predicate Alive(s: State) {
    s.Polling() ==> InFlight(s) || s.timer.Some? || s.backoffs != []
  }

  ghost predicate ModeOk(s: State) {
    s.mode == Live <==> s.loopActive
  }

  function IssuedCount(log: seq<Entry>): nat {
    if log == [] then 0 else IssuedCount(log[..|log| - 1]) + if log[|log| - 1].Issued? then 1 else 0
  }

  /** The serial of the last applied answer, 0 before any. */
  function LastApplied(log: seq<Entry>): nat {
    if log == [] then 0
    else if log[|log| - 1].Applied? then log[|log| - 1].serial
    else LastApplied(log[..|log| - 1])
  }

  /** The cursor the answers so far leave behind. */
  function CursorOf(log: seq<Entry>): string {
    if log == [] then ""
    else
      match log[|log| - 1]
      case Applied(_, body, _) => body.cursor
      case WentStale(_) => ""
      case _ => CursorOf(log[..|log| - 1])
  }

  /** What the last applied answer showed. */
  function ContentOf(log: seq<Entry>): int {
    if log == [] then 0
    else if log[|log| - 1].Applied? then log[|log| - 1].body.content
    else ContentOf(log[..|log| - 1])
  }

  /** The lower and upper bound of the window: set by a call, replaced by any answer that resolves it. */
  function BoundsOf(log: seq<Entry>): (string, string) {
    if log == [] then ("", "")
    else
      var before := BoundsOf(log[..|log| - 1]);
      match log[|log| - 1]
      case WindowSet(from, to) => (from, to)
      case Applied(_, body, _) => (Or(body.fromIso, before.0), Or(body.toIso, before.1))
      case _ => before
  }

  /** The bucket that was chosen last. */
  function BucketOf(log: seq<Entry>): string {
    if log == [] then ""
    else if log[|log| - 1].BucketSet? then log[|log| - 1].bucket
    else BucketOf(log[..|log| - 1])
  }

  /** Every entry agrees with the entries before it: requests are numbered in turn and ask for what the
      answers so far left behind, and an answer is applied only for a newer request than the last one. */
  ghost predicate EntryOk(log: seq<Entry>, i: nat)
    requires i < |log|
  {
    var before := log[..i];
    match log[i]
    case Issued(serial, request, _) =>
      && serial == IssuedCount(before) + 1
      && (request.fromIso, request.toIso) == BoundsOf(before)
      && request.bucket == (if BucketOf(before) != "" then BucketOf(before) else "auto")
      && request.cursor == if request.waitMs == 0 then "" else CursorOf(before)
    case Applied(serial, _, _) => LastApplied(before) < serial <= IssuedCount(before)
    case _ => true
  }

  ghost predicate LogOk(s: State) {
    && (forall i :: 0 <= i < |s.log| ==> EntryOk(s.log, i))
    && IssuedCount(s.log) == s.fetchSerial
    && LastApplied(s.log) <= s.fetchSerial
    && (s.fetchSerial in s.flights ==> LastApplied(s.log) < s.fetchSerial)
    && CursorOf(s.log) == s.cursor
    && ContentOf(s.log) == s.content
    && BoundsOf(s.log) == (s.window.fromIso, s.window.toIso)
    && BucketOf(s.log) == s.window.bucket
  }

  ghost predicate Inv(s: State) {
    FlightsOk(s) && TimerOk(s) && Alive(s) && ModeOk(s) && LogOk(s)
  }

  // Each kind of change keeps it

  lemma LogAppend(log: seq<Entry>, e: Entry)
    requires forall i :: 0 <= i < |log| ==> EntryOk(log, i)
    requires EntryOk(log + [e], |log|)
    ensures forall i :: 0 <= i < |log + [e]| ==> EntryOk(log + [e], i)
  {
    forall i | 0 <= i < |log| ensures EntryOk(log + [e], i) {
      assert (log + [e])[..i] == log[..i] && EntryOk(log, i);
    }
  }

  lemma AbortKeeps(s: State)
    requires FlightsOk(s) && LogOk(s)
    ensures var t := AbortInFlight(s);
            && FlightsOk(t) && LogOk(t) && t.timer.None? && (t.canAbort ==> forall n :: n in t.flights ==> t.flights[n].aborted)
  {
  }

  lemma FetchKeeps(s: State)
    requires FlightsOk(s) && LogOk(s) && ModeOk(s)
    ensures Inv(FetchOnce(s)) && InFlight(FetchOnce(s))
  {
    AbortKeeps(s);
    var t, u := AbortInFlight(s), FetchOnce(s);
    var e := Issued(t.fetchSerial + 1, RequestOf(t), t.now);
    assert u.log == t.log + [e] && u.log[..|t.log|] == t.log;
    LogAppend(t.log, e);
  }

  lemma SetWindowKeeps(s: State, from: string, to: string)
    requires FlightsOk(s) && LogOk(s)
    ensures FlightsOk(SetWindow(s, from, to)) && LogOk(SetWindow(s, from, to))
  {
    var e, t := WindowSet(from, to), SetWindow(s, from, to);
    assert t.log[..|s.log|] == s.log;
    LogAppend(s.log, e);
  }

  lemma ChooseBucketKeeps(s: State, bucket: string)
    requires FlightsOk(s) && LogOk(s)
    ensures FlightsOk(ChooseBucket(s, bucket)) && LogOk(ChooseBucket(s, bucket))
  {
    var e, t := BucketSet(bucket), ChooseBucket(s, bucket);
    assert t.log[..|s.log|] == s.log;
    LogAppend(s.log, e);
  }

  lemma CallKeeps(s: State, e: Event)
    requires Inv(s) && Enabled(s, e) && e.IsCall()
    ensures Inv(Step(s, e))
  {
    hide FlightsOk, LogOk;
    match e {
      case CallStartLive =>
        Reframe(s, s.(mode := Live, loopActive := true));
        FetchKeeps(s.(mode := Live, loopActive := true));
      case CallPauseToReplay(from, to) =>
        var t := s.(mode := Replay, loopActive := false);
        Reframe(s, t);
        AbortKeeps(t);
        var u := AbortInFlight(t);
        SetWindowKeeps(u, Or(from, u.window.fromIso), Or(to, u.window.toIso));
        FetchKeeps(SetWindow(u, Or(from, u.window.fromIso), Or(to, u.window.toIso)));
      case CallResumeLive =>
        AbortKeeps(s);
        var t := AbortInFlight(s);
        SetWindowKeeps(t, DEFAULT_LIVE_FROM, DEFAULT_LIVE_TO);
        var u := SetWindow(t, DEFAULT_LIVE_FROM, DEFAULT_LIVE_TO);
        Reframe(u, u.(mode := Live, loopActive := true));
        FetchKeeps(u.(mode := Live, loopActive := true));
      case CallRefresh =>
        FetchKeeps(s);
      case CallStop =>
        Reframe(s, s.(mode := Idle, loopActive := false));
        AbortKeeps(s.(mode := Idle, loopActive := false));
      case CallSetBucket(bucket) =>
        ChooseBucketKeeps(s, Or(bucket, "auto"));
        FetchKeeps(ChooseBucket(s, Or(bucket, "auto")));
    }
  }

  /** Fields that neither part mentions may change freely. */
  lemma Reframe(s: State, t: State)
    requires FlightsOk(s) && LogOk(s)
    requires t.canAbort == s.canAbort && t.flights == s.flights && t.controller == s.controller
    requires t.fetchSerial == s.fetchSerial && t.log == s.log && t.cursor == s.cursor && t.content == s.content
    requires t.window == s.window
    ensures FlightsOk(t) && LogOk(t)
  {
  }

  lemma LandKeeps(s: State, serial: nat)
    requires FlightsOk(s) && LogOk(s) && serial in s.flights
    ensures FlightsOk(s.(flights := s.flights - {serial})) && LogOk(s.(flights := s.flights - {serial}))
  {
  }

  lemma ReconcileKeeps(s: State, serial: nat, b: Body)
    requires FlightsOk(s) && LogOk(s) && serial == s.fetchSerial && serial !in s.flights
    requires LastApplied(s.log) < serial
    ensures FlightsOk(Reconcile(s, serial, b)) && LogOk(Reconcile(s, serial, b))
  {
    var e, t := Applied(serial, b, s.now), Reconcile(s, serial, b);
    hide Or;
    assert t.log[..|s.log|] == s.log;
    LogAppend(s.log, e);
  }

  lemma StaleKeeps(s: State, serial: nat)
    requires FlightsOk(s) && LogOk(s) && ModeOk(s)
    ensures Inv(HandleStaleCursor(s, serial)) && InFlight(HandleStaleCursor(s, serial))
  {
    var e := WentStale(serial);
    var t := s.(cursor := "", log := s.log + [e]);
    assert t.log[..|s.log|] == s.log;
    LogAppend(s.log, e);
    assert FlightsOk(t) && LogOk(t);
    hide FlightsOk, LogOk;
    FetchKeeps(t);
  }

  lemma SettleKeeps(s: State, serial: nat, outcome: Outcome)
    requires Inv(s) && Enabled(s, Settles(serial, outcome))
    ensures Inv(Settle(s, serial, outcome))
  {
    var t := s.(flights := s.flights - {serial});
    LandKeeps(s, serial);
    if outcome.AbortError? || serial != s.fetchSerial {
      assert InFlight(s) ==> InFlight(t);
    } else {
      assert t.timer.None? && LastApplied(t.log) < serial;
      hide FlightsOk, LogOk;
      match outcome {
        case Gone => StaleKeeps(t, serial);
        case Failed => Reframe(t, HandleFailure(t));
        case Answered(None) => Reframe(t, HandleFailure(t.(lastFetchAt := t.now)));
        case Answered(Some(b)) =>
          ReconcileKeeps(t, serial, b);
          var u := Reconcile(t, serial, b);
          Reframe(u, ScheduleNextLiveFetch(u));
      }
    }
  }

  lemma ThrottleKeeps(s: State)
    requires Inv(s)
    ensures Inv(ThrottleFires(s))
  {
    hide FlightsOk, LogOk, FetchOnce;
    Reframe(s, s.(timer := None));
    FetchKeeps(s.(timer := None));
  }

  lemma BackoffKeeps(s: State, i: nat)
    requires Inv(s) && i < |s.backoffs|
    ensures Inv(BackoffFires(s, i))
  {
    hide FlightsOk, LogOk, FetchOnce;
    var t := s.(backoffs := s.backoffs[..i] + s.backoffs[i + 1..]);
    Reframe(s, t);
    FetchKeeps(t);
  }

  lemma ViewKeeps(s: State, window: Window)
    requires Inv(s)
    ensures Inv(ReplaceWindow(s, window))
  {
    hide FlightsOk, LogOk;
    ChooseBucketKeeps(s, window.bucket);
    SetWindowKeeps(ChooseBucket(s, window.bucket), window.fromIso, window.toIso);
  }

  lemma ClockKeeps(s: State, now: int)
    requires Inv(s)
    ensures Inv(s.(now := now))
  {
    hide FlightsOk, LogOk;
    Reframe(s, s.(now := now));
  }

  lemma StepKeeps(s: State, e: Event)
    requires Inv(s) && Enabled(s, e)
    ensures Inv(Step(s, e))
  {
    hide Inv, FetchOnce, Settle, ReplaceWindow, ThrottleFires, BackoffFires;
    match e {
      case ViewSetsWindow(window) => ViewKeeps(s, window);
      case Settles(serial, outcome) => SettleKeeps(s, serial, outcome);
      case ThrottleElapses => ThrottleKeeps(s);
      case BackoffElapses(i) => BackoffKeeps(s, i);
      case ClockTicks(now) => ClockKeeps(s, now);
      case _ => CallKeeps(s, e);
    }
  }

  lemma InitialOk(canAbort: bool, now: nat)
    ensures Inv(Initial(canAbort, now))
  {
    var s := Initial(canAbort, now);
    var blank := s.(window := Window("", "", ""), log := []);
    ChooseBucketKeeps(blank, "auto");
    SetWindowKeeps(ChooseBucket(blank, "auto"), DEFAULT_LIVE_FROM, DEFAULT_LIVE_TO);
    hide LogOk;
    assert s == ReplaceWindow(blank, s.window);
  }

  lemma {:induction false} RunKeeps(run: seq<State>, events: seq<Event>, i: nat)
    requires IsRun(run, events) && Inv(run[0]) && i < |run|
    ensures Inv(run[i])
  {
    if i > 0 {
      RunKeeps(run, events, i - 1);
      hide Inv, Step, Enabled;
      StepKeeps(run[i - 1], events[i - 1]);
    }
  }

  lemma ReachableOk(s: State)
    requires Reachable(s)
    ensures Inv(s)
  {
    hide Inv;
    var run, events, canAbort, now: nat :| IsRun(run, events) && run[0] == Initial(canAbort, now) && run[|events|] == s;
    InitialOk(canAbort, now);
    RunKeeps(run, events, |events|);
  }

  lemma InitialReachable(canAbort: bool, now: nat)
    ensures Reachable(Initial(canAbort, now))
  {
    hide Initial;
    var s := Initial(canAbort, now);
    assert IsRun([s], []) && [s][0] == s;
  }

  lemma RunThen(run: seq<State>, events: seq<Event>, e: Event)
    requires IsRun(run, events) && Enabled(run[|events|], e)
    ensures IsRun(run + [Step(run[|events|], e)], events + [e])
  {
    hide Step, Enabled;
  }

  lemma ReachableStep(s: State, e: Event)
    requires Reachable(s) && Enabled(s, e)
    ensures Reachable(Step(s, e))
  {
    hide Step, Enabled, Initial;
    var run, events, canAbort, now: nat :| IsRun(run, events) && run[0] == Initial(canAbort, now) && run[|events|] == s;
    RunThen(run, events, e);
    hide IsRun;
    var longer, more := run + [Step(s, e)], events + [e];
    assert longer[0] == run[0] && longer[|more|] == Step(s, e);
  }

  lemma {:induction false} ReachableRun(run: seq<State>, events: seq<Event>, i: nat)
    requires IsRun(run, events) && Reachable(run[0]) && i < |run|
    ensures Reachable(run[i])
  {
    hide Step, Enabled, Reachable;
    if i > 0 {
      ReachableRun(run, events, i - 1);
      ReachableStep(run[i - 1], events[i - 1]);
    }
  }

  // Consequences for every reachable state

  /** At most one request can still be answered with anything but an abort: the newest one. */
  lemma OneEffectiveFlight(s: State, n: nat)
    requires Reachable(s) && s.canAbort && n in s.flights && !s.flights[n].aborted
    ensures n == s.fetchSerial == IssuedCount(s.log)
  {
    ReachableOk(s);
  }

  ghost predicate CallFree(events: seq<Event>) {
    forall i :: 0 <= i < |events| ==> !events[i].IsCall()
  }

  /** Live polling never dies: something that leads to the next request is always pending. */
  lemma PollingNeverDies(s: State)
    requires Reachable(s) && s.mode == Live
    ensures InFlight(s) || s.timer.Some? || s.backoffs != []
  {
    ReachableOk(s);
  }

  /** An answer, a null body or a failure leaves the provider polling, with nothing more to be answered. */
  lemma SettledWaits(s: State, o: Outcome)
    requires Inv(s) && s.mode == Live && InFlight(s) && !o.AbortError? && !o.Gone?
    ensures var t := Settle(s, s.fetchSerial, o);
            t.mode == Live && t.fetchSerial == s.fetchSerial && !InFlight(t)
  {
    hide LogOk;
  }

  lemma GoneProceeds(s: State)
    requires InFlight(s)
    ensures var t := Settle(s, s.fetchSerial, Gone); t.fetchSerial == s.fetchSerial + 1 && InFlight(t)
  {
  }

  lemma TimerProceeds(s: State, e: Event)
    requires s.Polling() && Enabled(s, e) && (e.ThrottleElapses? || e.BackoffElapses?)
    ensures Step(s, e).fetchSerial == s.fetchSerial + 1 && InFlight(Step(s, e))
  {
  }

  lemma RunOfOne(s: State, e: Event)
    requires Enabled(s, e)
    ensures IsRun([s, Step(s, e)], [e])
  {
    hide Step, Enabled;
  }

  lemma RunOfTwo(s: State, t: State, e: Event)
    requires t == s.(now := t.now) && s.now <= t.now && Enabled(t, e)
    ensures IsRun([s, t, Step(t, e)], [ClockTicks(t.now), e])
  {
    assert Enabled(s, ClockTicks(t.now)) && Step(s, ClockTicks(t.now)) == t;
    hide Step, Enabled;
  }

  /** And it really leads there, however the pending request ends: after an answer, a null body, a failure
      or a 410 two more events at most, none of them a call, issue the next request. */
  lemma PollingProceeds(s: State, o: Outcome) returns (run: seq<State>, events: seq<Event>)
    requires Reachable(s) && s.mode == Live && InFlight(s) && !o.AbortError?
    ensures IsRun(run, events) && run[0] == s && CallFree(events) && 1 <= |events| <= 3
    ensures events[0] == Settles(s.fetchSerial, o)
    ensures run[|events|].fetchSerial == s.fetchSerial + 1 && InFlight(run[|events|])
  {
    hide IsRun, Reachable, Settle, Inv;
    var e := Settles(s.fetchSerial, o);
    var t := Step(s, e);
    if o.Gone? {
      GoneProceeds(s);
      RunOfOne(s, e);
      run, events := [s, t], [e];
    } else {
      ReachableOk(s);
      ReachableStep(s, e);
      SettledWaits(s, o);
      var rest, more := WaitingProceeds(t);
      RunFrom(s, e, rest, more);
      run, events := [s] + rest, [e] + more;
    }
  }

  /** With no request to be answered, some timer is pending and issues the next one when its time comes. */
  lemma WaitingProceeds(s: State) returns (run: seq<State>, events: seq<Event>)
    requires Reachable(s) && s.mode == Live && !InFlight(s)
    ensures IsRun(run, events) && run[0] == s && CallFree(events) && |events| == 2
    ensures run[|events|].fetchSerial == s.fetchSerial + 1 && InFlight(run[|events|])
  {
    PollingNeverDies(s);
    assert s.Polling() by {
      ReachableOk(s);
    }
    hide IsRun, Reachable, Step;
    var t, e := NextTimer(s);
    TimerProceeds(t, e);
    RunOfTwo(s, t, e);
    run, events := [s, t, Step(t, e)], [ClockTicks(t.now), e];
  }

  lemma RunFrom(s: State, e: Event, run: seq<State>, events: seq<Event>)
    requires Enabled(s, e) && IsRun(run, events) && run[0] == Step(s, e)
    ensures IsRun([s] + run, [e] + events)
  {
    hide Step, Enabled;
    var longer, more := [s] + run, [e] + events;
    forall i | 0 <= i < |more| ensures Enabled(longer[i], more[i]) && longer[i + 1] == Step(longer[i], more[i]) {
      assert i > 0 ==> longer[i] == run[i - 1] && more[i] == events[i - 1];
    }
  }

  /** Some pending timer can be waited for. */
  lemma NextTimer(s: State) returns (t: State, e: Event)
    requires s.timer.Some? || s.backoffs != []
    ensures t == s.(now := t.now) && s.now <= t.now && Enabled(t, e) && (e.ThrottleElapses? || e.BackoffElapses?)
  {
    if s.timer.Some? {
      t, e := s.(now := Max(s.now, s.timer.value)), ThrottleElapses;
    } else {
      t, e := s.(now := Max(s.now, s.backoffs[0])), BackoffElapses(0);
    }
  }

  lemma WaitingStep(s: State, e: Event)
    requires s.Polling() && !InFlight(s) && Enabled(s, e) && !e.IsCall()
    ensures var t := Step(s, e);
            || t.fetchSerial == s.fetchSerial + 1
            || (t.fetchSerial == s.fetchSerial && t.Polling() && !InFlight(t) && t.timer == s.timer && t.backoffs == s.backoffs)
  {
  }

  lemma SerialGrows(s: State, e: Event)
    requires Enabled(s, e)
    ensures s.fetchSerial <= Step(s, e).fetchSerial <= s.fetchSerial + 1
  {
  }

  /** Without a call, nothing but the next request takes a pending timer away: whatever else the browser
      delivers, the same timers stay due at the same times until one of them has issued it. */
  lemma {:induction false} OnlyARequestEndsTheWait(run: seq<State>, events: seq<Event>, i: nat)
    requires IsRun(run, events) && CallFree(events) && i < |run|
    requires run[0].Polling() && !InFlight(run[0])
    ensures run[0].fetchSerial <= run[i].fetchSerial
    ensures run[i].fetchSerial == run[0].fetchSerial ==>
              run[i].Polling() && !InFlight(run[i]) && run[i].timer == run[0].timer && run[i].backoffs == run[0].backoffs
  {
    hide InFlight, Step, Enabled;
    if i > 0 {
      OnlyARequestEndsTheWait(run, events, i - 1);
      SerialGrows(run[i - 1], events[i - 1]);
      if run[i - 1].fetchSerial == run[0].fetchSerial {
        WaitingStep(run[i - 1], events[i - 1]);
      }
    }
  }

  /** Answers are applied in the order their requests were made, each at most once and never after a
      newer one, so the data shown never goes back to an older request's. */
  lemma AppliedInOrder(s: State, i: nat, j: nat)
    requires Reachable(s) && i < j < |s.log| && s.log[i].Applied? && s.log[j].Applied?
    ensures s.log[i].serial < s.log[j].serial <= s.fetchSerial
  {
    ReachableOk(s);
    assert EntryOk(s.log, j);
    LastAppliedGrows(s.log, i, j);
    IssuedCountGrows(s.log, j);
  }

  lemma {:induction false} LastAppliedGrows(log: seq<Entry>, i: nat, j: nat)
    requires i < j <= |log| && log[i].Applied? && forall k :: 0 <= k < |log| ==> EntryOk(log, k)
    ensures log[i].serial <= LastApplied(log[..j])
    decreases j
  {
    assert log[..j][..j - 1] == log[..j - 1];
    if i < j - 1 {
      LastAppliedGrows(log, i, j - 1);
      assert EntryOk(log, j - 1);
    }
  }

  lemma {:induction false} IssuedCountGrows(log: seq<Entry>, j: nat)
    requires j <= |log|
    ensures IssuedCount(log[..j]) <= IssuedCount(log)
    decreases |log| - j
  {
    if j < |log| {
      IssuedCountGrows(log, j + 1);
      assert log[..j + 1][..j] == log[..j];
    } else {
      assert log[..j] == log;
    }
  }

  /** A pending throttle timer is the only thing that drives the polling: no request can still be answered,
      and it is due exactly one interval after the last answer. */
  lemma TimerStandsAlone(s: State)
    requires Reachable(s) && s.timer.Some?
    ensures s.Polling() && s.timer.value == s.lastFetchAt + 750
    ensures s.fetchSerial !in s.flights && (s.canAbort ==> forall n :: n in s.flights ==> s.flights[n].aborted)
  {
    ReachableOk(s);
  }

  lemma {:induction false} CursorAfterGone(log: seq<Entry>, i: nat, j: nat)
    requires i < j <= |log| && log[i].WentStale? && forall k :: i < k < j ==> !log[k].Applied?
    ensures CursorOf(log[..j]) == ""
    decreases j
  {
    assert log[..j][..j - 1] == log[..j - 1];
    if i < j - 1 {
      CursorAfterGone(log, i, j - 1);
    }
  }

  /** A stale cursor is dropped for good: after a 410 no request carries a cursor until an answer brings one. */
  lemma GoneDropsCursor(s: State, i: nat, j: nat)
    requires Reachable(s) && i < j < |s.log| && s.log[i].WentStale? && s.log[j].Issued?
    requires forall k :: i < k < j ==> !s.log[k].Applied?
    ensures s.log[j].request.cursor == ""
  {
    hide Reachable, CursorOf, BoundsOf;
    RequestsFollowAnswers(s, j);
    CursorAfterGone(s.log, i, j);
  }

  /** Any request ever made asked for the bounds, and when long-polling for the cursor, that the calls and
      answers before it left behind, and for the bucket that was chosen last. */
  lemma RequestsFollowAnswers(s: State, i: nat)
    requires Reachable(s) && i < |s.log| && s.log[i].Issued?
    ensures var request, before := s.log[i].request, s.log[..i];
            && (request.fromIso, request.toIso) == BoundsOf(before)
            && request.bucket == (if BucketOf(before) != "" then BucketOf(before) else "auto")
            && request.cursor == (if request.waitMs == 0 then "" else CursorOf(before))
            && s.log[i].serial == IssuedCount(before) + 1
  {
    ReachableOk(s);
    assert EntryOk(s.log, i);
  }

  lemma {:induction false} BucketKept(log: seq<Entry>, i: nat, j: nat)
    requires i < j <= |log| && log[i].BucketSet? && forall k :: i < k < j ==> !log[k].BucketSet?
    ensures BucketOf(log[..j]) == log[i].bucket
    decreases j
  {
    assert log[..j][..j - 1] == log[..j - 1];
    if i < j - 1 {
      BucketKept(log, i, j - 1);
    }
  }

  /** A bucket once chosen is asked for by every request until another is chosen, whatever answers, failures,
      410s, timers and other calls come between. */
  lemma BucketStays(s: State, i: nat, j: nat)
    requires Reachable(s) && i < j < |s.log| && s.log[i].BucketSet? && s.log[j].Issued?
    requires forall k :: i < k < j ==> !s.log[k].BucketSet?
    ensures s.log[j].request.bucket == if s.log[i].bucket != "" then s.log[i].bucket else "auto"
  {
    hide Reachable, BoundsOf, CursorOf, BucketOf;
    RequestsFollowAnswers(s, j);
    BucketKept(s.log, i, j);
  }

  /** The log goes on without a bucket being chosen. */
  ghost predicate NoChoice(s: State, t: State) {
    && t.window.bucket == s.window.bucket
    && |s.log| <= |t.log|
    && (forall k :: 0 <= k < |s.log| ==> t.log[k] == s.log[k])
    && (forall k :: |s.log| <= k < |t.log| ==> !t.log[k].BucketSet?)
  }

  lemma FetchChoosesNothing()
    ensures forall s :: NoChoice(s, FetchOnce(s))
  {
  }

  lemma SettleChoosesNothing(s: State, serial: nat, outcome: Outcome)
    requires serial in s.flights
    ensures NoChoice(s, Settle(s, serial, outcome))
  {
    FetchChoosesNothing();
    hide FetchOnce;
  }

  /** And no event but the view's write and the call for it chooses one. */
  lemma OnlyBucketEventsChoose(s: State, e: Event)
    requires Enabled(s, e) && !e.CallSetBucket? && !e.ViewSetsWindow?
    ensures NoChoice(s, Step(s, e))
  {
    FetchChoosesNothing();
    hide FetchOnce;
    if e.Settles? {
      hide Settle;
      SettleChoosesNothing(s, e.serial, e.outcome);
    }
  }

  /** Some answer between the two entries resolved the lower bound to this. */
  ghost predicate LowerFrom(log: seq<Entry>, i: nat, j: nat, bound: string) {
    exists k :: i <= k < j <= |log| && log[k].Applied? && log[k].body.fromIso == bound != ""
  }

  ghost predicate UpperFrom(log: seq<Entry>, i: nat, j: nat, bound: string) {
    exists k :: i <= k < j <= |log| && log[k].Applied? && log[k].body.toIso == bound != ""
  }

  lemma {:induction false} BoundsAfterAnswer(log: seq<Entry>, i: nat, j: nat)
    requires i < j <= |log| && log[i].Applied? && forall k :: i < k < j ==> !log[k].WindowSet?
    ensures log[i].body.fromIso != "" ==> LowerFrom(log, i, j, BoundsOf(log[..j]).0)
    ensures log[i].body.toIso != "" ==> UpperFrom(log, i, j, BoundsOf(log[..j]).1)
    decreases j
  {
    var k := j - 1;
    assert log[..j][..k] == log[..k];
    if i < k {
      BoundsAfterAnswer(log, i, k);
    }
  }

  /** The window does not slide: once an answer has resolved a bound, every request, until something sets the
      window anew, asks for a time that an answer resolved, and never again for a now-relative bound of the
      provider's own. The same goes for the lower and the upper bound. */
  lemma LiveWindowIsPinned(s: State, i: nat, j: nat)
    requires Reachable(s) && i < j < |s.log| && s.log[i].Applied? && s.log[j].Issued?
    requires forall k :: i < k < j ==> !s.log[k].WindowSet?
    ensures s.log[i].body.fromIso != "" ==> LowerFrom(s.log, i, j, s.log[j].request.fromIso)
    ensures s.log[i].body.toIso != "" ==> UpperFrom(s.log, i, j, s.log[j].request.toIso)
  {
    hide Reachable, BoundsOf, CursorOf, LowerFrom, UpperFrom;
    RequestsFollowAnswers(s, j);
    BoundsAfterAnswer(s.log, i, j);
  }

  /** The default window is asked for again if and only if the answer resolved neither bound to anything else. */
  lemma DefaultWindowExact(s: State, b: Body, later: int)
    requires Reachable(s) && s.mode == Live
    requires s.window.fromIso == DEFAULT_LIVE_FROM && s.window.toIso == DEFAULT_LIVE_TO
    requires Enabled(s, Settles(s.fetchSerial, Answered(Some(b))))
    requires s.now + MIN_LIVE_FETCH_INTERVAL_MS <= later
    ensures var t := Step(s, Settles(s.fetchSerial, Answered(Some(b)))).(now := later);
            && Enabled(t, ThrottleElapses)
            && var log := Step(t, ThrottleElapses).log;
               && log != [] && log[|log| - 1].Issued?
               && (log[|log| - 1].request.fromIso == DEFAULT_LIVE_FROM
                   <==> b.fromIso == "" || b.fromIso == DEFAULT_LIVE_FROM)
               && (log[|log| - 1].request.toIso == DEFAULT_LIVE_TO
                   <==> b.toIso == "" || b.toIso == DEFAULT_LIVE_TO)
  {
    ReachableOk(s);
  }

  // Stopping

  /** Nothing that is still pending can make the provider act. */
  ghost predicate Quiet(s: State) {
    !s.Polling() && s.timer.None? && !InFlight(s)
  }

  lemma QuietStep(s: State, e: Event)
    requires Quiet(s) && Enabled(s, e) && !e.IsCall()
    ensures Quiet(Step(s, e)) && Step(s, e).fetchSerial == s.fetchSerial && Step(s, e).content == s.content
  {
    hide FetchOnce;
  }

  lemma {:induction false} QuietRun(run: seq<State>, events: seq<Event>, i: nat)
    requires IsRun(run, events) && Quiet(run[0]) && CallFree(events) && i < |run|
    ensures Quiet(run[i]) && run[i].fetchSerial == run[0].fetchSerial && run[i].content == run[0].content
  {
    if i > 0 {
      QuietRun(run, events, i - 1);
      assert !events[i - 1].IsCall() && Enabled(run[i - 1], events[i - 1]);
      hide Quiet, Step;
      QuietStep(run[i - 1], events[i - 1]);
    }
  }

  ghost predicate SilentAfter(s: State) {
    forall run: seq<State>, events: seq<Event> :: IsRun(run, events) && run[0] == s && CallFree(events)
                          ==> run[|events|].fetchSerial == s.fetchSerial
  }

  /** After `stop` no request is made until the next call, whatever back-off timers are still running, exactly
      when the browser can abort or there is nothing left to answer: without AbortController a late 410
      starts a request even though the provider is stopped. */
  lemma StopIsSilent(s: State)
    requires Reachable(s)
    ensures SilentAfter(Stop(s)) <==> s.canAbort || s.fetchSerial !in s.flights
  {
    ReachableOk(s);
    if s.canAbort || s.fetchSerial !in s.flights {
      StopIsQuiet(s);
      QuietIsSilent(Stop(s));
    } else {
      LateGoneActs(Stop(s));
    }
  }

  lemma StopIsQuiet(s: State)
    requires Inv(s) && (s.canAbort || s.fetchSerial !in s.flights)
    ensures Quiet(Stop(s))
  {
    hide LogOk;
  }

  lemma QuietIsSilent(s: State)
    requires Quiet(s)
    ensures SilentAfter(s)
  {
    hide Quiet, Step;
    forall run: seq<State>, events: seq<Event> | IsRun(run, events) && run[0] == s && CallFree(events)
      ensures run[|events|].fetchSerial == s.fetchSerial
    {
      QuietRun(run, events, |events|);
    }
  }

  lemma LateGoneActs(s: State)
    requires InFlight(s)
    ensures !SilentAfter(s)
  {
    GoneProceeds(s);
    var e := Settles(s.fetchSerial, Gone);
    assert Step(s, e) == Settle(s, s.fetchSerial, Gone);
    RunOfOne(s, e);
    hide Step, IsRun;
    var run, events := [s, Step(s, e)], [e];
    assert CallFree(events) && run[|events|].fetchSerial == s.fetchSerial + 1;
  }
}
