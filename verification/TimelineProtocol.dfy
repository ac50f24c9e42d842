/** The long-poll protocol of the timeline as transitions of one state: the provider's fields together
    with the browser around it. Responses, timers and the clock arrive as events. */
module TimelineProtocol {
  import opened Option

  /** Pause between an applied response and the next throttled request. */
  const MIN_LIVE_FETCH_INTERVAL_MS := 750
  const LONG_POLL_WAIT_MS := 15000
  const BACKOFF_MS := 5000
  const DEFAULT_LIVE_FROM := "now-2m"
  const DEFAULT_LIVE_TO := "now+30s"

  datatype Mode = Idle | Live | Replay

  datatype Status = Ready | Loading | Error

  datatype Window = Window(fromIso: string, toIso: string, bucket: string)

  /** The query of one request; no cursor is the empty string. */
  datatype Request = Request(fromIso: string, toIso: string, bucket: string, waitMs: nat, cursor: string)

  /** A request the browser has not answered yet. */
  datatype Flight = Flight(request: Request, aborted: bool)

  /** A response; `content` stands for the event lists, which the protocol stores and never reads.
      Missing text is empty. */
  datatype Body = Body(fromIso: string, toIso: string, cursor: string, content: int)

  /** How a request ends: with a body (None is a JSON null), with 410 Gone, with any other failure, or
      with the browser's AbortError. */
  datatype Outcome = Answered(body: Option<Body>) | Gone | Failed | AbortError

  /** What happened so far, as far as requests, answers and the window are concerned. */
  datatype Entry =
    | Issued(serial: nat, request: Request, at: int)
    | Applied(serial: nat, body: Body, at: int)
    | WentStale(serial: nat)
    | WindowSet(fromIso: string, toIso: string)
    | BucketSet(bucket: string)

  datatype State = State(
    canAbort: bool,               // the browser has AbortController
    mode: Mode,
    loopActive: bool,
    controller: Option<nat>,      // the serial of the flight it would abort
    fetchSerial: nat,
    lastFetchAt: int,
    timer: Option<int>,           // when the throttle timer is due
    window: Window,
    cursor: string,
    content: int,
    status: Status,
    now: int,
    flights: map<nat, Flight>,
    backoffs: seq<int>,           // when each back-off timer is due; none is ever cancelled
    log: seq<Entry>)
  {
    predicate Polling() {
      mode == Live && loopActive
    }
  }

  function Initial(canAbort: bool, now: nat): State {
    State(canAbort, Idle, false, None, 0, 0, None, Window(DEFAULT_LIVE_FROM, DEFAULT_LIVE_TO, "auto"), "", 0, Ready,
          now, map[], [], [BucketSet("auto"), WindowSet(DEFAULT_LIVE_FROM, DEFAULT_LIVE_TO)])
  }

  function Or(s: string, fallback: string): string {
    if s != "" then s else fallback
  }

  function Max(a: int, b: int): int {
    if a < b then b else a
  }

  function RequestOf(s: State): Request {
    var live := s.mode == Live;
    Request(s.window.fromIso, s.window.toIso, Or(s.window.bucket, "auto"), if live then LONG_POLL_WAIT_MS else 0,
            if live then s.cursor else "")
  }

  function AbortFlight(flights: map<nat, Flight>, controller: Option<nat>): map<nat, Flight> {
    if controller.Some? && controller.value in flights
    then flights[controller.value := flights[controller.value].(aborted := true)]
    else flights
  }

  function AbortInFlight(s: State): State {
    s.(flights := AbortFlight(s.flights, s.controller), controller := None, timer := None)
  }

  function FetchOnce(s: State): State {
    var t := AbortInFlight(s);
    var serial, request := t.fetchSerial + 1, RequestOf(t);
    t.(fetchSerial := serial,
       controller := if t.canAbort then Some(serial) else None,
       status := Loading,
       flights := t.flights[serial := Flight(request, false)],
       log := t.log + [Issued(serial, request, t.now)])
  }

  function StartLive(s: State): State {
    FetchOnce(s.(mode := Live, loopActive := true))
  }

  function SetWindow(s: State, from: string, to: string): State {
    s.(window := s.window.(fromIso := from, toIso := to), log := s.log + [WindowSet(from, to)])
  }

  function ChooseBucket(s: State, bucket: string): State {
    s.(window := s.window.(bucket := bucket), log := s.log + [BucketSet(bucket)])
  }

  function ReplaceWindow(s: State, window: Window): State {
    SetWindow(ChooseBucket(s, window.bucket), window.fromIso, window.toIso)
  }

  function PauseToReplay(s: State, from: string, to: string): State {
    var t := AbortInFlight(s.(mode := Replay, loopActive := false));
    FetchOnce(SetWindow(t, Or(from, t.window.fromIso), Or(to, t.window.toIso)))
  }

  function ResumeLive(s: State): State {
    StartLive(SetWindow(AbortInFlight(s), DEFAULT_LIVE_FROM, DEFAULT_LIVE_TO))
  }

  function Stop(s: State): State {
    AbortInFlight(s.(mode := Idle, loopActive := false))
  }

  function SetBucket(s: State, bucket: string): State {
    FetchOnce(ChooseBucket(s, Or(bucket, "auto")))
  }

  function ScheduleNextLiveFetch(s: State): State {
    if s.timer.Some? then s
    else s.(timer := Some(s.now + Max(0, MIN_LIVE_FETCH_INTERVAL_MS - (s.now - s.lastFetchAt))))
  }

  function Reconcile(s: State, serial: nat, b: Body): State {
    s.(lastFetchAt := s.now,
       content := b.content,
       cursor := b.cursor,
       window := s.window.(fromIso := Or(b.fromIso, s.window.fromIso), toIso := Or(b.toIso, s.window.toIso)),
       status := Ready,
       log := s.log + [Applied(serial, b, s.now)])
  }

  function HandleStaleCursor(s: State, serial: nat): State {
    FetchOnce(s.(cursor := "", log := s.log + [WentStale(serial)]))
  }

  function HandleFailure(s: State): State {
    var t := s.(status := Error);
    if t.Polling() then t.(backoffs := t.backoffs + [t.now + BACKOFF_MS]) else t
  }

  /** The promise chain of request `serial` settling. A null body fails inside the reconcile, after the
      fetch time was taken. */
  function Settle(s: State, serial: nat, outcome: Outcome): State
    requires serial in s.flights
  {
    var t := s.(flights := s.flights - {serial});
    if outcome.AbortError? || serial != t.fetchSerial then t
    else
      match outcome
      case Gone => HandleStaleCursor(t, serial)
      case Failed => HandleFailure(t)
      case Answered(None) => HandleFailure(t.(lastFetchAt := t.now))
      case Answered(Some(b)) =>
        var u := Reconcile(t, serial, b);
        if u.Polling() then ScheduleNextLiveFetch(u) else u
  }

  function ThrottleFires(s: State): State {
    var t := s.(timer := None);
    if t.Polling() then FetchOnce(t) else t
  }

  function BackoffFires(s: State, i: nat): State
    requires i < |s.backoffs|
  {
    var t := s.(backoffs := s.backoffs[..i] + s.backoffs[i + 1..]);
    if t.Polling() then FetchOnce(t) else t
  }

  // Runs

  datatype Event =
    | CallStartLive
    | CallPauseToReplay(fromIso: string, toIso: string)
    | CallResumeLive
    | CallRefresh
    | CallStop
    | CallSetBucket(bucket: string)
    | ViewSetsWindow(window: Window)
    | Settles(serial: nat, outcome: Outcome)
    | ThrottleElapses
    | BackoffElapses(timer: nat)
    | ClockTicks(now: int)
  {
    /** The view also writes to the shared window directly, which is no call. */
    predicate IsCall() {
      !(ViewSetsWindow? || Settles? || ThrottleElapses? || BackoffElapses? || ClockTicks?)
    }
  }

  /** The browser answers each request once and an aborted one with nothing but AbortError, fires no timer
      early, and never turns the clock back. */
  predicate Enabled(s: State, e: Event) {
    match e
    case Settles(serial, outcome) => serial in s.flights && (s.flights[serial].aborted <==> outcome.AbortError?)
    case ThrottleElapses => s.timer.Some? && s.timer.value <= s.now
    case BackoffElapses(i) => i < |s.backoffs| && s.backoffs[i] <= s.now
    case ClockTicks(now) => s.now <= now
    case _ => true
  }

  function Step(s: State, e: Event): State
    requires Enabled(s, e)
  {
    match e
    case CallStartLive => StartLive(s)
    case CallPauseToReplay(from, to) => PauseToReplay(s, from, to)
    case CallResumeLive => ResumeLive(s)
    case CallRefresh => FetchOnce(s)
    case CallStop => Stop(s)
    case CallSetBucket(bucket) => SetBucket(s, bucket)
    case ViewSetsWindow(window) => ReplaceWindow(s, window)
    case Settles(serial, outcome) => Settle(s, serial, outcome)
    case ThrottleElapses => ThrottleFires(s)
    case BackoffElapses(i) => BackoffFires(s, i)
    case ClockTicks(now) => s.(now := now)
  }

  /** The states a run passes through, one per event after the first. */
  ghost predicate IsRun(run: seq<State>, events: seq<Event>) {
    && |run| == |events| + 1
    && forall i :: 0 <= i < |events| ==> Enabled(run[i], events[i]) && run[i + 1] == Step(run[i], events[i])
  }

  /** A provider starts in some browser at some time since the epoch. */
  ghost predicate Reachable(s: State) {
    exists run, events, canAbort, now: nat ::
      IsRun(run, events) && run[0] == Initial(canAbort, now) && run[|events|] == s
  }
}
