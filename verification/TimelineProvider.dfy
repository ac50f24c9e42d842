/** The provider object itself. Each of its calls and events makes one of the protocol's transitions, so the object
    is only ever in a state that the protocol's laws speak about, and keeps what its callers rely on. */
module TimelineProvider {
  import opened Option
  import opened TimelineProtocol
  import opened TimelineLaws
  import opened TimelinePromises
  import Protocol = TimelineProtocol

  class Provider {
    const canAbort: bool
    var mode: Mode
    var loopActive: bool
    var controller: Option<nat>
    var fetchSerial: nat
    var lastFetchAt: int
    var timer: Option<int>
    var window: Window
    var cursor: string
    var content: int
    var status: Status
    // The browser around it
    var now: int
    var flights: map<nat, Flight>
    var backoffs: seq<int>
    ghost var log: seq<Entry>

    ghost function Abs(): State
      reads this
    {
      State(canAbort, mode, loopActive, controller, fetchSerial, lastFetchAt, timer, window, cursor, content, status,
            now, flights, backoffs, log)
    }

    ghost predicate Valid()
      reads this
    {
      Reachable(Abs())
    }

    constructor (canAbort: bool, now: nat)
      ensures Valid() && Abs() == Initial(canAbort, now)
      ensures !Abs().Polling() && window == Window("now-2m", "now+30s", "auto") && cursor == "" && flights == map[]
    {
      this.canAbort := canAbort;
      mode, loopActive, controller, fetchSerial, lastFetchAt, timer := Idle, false, None, 0, 0, None;
      window := Window(DEFAULT_LIVE_FROM, DEFAULT_LIVE_TO, "auto");
      cursor, content, status := "", 0, Ready;
      this.now, flights, backoffs := now, map[], [];
      log := [BucketSet("auto"), WindowSet(DEFAULT_LIVE_FROM, DEFAULT_LIVE_TO)];
      new;
      InitialReachable(canAbort, now);
    }

    // Public calls

    /** Live polling starts with a request that supersedes any other; the window and the cursor are kept. */
    method StartLive()
      requires Consistent(Abs())
      modifies this
      ensures old(Valid()) ==> Valid()
      ensures Abs() == Protocol.StartLive(old(Abs()))
      ensures Abs().Polling() && window == old(window) && cursor == old(cursor)
      ensures Asks(old(Abs()), Abs(), LiveRequest(window, cursor))
    {
      StartLiveAsks(Abs());
      hide Reachable, Asks, LogOk;
      mode := Live;
      loopActive := true;
      FetchOnce();
      if old(Valid()) {
        ReachableStep(old(Abs()), CallStartLive);
      }
    }

    /** One request for the given bounds, or the old ones where none are given, without cursor or wait. */
    method PauseToReplay(from: string, to: string)
      requires Valid()
      modifies this
      ensures Valid() && Abs() == Protocol.PauseToReplay(old(Abs()), from, to)
      ensures mode == Replay && !Abs().Polling() && cursor == old(cursor)
      ensures window == Window(if from != "" then from else old(window.fromIso),
                               if to != "" then to else old(window.toIso), old(window.bucket))
      ensures Asks(old(Abs()), Abs(), FixedRequest(window))
    {
      hide Reachable, Asks;
      ReachableIsConsistent(Abs());
      PauseAsks(Abs(), from, to);
      hide LogOk;
      mode := Replay;
      loopActive := false;
      AbortInFlight();
      SetWindow(Or(from, window.fromIso), Or(to, window.toIso));
      FetchOnce();
      ReachableStep(old(Abs()), CallPauseToReplay(from, to));
    }

    /** Live polling starts over from the default now-relative window. */
    method ResumeLive()
      requires Valid()
      modifies this
      ensures Valid() && Abs() == Protocol.ResumeLive(old(Abs()))
      ensures Abs().Polling() && cursor == old(cursor)
      ensures window == Window("now-2m", "now+30s", old(window.bucket))
      ensures Asks(old(Abs()), Abs(), LiveRequest(window, cursor))
    {
      hide Reachable, Asks;
      ReachableIsConsistent(Abs());
      ResumeAsks(Abs());
      hide Consistent;
      AbortInFlight();
      SetWindow(DEFAULT_LIVE_FROM, DEFAULT_LIVE_TO);
      StartLive();
      ReachableStep(old(Abs()), CallResumeLive);
    }

    /** One more request in the mode there is. */
    method Refresh()
      requires Valid()
      modifies this
      ensures Valid() && Abs() == Protocol.FetchOnce(old(Abs()))
      ensures mode == old(mode) && loopActive == old(loopActive) && window == old(window) && cursor == old(cursor)
      ensures Asks(old(Abs()), Abs(), if mode == Live then LiveRequest(window, cursor) else FixedRequest(window))
    {
      hide Reachable;
      ReachableIsConsistent(Abs());
      FetchOnce();
      ReachableStep(old(Abs()), CallRefresh);
    }

    /** Nothing asks again before the next call, if and only if the browser can abort or nothing that would be
        acted on is left to answer. */
    method Stop()
      requires Valid()
      modifies this
      ensures Valid() && Abs() == Protocol.Stop(old(Abs()))
      ensures Abs() == old(Abs()).(mode := Idle, loopActive := false, controller := None, timer := None, flights := flights)
      ensures flights.Keys == old(flights.Keys)
      ensures SilentAfter(Abs()) <==> canAbort || fetchSerial !in old(flights)
      ensures Quiet(Abs()) <==> canAbort || fetchSerial !in old(flights)
    {
      hide Reachable, SilentAfter, Quiet;
      StopIsSilent(Abs());
      StopQuietens(Abs());
      ReachableIsConsistent(Abs());
      mode := Idle;
      loopActive := false;
      AbortInFlight();
      ReachableStep(old(Abs()), CallStop);
    }

    method SetBucket(bucket: string)
      requires Valid()
      modifies this
      ensures Valid() && Abs() == Protocol.SetBucket(old(Abs()), bucket)
      ensures mode == old(mode) && loopActive == old(loopActive) && cursor == old(cursor)
      ensures window == old(window).(bucket := if bucket != "" then bucket else "auto")
      ensures Asks(old(Abs()), Abs(), if mode == Live then LiveRequest(window, cursor) else FixedRequest(window))
    {
      hide Reachable, Asks;
      ReachableIsConsistent(Abs());
      SetBucketAsks(Abs(), bucket);
      ChooseBucketKeeps(Abs(), Or(bucket, "auto"));
      hide Consistent, LogOk;
      window := window.(bucket := Or(bucket, "auto"));
      log := log + [BucketSet(window.bucket)];
      assert Abs() == ChooseBucket(old(Abs()), Or(bucket, "auto"));
      FetchOnce();
      ReachableStep(old(Abs()), CallSetBucket(bucket));
    }

    // What the browser and the view do

    /** The view writing to the shared window: the next request will ask for it, and nothing happens before. */
    method ReplaceWindow(window: Window)
      requires Valid()
      modifies this
      ensures Valid() && Abs() == Protocol.ReplaceWindow(old(Abs()), window)
      ensures Abs() == old(Abs()).(window := window, log := log)
      ensures BoundsOf(log) == (window.fromIso, window.toIso) && BucketOf(log) == window.bucket
    {
      hide Reachable, BoundsOf, BucketOf;
      this.window := window;
      log := log + [BucketSet(window.bucket)] + [WindowSet(window.fromIso, window.toIso)];
      ReachableStep(old(Abs()), ViewSetsWindow(window));
      ReachableIsConsistent(Abs());
    }

    method ClockTicks(later: int)
      requires Valid() && now <= later
      modifies this`now
      ensures Valid() && now == later
    {
      hide Reachable;
      now := later;
      ReachableStep(old(Abs()), Event.ClockTicks(later));
    }

    /** The continuation of one request's fetch. */
    method OnSettled(serial: nat, outcome: Outcome)
      requires Valid() && Enabled(Abs(), Settles(serial, outcome))
      modifies this
      ensures Valid() && Abs() == Settle(old(Abs()), serial, outcome)
      ensures EndsAs(old(Abs()), Abs(), serial, outcome)
      ensures serial == old(fetchSerial) && !outcome.Gone? && !Abs().Polling() ==> Quiet(Abs())
    {
      hide Reachable, EndsAs, Quiet, Inv, Protocol.FetchOnce;
      ReachableOk(Abs());
      SettleEnds(Abs(), serial, outcome);
      SettleReady(Abs(), serial, outcome);
      ReachableStep(Abs(), Settles(serial, outcome));
      flights := flights - {serial};
      if outcome.AbortError? || serial != fetchSerial {
        return;
      }
      match outcome {
        case Gone => HandleStaleCursor(serial);
        case Failed => HandleFailure();
        case Answered(None) =>
          lastFetchAt := now;
          HandleFailure();
        case Answered(Some(body)) =>
          Reconcile(serial, body);
          if mode == Live && loopActive {
            ScheduleNextLiveFetch();
          }
      }
    }

    /** The throttle timer fires no earlier than one interval after the last answer, and always asks. */
    method OnThrottleTimer()
      requires Valid() && Enabled(Abs(), ThrottleElapses)
      modifies this
      ensures Valid() && Abs() == ThrottleFires(old(Abs()))
      ensures old(lastFetchAt) + 750 <= now && window == old(window) && cursor == old(cursor)
      ensures Abs().Polling() && Asks(old(Abs()), Abs(), LiveRequest(window, cursor))
    {
      hide Reachable;
      ReachableOk(Abs());
      timer := None;
      if mode == Live && loopActive {
        FetchOnce();
      }
      ReachableStep(old(Abs()), ThrottleElapses);
    }

    /** A back-off timer asks again only if the provider polls by then, and is otherwise forgotten. */
    method OnBackoffTimer(i: nat)
      requires Valid() && Enabled(Abs(), BackoffElapses(i))
      modifies this
      ensures Valid() && Abs() == BackoffFires(old(Abs()), i)
      ensures backoffs == old(backoffs[..i] + backoffs[i + 1..]) && window == old(window) && cursor == old(cursor)
      ensures if old(Abs().Polling())
              then Abs().Polling() && Asks(old(Abs()).(backoffs := backoffs), Abs(), LiveRequest(window, cursor))
              else Abs() == old(Abs()).(backoffs := backoffs)
    {
      hide Reachable;
      ReachableIsConsistent(Abs());
      backoffs := backoffs[..i] + backoffs[i + 1..];
      if mode == Live && loopActive {
        FetchOnce();
      }
      ReachableStep(old(Abs()), BackoffElapses(i));
    }

    // Internals

    method SetWindow(from: string, to: string)
      requires Consistent(Abs())
      modifies this
      ensures Consistent(Abs()) && Abs() == Protocol.SetWindow(old(Abs()), from, to)
    {
      SetWindowKeeps(Abs(), from, to);
      window := window.(fromIso := from, toIso := to);
      log := log + [WindowSet(from, to)];
    }

    /** Nothing that was asked can still be answered, if the browser can abort; what is pending else stays. */
    method AbortInFlight()
      requires Consistent(Abs())
      modifies this
      ensures Consistent(Abs()) && Abs() == Protocol.AbortInFlight(old(Abs()))
      ensures flights.Keys == old(flights.Keys)
      ensures if canAbort then forall n :: n in flights ==> flights[n].aborted else flights == old(flights)
      ensures timer.None? && backoffs == old(backoffs) && window == old(window) && log == old(log)
    {
      AbortSilences(Abs());
      hide Consistent;
      if controller.Some? {
        if controller.value in flights {
          flights := flights[controller.value := flights[controller.value].(aborted := true)];
        }
        controller := None;
      }
      if timer.Some? {
        timer := None;
      }
    }

    /** The request asks for the bounds, and when it long-polls for the cursor, that the calls and answers so
        far have left. */
    method BuildRequest() returns (request: Request)
      requires Consistent(Abs())
      ensures request == RequestOf(Abs())
      ensures (request.fromIso, request.toIso) == BoundsOf(log)
      ensures request.bucket == if BucketOf(log) != "" then BucketOf(log) else "auto"
      ensures mode == Live ==> request.waitMs == 15000 && request.cursor == CursorOf(log)
      ensures mode != Live ==> request.waitMs == 0 && request.cursor == ""
    {
      RequestFollowsLog(Abs());
      hide Consistent, BoundsOf, CursorOf, BucketOf;
      var wait, from := 0, "";
      if mode == Live {
        wait := LONG_POLL_WAIT_MS;
        if cursor != "" {
          from := cursor;
        }
      }
      request := Request(window.fromIso, window.toIso, Or(window.bucket, "auto"), wait, from);
    }

    method FetchOnce()
      requires Consistent(Abs())
      modifies this
      ensures Consistent(Abs()) && Abs() == Protocol.FetchOnce(old(Abs()))
      ensures Asks(old(Abs()), Abs(), RequestOf(old(Abs())))
    {
      hide Consistent, Asks, RequestOf, AbortFlight, BoundsOf, CursorOf, BucketOf;
      FetchStaysConsistent(Abs());
      AbortInFlight();
      var request := BuildRequest();
      status := Loading;
      fetchSerial := fetchSerial + 1;
      if canAbort {
        controller := Some(fetchSerial);
      }
      Fetch(request);
    }

    /** The browser's part: the request is on its way. */
    method Fetch(request: Request)
      modifies this`flights, this`log
      ensures flights == old(flights)[fetchSerial := Flight(request, false)]
      ensures log == old(log) + [Issued(fetchSerial, request, now)]
    {
      flights := flights[fetchSerial := Flight(request, false)];
      log := log + [Issued(fetchSerial, request, now)];
    }

    /** A pending timer is kept; a new one is due one interval after the last answer, or at once if that is
        over. */
    method ScheduleNextLiveFetch()
      modifies this`timer
      ensures Abs() == Protocol.ScheduleNextLiveFetch(old(Abs()))
      ensures timer == if old(timer).Some? then old(timer)
                       else if now <= lastFetchAt + 750 then Some(lastFetchAt + 750) else Some(now)
    {
      if timer.Some? {
        return;
      }
      var elapsed := now - lastFetchAt;
      timer := Some(now + Max(0, MIN_LIVE_FETCH_INTERVAL_MS - elapsed));
    }

    /** The window, the cursor and the content stay what the log of calls and answers says, the new answer
        included. */
    method Reconcile(ghost serial: nat, body: Body)
      requires Consistent(Abs()) && serial == fetchSerial && serial !in flights && LastApplied(log) < serial
      modifies this
      ensures Consistent(Abs()) && Abs() == Protocol.Reconcile(old(Abs()), serial, body)
      ensures log == old(log) + [Applied(serial, body, now)] && LastApplied(log) == serial && lastFetchAt == now
      ensures BoundsOf(log) == (window.fromIso, window.toIso) && BucketOf(log) == window.bucket == old(window.bucket)
      ensures CursorOf(log) == cursor == body.cursor && ContentOf(log) == content == body.content
    {
      AnswerKeepsLog(Abs(), serial, body);
      hide Or, Consistent, LastApplied, BoundsOf, CursorOf, ContentOf, BucketOf;
      lastFetchAt := now;
      content := body.content;
      cursor := body.cursor;
      window := window.(fromIso := Or(body.fromIso, window.fromIso), toIso := Or(body.toIso, window.toIso));
      status := Ready;
      log := log + [Applied(serial, body, now)];
    }

    /** The cursor is gone and a request without one is out. */
    method HandleStaleCursor(ghost serial: nat)
      requires Consistent(Abs())
      modifies this
      ensures Consistent(Abs()) && Abs() == Protocol.HandleStaleCursor(old(Abs()), serial)
      ensures cursor == "" && window == old(window)
      ensures Asks(old(Abs()), Abs(), if mode == Live then LiveRequest(window, "") else FixedRequest(window))
    {
      GoneKeepsLog(Abs(), serial);
      cursor := "";
      log := log + [WentStale(serial)];
      hide LogOk;
      FetchOnce();
    }

    method HandleFailure()
      modifies this
      ensures Abs() == Protocol.HandleFailure(old(Abs()))
    {
      status := Error;
      if mode == Live && loopActive {
        backoffs := backoffs + [now + BACKOFF_MS];
      }
    }
  }
}
