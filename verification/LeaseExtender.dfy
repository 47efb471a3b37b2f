/**
 The message lease extender: a goroutine that extends a message's acknowledgement
 deadline on every tick, and the two-channel handshake that stops it. Times are in
 nanoseconds.
 */
module LeaseExtender {
  import opened Wrappers

  type Time = int

  const SECOND: Time := 1_000_000_000
  const MIN_ACK: Time := 10 * SECOND
  const MAX_ACK: Time := 600 * SECOND

  datatype Config = Config(deadline: Time, gracePeriod: Time)

  function Period(c: Config): Time { c.deadline - c.gracePeriod }

  /** What Start does with a configuration; a ticker needs a positive period. */
  datatype StartOutcome = InvalidGracePeriod | Panics | Started

  function Start(c: Config): StartOutcome {
    if Period(c) < 0 then InvalidGracePeriod else if Period(c) == 0 then Panics else Started
  }

  /** The lease that the driver asks for: clamped, then cut to whole seconds. */
  function AckDeadline(deadline: Time): Time {
    var clamped := if deadline < MIN_ACK then MIN_ACK else if deadline > MAX_ACK then MAX_ACK else deadline;
    clamped / SECOND * SECOND
  }

  /** The lease granted is at least the deadline asked for exactly within these bounds. */
  lemma AckCoversExactly(deadline: Time)
    ensures AckDeadline(deadline) >= deadline
            <==> deadline <= MIN_ACK || (deadline <= MAX_ACK && deadline % SECOND == 0)
  {
  }

  /** The lease asked for: ten seconds to ten minutes, and otherwise the deadline cut to whole seconds. */
  lemma AckIs(deadline: Time, seconds: int)
    ensures deadline <= 10_000_000_000 ==> AckDeadline(deadline) == 10_000_000_000
    ensures deadline >= 600_000_000_000 ==> AckDeadline(deadline) == 600_000_000_000
    ensures 10 <= seconds < 600 && seconds * 1_000_000_000 <= deadline < (seconds + 1) * 1_000_000_000 ==>
              AckDeadline(deadline) == seconds * 1_000_000_000
  {
  }

  /** A grace period longer than the deadline is refused, and one as long leaves no period to tick with. */
  lemma StartsExactly(c: Config)
    ensures Start(c) == InvalidGracePeriod <==> c.gracePeriod > c.deadline
    ensures Start(c) == Panics <==> c.gracePeriod == c.deadline
    ensures Start(c) == Started <==> c.gracePeriod < c.deadline
  {
  }

  // ----- the protocol -----

  /**
   The goroutine: in its select, inside the extension call for a tick, whose request went out at
   `sent`, reporting, or gone.
   */
  datatype Loop = Selecting | Extending(fired: Time, sent: Time) | Reporting | Exited

  /** The caller: not yet stopping, offering `done`, waiting on `exited`, or back from Stop. */
  datatype Caller = Idle | SendingDone | AwaitingExit | Stopped(err: bool)

  datatype State = State(
    now: Time,
    nextTick: Option<Time>,  // None once the ticker is stopped
    pending: Option<Time>,   // the tick waiting in the ticker's channel
    loop: Loop,
    caller: Caller,
    err: bool,               // the goroutine's err variable
    lease: Time,             // when the message's lease expires
    extensions: nat,         // successful extensions so far
    failures: nat)

  datatype Event =
    | Pass(d: Time)
    | Fire
    | Receive
    | ExtendSucceeds(granted: Time)
    | ExtendFails
    | StopCalled
    | DoneReceived
    | ExitReported
    | StopCalledAgain

  /** The time at which the tick that is still to be handled fired. */
  function Unhandled(s: State): Option<Time> {
    if s.loop.Extending? then Some(s.loop.fired) else s.pending
  }

  /** Every tick is handled less than `limit` after it fires. */
  predicate InTime(s: State, limit: Time, now: Time) {
    Unhandled(s).Some? ==> now < Unhandled(s).value + limit
  }

  /**
   The state after an event, or None where the event cannot happen. The service may grant the new
   lease at any time between the sending of the request and its return.
   */
  function Next(c: Config, limit: Time, s: State, e: Event): Option<State> {
    match e
    case Pass(d) =>
      if d > 0 && (s.nextTick.Some? ==> s.now + d <= s.nextTick.value) && InTime(s, limit, s.now + d)
      then Some(s.(now := s.now + d)) else None
    case Fire =>
      if s.nextTick == Some(s.now)
      then Some(s.(nextTick := Some(s.now + Period(c)),
                   pending := if s.pending.None? then Some(s.now) else s.pending)) else None
    case Receive =>
      if s.loop.Selecting? && s.pending.Some?
      then Some(s.(loop := Extending(s.pending.value, s.now), pending := None)) else None
    case ExtendSucceeds(granted) =>
      if s.loop.Extending? && s.loop.sent <= granted <= s.now
      then Some(s.(loop := Selecting, err := false, lease := granted + AckDeadline(c.deadline),
                   extensions := s.extensions + 1)) else None
    case ExtendFails =>
      if s.loop.Extending?
      then Some(s.(loop := Selecting, err := true, nextTick := None, pending := None,
                   failures := s.failures + 1)) else None
    case StopCalled =>
      if s.caller.Idle? then Some(s.(caller := SendingDone)) else None
    case DoneReceived =>
      if s.caller.SendingDone? && s.loop.Selecting?
      then Some(s.(caller := AwaitingExit, loop := Reporting, nextTick := None, pending := None)) else None
    case ExitReported =>
      if s.caller.AwaitingExit? && s.loop.Reporting?
      then Some(s.(caller := Stopped(s.err), loop := Exited)) else None
    case StopCalledAgain =>
      if s.caller.Stopped? then Some(s) else None
  }

  /** Started at `t0` on a message whose lease had already run for `lag`. */
  function Initial(c: Config, t0: Time, lag: Time): State {
    State(t0, Some(t0 + Period(c)), None, Selecting, Idle, false, t0 + c.deadline - lag, 0, 0)
  }

  ghost predicate Run(c: Config, limit: Time, t0: Time, lag: Time, states: seq<State>, events: seq<Event>) {
    && |states| == |events| + 1
    && states[0] == Initial(c, t0, lag)
    && forall i :: 0 <= i < |events| ==> Next(c, limit, states[i], events[i]) == Some(states[i + 1])
  }

  // ----- the invariant -----

  /** The goroutine, the ticker, the channels and the caller agree. */
  ghost predicate Coherent(s: State) {
    && (s.caller.Idle? || s.caller.SendingDone? <==> s.loop.Selecting? || s.loop.Extending?)
    && (s.caller.AwaitingExit? <==> s.loop.Reporting?)
    && (s.nextTick.None? ==> s.pending.None?)
    && (s.err <==> s.failures == 1) && s.failures <= 1
    && (s.err || s.loop.Reporting? || s.loop.Exited? ==> s.nextTick.None? && !s.loop.Extending?)
    && (s.nextTick.None? ==> s.err || s.loop.Reporting? || s.loop.Exited?)
    && (s.caller.Stopped? ==> s.caller.err == s.err)
    && (s.loop.Extending? ==> s.loop.sent <= s.now)
  }

  /** When the tick after the one being handled fires, or has fired. */
  function NextUnhandled(s: State): Time
    requires s.nextTick.Some?
  {
    if s.pending.Some? then s.pending.value else s.nextTick.value
  }

  /** While ticks come in, the lease outlasts the latest time the next one can be handled. */
  ghost predicate Leased(c: Config, limit: Time, s: State) {
    s.nextTick.Some? ==>
      && s.now <= s.nextTick.value <= s.now + Period(c)
      && (s.loop.Extending? ==> s.loop.fired <= s.loop.sent <= s.now && NextUnhandled(s) <= s.loop.sent + Period(c))
      && (s.pending.Some? ==> s.pending.value <= s.now)
      && (s.loop.Extending? && s.pending.Some? ==> s.loop.fired <= s.pending.value)
      && match Unhandled(s)
         case Some(fired) => s.now < fired + limit <= s.lease
         case None => s.nextTick.value + limit <= s.lease
  }

  ghost predicate Safe(c: Config, limit: Time, lag: Time) {
    && c.gracePeriod < c.deadline && c.deadline <= AckDeadline(c.deadline)
    && limit > 0 && lag >= 0 && limit + lag <= c.gracePeriod
  }

  lemma StepKeeps(c: Config, limit: Time, lag: Time, s: State, e: Event, s': State)
    requires Coherent(s) && Next(c, limit, s, e) == Some(s')
    ensures Coherent(s')
    ensures Safe(c, limit, lag) && Leased(c, limit, s) ==> Leased(c, limit, s')
  {
  }

  lemma {:induction false} RunKeeps(c: Config, limit: Time, t0: Time, lag: Time, states: seq<State>,
                                    events: seq<Event>, n: nat)
    requires Run(c, limit, t0, lag, states, events) && n < |states|
    ensures Coherent(states[n]) && (Safe(c, limit, lag) ==> Leased(c, limit, states[n]))
  {
    if n > 0 {
      RunKeeps(c, limit, t0, lag, states, events, n - 1);
      StepKeeps(c, limit, lag, states[n - 1], events[n - 1], states[n]);
    }
  }

  // ----- the lease -----

  /** The lease has run out although Stop was not called and no extension has failed. */
  ghost predicate LeaseLost(s: State) { s.caller.Idle? && s.failures == 0 && s.now >= s.lease }

  /** Between Start and Stop, and until an extension fails, the lease is live, dropped ticks or not. */
  lemma LeaseNeverExpires(c: Config, limit: Time, t0: Time, lag: Time, states: seq<State>, events: seq<Event>, n: nat)
    requires Safe(c, limit, lag)
    requires Run(c, limit, t0, lag, states, events) && n < |states|
    requires states[n].caller.Idle? || states[n].caller.SendingDone?
    requires states[n].failures == 0
    ensures states[n].now < states[n].lease
  {
    RunKeeps(c, limit, t0, lag, states, events, n);
  }

  /** Time can run on to `target` while the first tick waits in the channel, later ticks being dropped. */
  lemma {:induction false} WaitUntil(c: Config, limit: Time, s: State, target: Time)
    returns (states: seq<State>, events: seq<Event>)
    requires Period(c) > 0 && s.loop.Selecting? && s.pending.Some? && s.nextTick.Some?
    requires s.now <= s.nextTick.value && s.now <= target < s.pending.value + limit
    ensures |states| == |events| + 1 && states[0] == s
    ensures forall i :: 0 <= i < |events| ==> Next(c, limit, states[i], events[i]) == Some(states[i + 1])
    ensures var z := states[|events|]; z == s.(now := target, nextTick := z.nextTick)
    decreases target - s.now, if s.nextTick.value == s.now then 1 else 0
  {
    if s.now == target {
      return [s], [];
    }
    var e := if s.nextTick.value == s.now then Fire
             else Pass(if s.nextTick.value < target then s.nextTick.value - s.now else target - s.now);
    var s' := Next(c, limit, s, e).value;
    var rest, more := WaitUntil(c, limit, s', target);
    states, events := [s] + rest, [e] + more;
  }

  /** If the handling time and the lag together exceed the grace period, some run lets the lease expire. */
  lemma LeaseCanExpire(c: Config, limit: Time, t0: Time, lag: Time) returns (states: seq<State>, events: seq<Event>)
    requires c.gracePeriod < c.deadline && limit > 0 && lag >= 0 && limit + lag > c.gracePeriod
    ensures Run(c, limit, t0, lag, states, events)
    ensures LeaseLost(states[|events|])
  {
    var s0 := Initial(c, t0, lag);
    var s1 := Next(c, limit, s0, Pass(Period(c))).value;
    if lag > c.gracePeriod {
      return [s0, s1], [Pass(Period(c))];
    }
    var s2 := Next(c, limit, s1, Fire).value;
    var rest, more := WaitUntil(c, limit, s2, s0.lease);
    states, events := [s0, s1] + rest, [Pass(Period(c)), Fire] + more;
  }

  /**
   For a configuration whose deadline the driver grants in full, the lease survives every run of
   ticks handled within `limit` exactly when handling time and initial lag fit the grace period.
   */
  lemma LeaseSurvivesExactly(c: Config, limit: Time, t0: Time, lag: Time)
    requires c.gracePeriod < c.deadline <= AckDeadline(c.deadline) && limit > 0 && lag >= 0
    ensures limit + lag <= c.gracePeriod <==>
            forall states: seq<State>, events: seq<Event>, n: nat ::
              Run(c, limit, t0, lag, states, events) && n < |states| ==>
              !LeaseLost(states[n])
  {
    if limit + lag <= c.gracePeriod {
      forall states: seq<State>, events: seq<Event>, n: nat | Run(c, limit, t0, lag, states, events) && n < |states|
        ensures !LeaseLost(states[n])
      {
        if states[n].caller.Idle? && states[n].failures == 0 {
          LeaseNeverExpires(c, limit, t0, lag, states, events, n);
        }
      }
    } else {
      var states, events := LeaseCanExpire(c, limit, t0, lag);
      assert Run(c, limit, t0, lag, states, events) && |events| < |states|;
    }
  }

  // ----- stopping -----

  /** From every reachable state in which Stop has been called, at most three events complete it. */
  lemma StopCompletes(c: Config, limit: Time, t0: Time, lag: Time, states: seq<State>, events: seq<Event>, n: nat)
    returns (rest: seq<Event>, z: State)
    requires Run(c, limit, t0, lag, states, events) && n < |states|
    requires states[n].caller.SendingDone? || states[n].caller.AwaitingExit?
    ensures |rest| <= 3 && After(c, limit, states[n], rest) == Some(z) && z.caller.Stopped?
    ensures z.now == states[n].now
  {
    RunKeeps(c, limit, t0, lag, states, events, n);
    var s := states[n];
    if s.caller.AwaitingExit? {
      rest, z := [ExitReported], Next(c, limit, s, ExitReported).value;
      AfterCons(c, limit, s, ExitReported, z, []);
    } else if s.loop.Selecting? {
      rest, z := StopFromSelect(c, limit, s);
    } else {
      var s' := Next(c, limit, s, ExtendSucceeds(s.now)).value;
      var tail;
      tail, z := StopFromSelect(c, limit, s');
      rest := [ExtendSucceeds(s.now)] + tail;
      AfterCons(c, limit, s, ExtendSucceeds(s.now), s', tail);
    }
  }

  lemma StopFromSelect(c: Config, limit: Time, s: State) returns (rest: seq<Event>, z: State)
    requires s.caller.SendingDone? && s.loop.Selecting?
    ensures |rest| == 2 && After(c, limit, s, rest) == Some(z) && z.caller.Stopped? && z.now == s.now
  {
    var s' := Next(c, limit, s, DoneReceived).value;
    z := Next(c, limit, s', ExitReported).value;
    rest := [DoneReceived] + [ExitReported];
    AfterCons(c, limit, s', ExitReported, z, []);
    AfterCons(c, limit, s, DoneReceived, s', [ExitReported]);
  }

  lemma AfterCons(c: Config, limit: Time, s: State, e: Event, s': State, rest: seq<Event>)
    requires Next(c, limit, s, e) == Some(s')
    ensures After(c, limit, s, [e] + rest) == After(c, limit, s', rest)
    ensures [e] + [] == [e]
  {
    assert ([e] + rest)[1..] == rest;
  }

  ghost function After(c: Config, limit: Time, s: State, events: seq<Event>): Option<State>
    decreases |events|
  {
    if events == [] then Some(s)
    else
      match Next(c, limit, s, events[0])
      case None => None
      case Some(s') => After(c, limit, s', events[1..])
  }

  /** Nothing blocks the handshake: once Stop is called, an event other than the passing of time is possible. */
  lemma StopNeverBlocks(c: Config, limit: Time, t0: Time, lag: Time, states: seq<State>, events: seq<Event>, n: nat)
    requires Run(c, limit, t0, lag, states, events) && n < |states|
    requires states[n].caller.SendingDone? || states[n].caller.AwaitingExit?
    ensures Next(c, limit, states[n], DoneReceived).Some? || Next(c, limit, states[n], ExitReported).Some?
            || (states[n].loop.Extending? && Next(c, limit, states[n], ExtendSucceeds(states[n].now)).Some?
                && Next(c, limit, states[n], ExtendFails).Some?)
  {
    RunKeeps(c, limit, t0, lag, states, events, n);
  }

  /** The goroutine has taken `done`, or an extension has failed. */
  ghost predicate Ended(s: State) { s.caller.AwaitingExit? || s.caller.Stopped? || s.failures > 0 }

  ghost predicate NothingExtended(s: State, z: State) {
    && z.extensions == s.extensions && z.failures == s.failures && z.lease == s.lease
    && (s.caller.Stopped? ==> z.caller == s.caller)
  }

  lemma EndedStaysEnded(c: Config, limit: Time, s: State, e: Event, s': State)
    requires Coherent(s) && Ended(s) && Next(c, limit, s, e) == Some(s')
    ensures Ended(s') && NothingExtended(s, s')
  {
  }

  /** Once the goroutine has taken `done`, or an extension has failed, no extension happens any more. */
  lemma {:induction false} NoExtensionAfterwards(c: Config, limit: Time, t0: Time, lag: Time, states: seq<State>,
                                                 events: seq<Event>, m: nat, n: nat)
    requires Run(c, limit, t0, lag, states, events) && m <= n < |states| && Ended(states[m])
    ensures Ended(states[n]) && NothingExtended(states[m], states[n])
    decreases n
  {
    if m < n {
      NoExtensionAfterwards(c, limit, t0, lag, states, events, m, n - 1);
      RunKeeps(c, limit, t0, lag, states, events, n - 1);
      EndedStaysEnded(c, limit, states[n - 1], events[n - 1], states[n]);
    }
  }

  /** Stop returns an error exactly if an extension failed; calling it again changes nothing. */
  lemma StopReportsFailure(c: Config, limit: Time, t0: Time, lag: Time, states: seq<State>, events: seq<Event>, n: nat)
    requires Run(c, limit, t0, lag, states, events) && n < |states| && states[n].caller.Stopped?
    ensures states[n].caller.err <==> states[n].failures > 0
    ensures Next(c, limit, states[n], StopCalledAgain) == Some(states[n])
    ensures states[n].loop == Exited && states[n].nextTick == None
  {
    RunKeeps(c, limit, t0, lag, states, events, n);
  }
}
