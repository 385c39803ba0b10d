/**
 * The dashboard's self-reconnecting socket (`frontend/js/ws.js`): after the
 * socket closes on its own, a reconnect is scheduled after an exponential
 * back-off; a successful open resets the count; a deliberate `close()` stops
 * reconnecting for good. The timer is modelled as the delay it was set for,
 * and its expiry as an event; the browser socket is its ready state.
 */
module Reconnect {
  import opened Wrappers

  const DefaultBaseDelay := 1000
  const DefaultMaxDelay := 30000
  const DefaultMaxAttempts := 0

  datatype Ready = Connecting | Open | Closing | Closed

  /** The wrapper's state. `connects` counts the sockets opened so far. */
  datatype Socket = Socket(baseDelay: int, maxDelay: int, maxAttempts: int,
                           attempts: nat, timer: Option<int>, manualClose: bool,
                           ready: Ready, connects: nat)

  function Pow2(n: nat): (p: nat)
    ensures p >= 1
  {
    if n == 0 then 1 else 2 * Pow2(n - 1)
  }

  function Min(a: int, b: int): int {
    if a <= b then a else b
  }

  /** `Math.min(baseDelay * 2 ** attempts, maxDelay)`. */
  function Delay(baseDelay: int, maxDelay: int, attempts: nat): (d: int)
    ensures d <= maxDelay && d <= baseDelay * Pow2(attempts)
    ensures d == maxDelay || d == baseDelay * Pow2(attempts)
  {
    Min(baseDelay * Pow2(attempts), maxDelay)
  }

  /** Each further attempt doubles the wait until it reaches the cap. */
  lemma DelayDoubles(baseDelay: int, maxDelay: int, attempts: nat)
    requires maxDelay >= 0
    ensures Delay(baseDelay, maxDelay, attempts + 1) == Min(2 * Delay(baseDelay, maxDelay, attempts), maxDelay)
  {
    assert baseDelay * Pow2(attempts + 1) == 2 * (baseDelay * Pow2(attempts));
  }

  /** With a non-negative base, the wait never shrinks as attempts grow. */
  lemma {:induction false} DelayMonotone(baseDelay: int, maxDelay: int, a: nat, b: nat)
    requires baseDelay >= 0 && a <= b
    ensures Delay(baseDelay, maxDelay, a) <= Delay(baseDelay, maxDelay, b)
    decreases b - a
  {
    if a < b {
      DelayMonotone(baseDelay, maxDelay, a + 1, b);
      assert baseDelay * Pow2(a + 1) == 2 * (baseDelay * Pow2(a));
    }
  }

  /** Once `baseDelay * 2^attempts` passes the cap, the wait is the cap. */
  lemma DelayCapped(baseDelay: int, maxDelay: int, attempts: nat)
    requires baseDelay * Pow2(attempts) >= maxDelay
    ensures Delay(baseDelay, maxDelay, attempts) == maxDelay
  {
  }

  /** `_connect`: a new socket, still connecting. */
  function Connect(s: Socket): (s': Socket)
    ensures s'.ready == Connecting && s'.connects == s.connects + 1
    ensures s'.timer == s.timer && s'.attempts == s.attempts && s'.manualClose == s.manualClose
  {
    s.(ready := Connecting, connects := s.connects + 1)
  }

  /** `new ReconnectingWebSocket(url, options)`: the options or their
      defaults (`??` keeps a given zero), no attempts, no timer, and a first
      connection under way. */
  function New(baseDelay: Option<int>, maxDelay: Option<int>, maxAttempts: Option<int>): (s: Socket)
    ensures s.attempts == 0 && s.timer.None? && !s.manualClose
    ensures s.ready == Connecting && s.connects == 1
    ensures s.baseDelay == (if baseDelay.Some? then baseDelay.value else DefaultBaseDelay)
    ensures s.maxDelay == (if maxDelay.Some? then maxDelay.value else DefaultMaxDelay)
    ensures s.maxAttempts == (if maxAttempts.Some? then maxAttempts.value else DefaultMaxAttempts)
  {
    Connect(Socket(baseDelay.GetOr(DefaultBaseDelay), maxDelay.GetOr(DefaultMaxDelay),
                   maxAttempts.GetOr(DefaultMaxAttempts), 0, None, false, Closed, 0))
  }

  /** The retry budget is spent: a non-zero `maxAttempts` reached. */
  predicate Exhausted(s: Socket) {
    s.maxAttempts != 0 && s.attempts >= s.maxAttempts
  }

  /** `_scheduleReconnect`: nothing while a timer is pending or once the
      budget is spent; otherwise a timer for the current back-off. */
  function ScheduleReconnect(s: Socket): (s': Socket)
    ensures s.timer.Some? || Exhausted(s) ==> s' == s
    ensures s.timer.None? && !Exhausted(s) ==>
      s' == s.(timer := Some(Delay(s.baseDelay, s.maxDelay, s.attempts)))
  {
    if s.timer.Some? then s
    else if Exhausted(s) then s
    else s.(timer := Some(Delay(s.baseDelay, s.maxDelay, s.attempts)))
  }

  /** `_clearTimer`. */
  function ClearTimer(s: Socket): (s': Socket)
    ensures s'.timer.None? && s'.ready == s.ready && s'.attempts == s.attempts
  {
    s.(timer := None)
  }

  /** The timer expires: one more attempt is counted and a new socket opened.
      A cleared timer never fires, so with none pending nothing happens. */
  function TimerFires(s: Socket): (s': Socket)
    ensures s.timer.None? ==> s' == s
    ensures s.timer.Some? ==>
      s'.attempts == s.attempts + 1 && s'.timer.None? && s'.connects == s.connects + 1
      && s'.ready == Connecting && s'.manualClose == s.manualClose
  {
    if s.timer.None? then s
    else Connect(s.(attempts := s.attempts + 1, timer := None))
  }

  /** The socket's `onopen`: the count starts over and any timer is cleared. */
  function Opened(s: Socket): (s': Socket)
    ensures s'.attempts == 0 && s'.timer.None? && s'.ready == Open
    ensures s'.manualClose == s.manualClose && s'.connects == s.connects
  {
    ClearTimer(s.(attempts := 0, ready := Open))
  }

  /** The socket's `onclose`: reconnect unless the close was asked for. */
  function Dropped(s: Socket): (s': Socket)
    ensures s.manualClose ==> s' == s.(ready := Closed)
    ensures !s.manualClose ==> s' == ScheduleReconnect(s.(ready := Closed))
  {
    var s1 := s.(ready := Closed);
    if s1.manualClose then s1 else ScheduleReconnect(s1)
  }

  /** `close()`: no more reconnecting, no pending timer, and the socket
      starts closing. */
  function Close(s: Socket): (s': Socket)
    ensures s'.manualClose && s'.timer.None?
    ensures s'.ready == (if s.ready == Closed then Closed else Closing)
    ensures s'.attempts == s.attempts && s'.connects == s.connects
  {
    ClearTimer(s.(manualClose := true, ready := if s.ready == Closed then Closed else Closing))
  }

  /** `send`: the data goes out only on an open socket; otherwise it is dropped. */
  function Send(s: Socket, data: string): (sent: Option<string>)
    ensures sent.Some? <==> s.ready == Open
    ensures sent.Some? ==> sent.value == data
  {
    if s.ready == Open then Some(data) else None
  }

  /** What can happen to the wrapper. */
  datatype Event = OpenEvent | CloseEvent | TimerEvent | CloseCalled

  function Step(s: Socket, e: Event): Socket {
    match e
    case OpenEvent => Opened(s)
    case CloseEvent => Dropped(s)
    case TimerEvent => TimerFires(s)
    case CloseCalled => Close(s)
  }

  function Run(s: Socket, events: seq<Event>): Socket
    decreases |events|
  {
    if |events| == 0 then s else Run(Step(s, events[0]), events[1..])
  }

  /** After `close()`, whatever happens, no timer is ever set again and no
      new socket is ever opened. */
  lemma {:induction false} ClosedStaysClosed(s: Socket, events: seq<Event>)
    requires s.manualClose && s.timer.None?
    ensures Run(s, events).manualClose && Run(s, events).timer.None?
    ensures Run(s, events).connects == s.connects
    decreases |events|
  {
    if |events| > 0 {
      var s1 := Step(s, events[0]);
      assert s1.manualClose && s1.timer.None? && s1.connects == s.connects;
      ClosedStaysClosed(s1, events[1..]);
    }
  }

  /** `close()` ends reconnecting: whatever the state before it and whatever
      happens after it, no timer is pending and no socket is opened again. */
  lemma CloseStopsReconnecting(s: Socket, events: seq<Event>)
    ensures Run(Close(s), events).timer.None? && Run(Close(s), events).connects == s.connects
  {
    ClosedStaysClosed(Close(s), events);
  }

  /** A socket that drops by itself, with retries left, reconnects after
      `Delay` as the timer fires, counting the attempt. */
  lemma DropReconnects(s: Socket)
    requires !s.manualClose && s.timer.None? && !Exhausted(s)
    ensures Dropped(s).timer == Some(Delay(s.baseDelay, s.maxDelay, s.attempts))
    ensures var t := TimerFires(Dropped(s));
      t.ready == Connecting && t.attempts == s.attempts + 1 && t.connects == s.connects + 1
  {
  }

  /** The options' limits never change after construction. */
  predicate SameOptions(s: Socket, t: Socket) {
    s.baseDelay == t.baseDelay && s.maxDelay == t.maxDelay && s.maxAttempts == t.maxAttempts
  }

  /** A pending timer is never set for longer than `maxDelay`, and with a
      positive `maxAttempts` the count stays within it. */
  predicate Sound(s: Socket) {
    && (s.timer.Some? ==> s.timer.value <= s.maxDelay)
    && (s.maxAttempts > 0 ==> s.attempts <= s.maxAttempts)
    && (s.maxAttempts > 0 && s.timer.Some? ==> s.attempts < s.maxAttempts)
  }

  lemma StepSound(s: Socket, e: Event)
    requires Sound(s)
    ensures Sound(Step(s, e)) && SameOptions(s, Step(s, e))
  {
  }

  /** From any sound state the wrapper stays sound: a reconnect never waits
      longer than `maxDelay`, and a positive `maxAttempts` bounds the
      retries since the last successful open. */
  lemma {:induction false} AlwaysSound(s: Socket, events: seq<Event>)
    requires Sound(s)
    ensures Sound(Run(s, events)) && SameOptions(s, Run(s, events))
    decreases |events|
  {
    if |events| > 0 {
      StepSound(s, events[0]);
      AlwaysSound(Step(s, events[0]), events[1..]);
    }
  }

  /** A fresh wrapper is sound whenever `maxAttempts` is not negative. */
  lemma NewIsSound(baseDelay: Option<int>, maxDelay: Option<int>, maxAttempts: Option<int>)
    requires maxAttempts.Some? ==> maxAttempts.value >= 0
    ensures Sound(New(baseDelay, maxDelay, maxAttempts))
  {
  }
}
