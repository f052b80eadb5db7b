/**
 * The run loop of HttpServer (`run`, HttpServer.java lines 53-153) as a
 * state machine over abstract events. Sockets are replaced by what the loop
 * observes of them; calls made from other threads (`setRunning(false)`,
 * registering and unregistering listeners) appear in the same trace,
 * each taking effect between two iterations of the loop.
 */
module Session {
  import opened Wrappers
  import opened QueryParsing
  import opened Registry

  /** What one turn of the loop sees, or a call from another thread. */
  datatype Event =
    | Conn(request: Option<string>, responseFails: bool)
      // accept() returned a connection; request is readLine() (None: end of
      // input); responseFails: writing the page or draining the headers throws
    | ConnError            // accept() or the first readLine() throws something else
    | AcceptTimeout(now: int)  // accept() timed out; now is the clock in milliseconds
    | Stop                 // setRunning(false)
    | Register(listener: ListenerId)    // addAuthCodeListener
    | Unregister(listener: ListenerId)  // removeAuthCodeListener

  /** The loop's state: the `running` field, the local `authCode`, the listeners and the callbacks made. */
  datatype State = State(running: bool, authCode: Option<string>, listeners: seq<ListenerId>, log: seq<Delivery>)

  /** A connection that reads a code and then throws while answering: the code is left pending. */
  predicate Faulty(e: Event) {
    e.Conn? && e.responseFails && e.request.Some? && AuthCodeOf(e.request.value).Code?
  }

  /** No connection in the trace fails after its code was read. */
  predicate NoFaults(events: seq<Event>) {
    forall i :: 0 <= i < |events| ==> !Faulty(events[i])
  }

  /** While the loop runs no code is pending: the invariant of fault-free traces. */
  predicate Quiet(s: State) {
    s.running ==> s.authCode.None?
  }

  const TwoTo31: int := 0x8000_0000
  const TwoTo32: int := 0x1_0000_0000

  /** Java `int` arithmetic: the value modulo 2^32, read as a signed 32-bit number. */
  function Wrap32(x: int): (r: int)
    ensures -TwoTo31 <= r < TwoTo31
    ensures (x - r) % TwoTo32 == 0
    ensures -TwoTo31 <= x < TwoTo31 ==> r == x
  {
    var m := x % TwoTo32;
    if m >= TwoTo31 then m - TwoTo32 else m
  }

  /**
   * `System.currentTimeMillis() + (timeoutSeconds*1000)`: the product is
   * computed in `int`, so it wraps for more than 2147483 seconds.
   */
  function Deadline(start: int, timeoutSeconds: int): (r: int)
    requires -TwoTo31 <= timeoutSeconds < TwoTo31
    ensures 0 <= timeoutSeconds <= 2147483 ==> r == start + timeoutSeconds * 1000
  {
    start + Wrap32(timeoutSeconds * 1000)
  }

  /** A timeout of 2147484 seconds wraps to a deadline in the past. */
  lemma DeadlineOverflow(start: int)
    ensures Deadline(start, 2147484) == start - 2147483296
  {
    assert 2147484 * 1000 - TwoTo32 == -2147483296;
  }

  /** One event, applied while the loop runs. */
  function Step(s: State, e: Event, deadline: int): (t: State)
    ensures t.running ==> s.running
    ensures t.log == s.log || (e.AcceptTimeout? && !t.running && t.log == s.log + Deliver(s.listeners, TimedOut))
    ensures NoDup(s.listeners) ==> NoDup(t.listeners)
    ensures Quiet(s) && !Faulty(e) ==> Quiet(t)
  {
    match e
    case Conn(None, _) =>
      // no line: nothing written; a code left by an earlier failed turn ends the loop
      if s.authCode.Some? then s.(running := false) else s
    case Conn(Some(line), fails) =>
      (match AuthCodeOf(line)
       case Failed => s  // getAuthCode threw: authCode keeps its value
       case NoCode => s.(authCode := None)
       case Code(c) =>
         if fails then s.(authCode := Some(c))  // the exception skips `running = false`
         else s.(authCode := Some(c), running := false))
    case ConnError => s
    case AcceptTimeout(now) =>
      if now > deadline then s.(running := false, log := s.log + Deliver(s.listeners, TimedOut))
      else s
    case Stop => s.(running := false)
    case Register(l) =>
      s.(listeners := Added(s.listeners, l))
    case Unregister(l) =>
      RemoveKeepsOthersInOrder(if NoDup(s.listeners) then s.listeners else [], l);
      s.(listeners := RemoveFirst(s.listeners, l))
  }

  /** `while (running)`: events are consumed until the loop stops or the trace ends. */
  function Drive(s: State, events: seq<Event>, deadline: int): (t: State)
    decreases |events|
    ensures t.running ==> s.running
    ensures s.log <= t.log
    ensures NoDup(s.listeners) ==> NoDup(t.listeners)
  {
    if !s.running || events == [] then s
    else Drive(Step(s, events[0], deadline), events[1..], deadline)
  }

  /** After the loop: the auth-code event if a code is pending, then `removeAllAuthCodeListeners`. */
  function Finish(s: State): (t: State)
    ensures t.listeners == []
    ensures t.running == s.running && t.authCode == s.authCode
    ensures t.log == s.log + if s.authCode.Some? then Deliver(s.listeners, CodeReceived(s.authCode.value)) else []
  {
    var log := if s.authCode.Some? then s.log + Deliver(s.listeners, CodeReceived(s.authCode.value)) else s.log;
    State(s.running, s.authCode, [], log)
  }

  /**
   * `run()`: when the server socket cannot be bound the exception is caught
   * and only the listeners are cleared; otherwise the loop runs, and if it
   * stops within the trace the post-loop actions follow.
   */
  function Run(s: State, events: seq<Event>, bound: bool, deadline: int): (t: State)
    ensures ReturnsWithin(s, events, bound, deadline) ==> t.listeners == []
  {
    if !bound then s.(listeners := [])
    else
      var u := Drive(s, events, deadline);
      if u.running then u else Finish(u)
  }

  /** `run()` returns within the trace: binding failed, or the loop stopped. */
  predicate ReturnsWithin(s: State, events: seq<Event>, bound: bool, deadline: int) {
    !bound || !Drive(s, events, deadline).running
  }

  /** Running the loop over two traces in turn is running it over their concatenation. */
  lemma {:induction false} DriveAppend(s: State, a: seq<Event>, b: seq<Event>, deadline: int)
    ensures Drive(s, a + b, deadline) == Drive(Drive(s, a, deadline), b, deadline)
    decreases |a|
  {
    if a == [] {
      assert a + b == b;
    } else if s.running {
      assert (a + b)[0] == a[0] && (a + b)[1..] == a[1..] + b;
      DriveAppend(Step(s, a[0], deadline), a[1..], b, deadline);
    }
  }

  /**
   * Without faulty connections the loop ends in one of two ways: nothing was
   * delivered, or it stopped on a timeout having told exactly the listeners
   * registered at that moment; no code is pending in the second case.
   */
  lemma {:induction false} DriveFaultFree(s: State, events: seq<Event>, deadline: int)
    requires Quiet(s) && NoFaults(events)
    ensures Quiet(Drive(s, events, deadline))
    ensures var t := Drive(s, events, deadline);
      t.log == s.log || (!t.running && t.authCode.None? && t.log == s.log + Deliver(t.listeners, TimedOut))
    decreases |events|
  {
    if s.running && events != [] {
      var u := Step(s, events[0], deadline);
      assert !Faulty(events[0]);
      if u.running {
        assert u.log == s.log;
        assert NoFaults(events[1..]) by {
          assert forall i :: 0 <= i < |events[1..]| ==> events[1..][i] == events[i + 1];
        }
        DriveFaultFree(u, events[1..], deadline);
      }
    }
  }

  /** A trace in which every listener that is told anything is told one and the same outcome, once. */
  predicate OneOutcome(ds: seq<Delivery>) {
    forall i, j :: 0 <= i < j < |ds| ==> ds[i].outcome == ds[j].outcome && ds[i].listener != ds[j].listener
  }

  /** The deliveries to a list without duplicates form a single outcome. */
  lemma DeliverIsOneOutcome(ls: seq<ListenerId>, o: Outcome)
    requires NoDup(ls)
    ensures OneOutcome(Deliver(ls, o))
  {
  }

  /**
   * Without faulty connections one run tells its listeners at most one
   * outcome: never both events, and no listener twice.
   */
  lemma AtMostOneOutcome(s: State, events: seq<Event>, deadline: int)
    requires s.running && s.authCode.None? && NoDup(s.listeners) && NoFaults(events)
    ensures s.log <= Run(s, events, true, deadline).log
    ensures OneOutcome(Run(s, events, true, deadline).log[|s.log|..])
  {
    var u := Drive(s, events, deadline);
    var t := Run(s, events, true, deadline);
    DriveFaultFree(s, events, deadline);
    if u.log == s.log {
      if !u.running && u.authCode.Some? {
        assert t.log[|s.log|..] == Deliver(u.listeners, CodeReceived(u.authCode.value));
        DeliverIsOneOutcome(u.listeners, CodeReceived(u.authCode.value));
      } else {
        assert t.log[|s.log|..] == [];
      }
    } else {
      assert t.log[|s.log|..] == Deliver(u.listeners, TimedOut);
      DeliverIsOneOutcome(u.listeners, TimedOut);
    }
  }

  /**
   * A connection whose line yields a code stops the loop: whatever follows in
   * the trace is never read, the listeners registered at that moment each
   * get the code, and the registry is emptied.
   */
  lemma CodeEndsRun(s: State, before: seq<Event>, line: string, after: seq<Event>, deadline: int, c: string)
    requires Drive(s, before, deadline).running
    requires AuthCodeOf(line) == Code(c)
    ensures var u := Drive(s, before, deadline);
      Run(s, before + [Conn(Some(line), false)] + after, true, deadline)
        == State(false, Some(c), [], u.log + Deliver(u.listeners, CodeReceived(c)))
  {
    var u := Drive(s, before, deadline);
    DriveAppend(s, before, [Conn(Some(line), false)] + after, deadline);
    assert before + [Conn(Some(line), false)] + after == before + ([Conn(Some(line), false)] + after);
  }

  /**
   * Over the whole run, a listener registered when the code arrives is told
   * exactly once more than before; one that is not registered then is not told.
   */
  lemma CodeToldOncePerListener(s: State, before: seq<Event>, line: string, after: seq<Event>, deadline: int, c: string, l: ListenerId)
    requires NoDup(s.listeners)
    requires Drive(s, before, deadline).running
    requires AuthCodeOf(line) == Code(c)
    ensures var u := Drive(s, before, deadline);
      Notifications(Run(s, before + [Conn(Some(line), false)] + after, true, deadline).log, l)
        == Notifications(u.log, l) + if l in u.listeners then 1 else 0
  {
    var u := Drive(s, before, deadline);
    CodeEndsRun(s, before, line, after, deadline, c);
    NotificationsAppend(u.log, Deliver(u.listeners, CodeReceived(c)), l);
    DeliveredOncePerListener(u.listeners, CodeReceived(c), l);
  }

  /**
   * An accept timeout after the deadline, with no code pending, stops the
   * loop and tells every listener once that the wait timed out; the
   * auth-code event does not follow.
   */
  lemma LateTimeoutEndsRun(s: State, before: seq<Event>, now: int, after: seq<Event>, deadline: int)
    requires Drive(s, before, deadline).running && Drive(s, before, deadline).authCode.None?
    requires now > deadline
    ensures var u := Drive(s, before, deadline);
      Run(s, before + [AcceptTimeout(now)] + after, true, deadline)
        == State(false, None, [], u.log + Deliver(u.listeners, TimedOut))
  {
    DriveAppend(s, before, [AcceptTimeout(now)] + after, deadline);
    assert before + [AcceptTimeout(now)] + after == before + ([AcceptTimeout(now)] + after);
  }

  /** `setRunning(false)` with no code pending ends the run without telling anyone anything. */
  lemma StopIsSilent(s: State, before: seq<Event>, after: seq<Event>, deadline: int)
    requires Drive(s, before, deadline).running && Drive(s, before, deadline).authCode.None?
    ensures var u := Drive(s, before, deadline);
      Run(s, before + [Stop] + after, true, deadline) == u.(running := false, listeners := [])
  {
    DriveAppend(s, before, [Stop] + after, deadline);
    assert before + [Stop] + after == before + ([Stop] + after);
  }

  /**
   * With no code pending, these events leave the state as it was and can be
   * dropped from the trace: an empty read, a failed connection, a line
   * without a code or one that fails to parse, and a timeout before the
   * deadline.
   */
  predicate Inert(e: Event, deadline: int) {
    match e
    case Conn(None, _) => true
    case Conn(Some(line), _) => !AuthCodeOf(line).Code?
    case ConnError => true
    case AcceptTimeout(now) => now <= deadline
    case _ => false
  }

  lemma InertEventsChangeNothing(s: State, e: Event, rest: seq<Event>, deadline: int)
    requires s.running && s.authCode.None? && Inert(e, deadline)
    ensures Drive(s, [e] + rest, deadline) == Drive(s, rest, deadline)
  {
    assert ([e] + rest)[1..] == rest;
  }

  /**
   * As written, a connection whose code is read but whose response then
   * fails leaves the code pending with the loop still running; a later
   * timeout past the deadline then fires the timed-out event inside the
   * loop and the auth-code event after it, to the same listener.
   */
  lemma BothOutcomesAfterFailedResponse(l: ListenerId, c: string, deadline: int)
    requires c != "" && '&' !in c && '=' !in c
    ensures var line := Start + "code=" + c + End;
      Run(State(true, None, [l], []), [Conn(Some(line), true), AcceptTimeout(deadline + 1)], true, deadline).log
        == [Delivery(l, TimedOut), Delivery(l, CodeReceived(c))]
  {
    var line := Start + "code=" + c + End;
    SingleCodeParameter(c);
    var s0 := State(true, None, [l], []);
    var events := [Conn(Some(line), true), AcceptTimeout(deadline + 1)];
    var s1 := Step(s0, events[0], deadline);
    assert s1 == State(true, Some(c), [l], []);
    var s2 := Step(s1, events[1], deadline);
    assert s2 == State(false, Some(c), [l], [Delivery(l, TimedOut)]);
    assert Drive(s0, events, deadline) == Drive(s1, events[1..], deadline);
    assert events[1..][1..] == [];
    assert Drive(s1, events[1..], deadline) == s2;
  }

  /**
   * A code left pending by a failed response is delivered when the loop is
   * later stopped from outside.
   */
  lemma PendingCodeDeliveredOnStop(l: ListenerId, c: string, deadline: int)
    requires c != "" && '&' !in c && '=' !in c
    ensures var line := Start + "code=" + c + End;
      Run(State(true, None, [l], []), [Conn(Some(line), true), Stop], true, deadline).log
        == [Delivery(l, CodeReceived(c))]
  {
    var line := Start + "code=" + c + End;
    SingleCodeParameter(c);
    var s0 := State(true, None, [l], []);
    var events := [Conn(Some(line), true), Stop];
    var s1 := Step(s0, events[0], deadline);
    assert s1 == State(true, Some(c), [l], []);
    var s2 := Step(s1, events[1], deadline);
    assert s2 == State(false, Some(c), [l], []);
    assert Drive(s0, events, deadline) == Drive(s1, events[1..], deadline);
    assert events[1..][1..] == [];
    assert Drive(s1, events[1..], deadline) == s2;
  }

  /**
   * A code left pending by a failed response is lost when a later request
   * line carries no code (a favicon request, say): `authCode` is overwritten
   * with null, and a late timeout then fires only the timed-out event.
   */
  lemma PendingCodeLostOnCodelessLine(l: ListenerId, c: string, other: string, deadline: int)
    requires c != "" && '&' !in c && '=' !in c
    requires AuthCodeOf(other) == NoCode
    ensures var line := Start + "code=" + c + End;
      Run(State(true, None, [l], []), [Conn(Some(line), true), Conn(Some(other), false), AcceptTimeout(deadline + 1)], true, deadline).log
        == [Delivery(l, TimedOut)]
  {
    var line := Start + "code=" + c + End;
    SingleCodeParameter(c);
    var s0 := State(true, None, [l], []);
    var events := [Conn(Some(line), true), Conn(Some(other), false), AcceptTimeout(deadline + 1)];
    var s1 := Step(s0, events[0], deadline);
    assert s1 == State(true, Some(c), [l], []);
    var s2 := Step(s1, events[1], deadline);
    assert s2 == State(true, None, [l], []);
    var s3 := Step(s2, events[2], deadline);
    assert s3 == State(false, None, [l], [Delivery(l, TimedOut)]);
    assert Drive(s0, events, deadline) == Drive(s1, events[1..], deadline);
    assert events[1..][1..] == events[2..];
    assert Drive(s1, events[1..], deadline) == Drive(s2, events[2..], deadline);
    assert events[2..][1..] == [];
    assert Drive(s2, events[2..], deadline) == s3;
  }
}
