/**
 * The listener object itself (class HttpServer): its fields, the registry
 * methods, the event firing loops and the `run` loop, each proved against
 * the functions of Registry and Session.
 */
module Server {
  import opened Wrappers
  import opened QueryParsing
  import opened Registry
  import opened Session

  class HttpServer {
    var authListeners: seq<ListenerId>
    var running: bool
    const port: int
    const timeoutSeconds: int
    /** The callbacks made so far, in order; the listeners' own code is not modelled. */
    var log: seq<Delivery>

    /** Listeners are never registered twice, and the timeout is a Java `int`. */
    ghost predicate Valid()
      reads this
    {
      NoDup(authListeners) && -TwoTo31 <= timeoutSeconds < TwoTo31
    }

    /** The loop's state as Session sees it, with the run's local `authCode`. */
    function Snapshot(authCode: Option<string>): State
      reads this
    {
      State(running, authCode, authListeners, log)
    }

    constructor (listenerPort: int, timeoutSeconds: int)
      requires -TwoTo31 <= timeoutSeconds < TwoTo31
      ensures Valid()
      ensures running && authListeners == [] && log == []
      ensures port == listenerPort && this.timeoutSeconds == timeoutSeconds
    {
      authListeners := [];
      running := true;
      port := listenerPort;
      this.timeoutSeconds := timeoutSeconds;
      log := [];
    }

    method SetRunning(value: bool)
      modifies this
      ensures running == value
      ensures authListeners == old(authListeners) && log == old(log)
    {
      running := value;
    }

    method AddAuthCodeListener(l: ListenerId)
      requires Valid()
      modifies this
      ensures Valid()
      ensures authListeners == Added(old(authListeners), l)
      ensures running == old(running) && log == old(log)
    {
      if l !in authListeners {
        authListeners := authListeners + [l];
      }
    }

    method RemoveAuthCodeListener(l: ListenerId)
      requires Valid()
      modifies this
      ensures Valid()
      ensures authListeners == RemoveFirst(old(authListeners), l) == Without(old(authListeners), l)
      ensures running == old(running) && log == old(log)
    {
      RemoveKeepsOthersInOrder(authListeners, l);
      if l in authListeners {
        authListeners := RemoveFirst(authListeners, l);
      }
    }

    /** Removes the element at index 0 until the list is empty. */
    method RemoveAllAuthCodeListeners()
      modifies this
      ensures authListeners == []
      ensures running == old(running) && log == old(log)
    {
      while |authListeners| > 0
        invariant running == old(running) && log == old(log)
        decreases |authListeners|
      {
        authListeners := authListeners[1..];
      }
    }

    /** The loop shared by both fire methods: one callback per listener, in list order. */
    method Notify(o: Outcome)
      modifies this
      ensures log == old(log) + Deliver(authListeners, o)
      ensures authListeners == old(authListeners) && running == old(running)
    {
      var i := 0;
      while i < |authListeners|
        invariant 0 <= i <= |authListeners|
        invariant authListeners == old(authListeners) && running == old(running)
        invariant log == old(log) + Deliver(authListeners[..i], o)
      {
        assert Deliver(authListeners[..i + 1], o) == Deliver(authListeners[..i], o) + [Delivery(authListeners[i], o)];
        log := log + [Delivery(authListeners[i], o)];
        i := i + 1;
      }
      assert authListeners[..i] == authListeners;
    }

    method FireAuthCodeEvent(code: string)
      modifies this
      ensures log == old(log) + Deliver(authListeners, CodeReceived(code))
      ensures authListeners == old(authListeners) && running == old(running)
    {
      Notify(CodeReceived(code));
    }

    method FireTimedOutEvent()
      modifies this
      ensures log == old(log) + Deliver(authListeners, TimedOut)
      ensures authListeners == old(authListeners) && running == old(running)
    {
      Notify(TimedOut);
    }

    /**
     * `run()` over a trace of events. `bound` says whether the server socket
     * could be bound; `start` is the clock when the loop begins. Returns
     * whether `run()` returned within the trace (if not, the loop is still
     * waiting for the next event).
     */
    method Run(events: seq<Event>, bound: bool, start: int) returns (returned: bool)
      requires Valid()
      modifies this
      ensures Valid()
      ensures var t := Session.Run(old(Snapshot(None)), events, bound, Deadline(start, timeoutSeconds));
        running == t.running && authListeners == t.listeners && log == t.log
      ensures returned == ReturnsWithin(old(Snapshot(None)), events, bound, Deadline(start, timeoutSeconds))
    {
      if !bound {
        RemoveAllAuthCodeListeners();
        return true;
      }
      var authCode: Option<string> := None;
      var deadline := start + Wrap32(timeoutSeconds * 1000);
      ghost var s0 := Snapshot(None);
      var i := 0;
      while running && i < |events|
        invariant 0 <= i <= |events|
        invariant Valid()
        invariant Drive(Snapshot(authCode), events[i..], deadline) == Drive(s0, events, deadline)
      {
        ghost var before := Snapshot(authCode);
        match events[i] {
          case Conn(request, fails) =>
            var thrown := false;
            if request.Some? {
              var r := GetAuthCode(request.value);
              match r {
                case Failed => thrown := true;
                case NoCode => authCode := None;
                case Code(c) => authCode := Some(c);
              }
              thrown := thrown || fails;
            }
            if !thrown && authCode.Some? {
              running := false;
            }
          case ConnError =>
          case AcceptTimeout(now) =>
            if now > deadline {
              running := false;
              FireTimedOutEvent();
            }
          case Stop =>
            SetRunning(false);
          case Register(l) =>
            AddAuthCodeListener(l);
          case Unregister(l) =>
            RemoveAuthCodeListener(l);
        }
        assert Snapshot(authCode) == Step(before, events[i], deadline);
        assert events[i..][1..] == events[i + 1..];
        i := i + 1;
      }
      returned := !running;
      if !running {
        if authCode.Some? {
          FireAuthCodeEvent(authCode.value);
        }
        RemoveAllAuthCodeListeners();
      }
    }
  }
}
