/**
 * The listener registry of HttpServer (`authListeners`) and the delivery of
 * events to it. Listener callbacks are foreign code: a delivery is recorded
 * as a (listener, outcome) entry in a log.
 */
module Registry {

  /** An opaque listener handle; the list compares handles by identity. */
  type ListenerId = nat

  /** The two events a listener can be told about. */
  datatype Outcome = CodeReceived(code: string) | TimedOut

  /** One callback: `listener.authCodeReceived(evt)` or `listener.timedOut(obj)`. */
  datatype Delivery = Delivery(listener: ListenerId, outcome: Outcome)

  /** No listener appears twice. */
  predicate NoDup(ls: seq<ListenerId>) {
    forall i, j :: 0 <= i < j < |ls| ==> ls[i] != ls[j]
  }

  /** `addAuthCodeListener`: appends the listener unless it is already there. */
  function Added(ls: seq<ListenerId>, l: ListenerId): (r: seq<ListenerId>)
    ensures l in r
    ensures forall x :: x in r <==> x in ls || x == l
    ensures ls <= r
    ensures NoDup(ls) ==> NoDup(r)
  {
    if l in ls then ls else ls + [l]
  }

  /** Adding a listener a second time changes nothing. */
  lemma AddIsIdempotent(ls: seq<ListenerId>, l: ListenerId)
    ensures Added(Added(ls, l), l) == Added(ls, l)
  {
  }

  /** `List.remove(Object)`: deletes the first element equal to `l`, if any. */
  function RemoveFirst(ls: seq<ListenerId>, l: ListenerId): (r: seq<ListenerId>)
    ensures l !in ls ==> r == ls
    ensures l in ls ==> |r| == |ls| - 1
    ensures multiset(r) == multiset(ls) - multiset{l}
  {
    if ls == [] then []
    else if ls[0] == l then
      assert ls == [ls[0]] + ls[1..];
      ls[1..]
    else
      assert ls == [ls[0]] + ls[1..];
      [ls[0]] + RemoveFirst(ls[1..], l)
  }

  /** Reference definition: the list with `l` filtered out, the others in their order. */
  function Without(ls: seq<ListenerId>, l: ListenerId): (r: seq<ListenerId>)
    ensures l !in r
    ensures forall x :: x != l ==> (x in r <==> x in ls)
  {
    if ls == [] then []
    else (if ls[0] == l then [] else [ls[0]]) + Without(ls[1..], l)
  }

  /** Filtering out an absent element leaves the list as it is. */
  lemma {:induction false} WithoutAbsent(ls: seq<ListenerId>, l: ListenerId)
    requires l !in ls
    ensures Without(ls, l) == ls
  {
    if ls != [] {
      WithoutAbsent(ls[1..], l);
      assert ls == [ls[0]] + ls[1..];
    }
  }

  /**
   * `removeAuthCodeListener`: on a list without duplicates, removing the
   * first occurrence removes the listener altogether and keeps the others
   * in their order; the list stays free of duplicates.
   */
  lemma {:induction false} RemoveKeepsOthersInOrder(ls: seq<ListenerId>, l: ListenerId)
    requires NoDup(ls)
    ensures RemoveFirst(ls, l) == Without(ls, l)
    ensures NoDup(RemoveFirst(ls, l))
  {
    if ls != [] {
      assert NoDup(ls[1..]);
      if ls[0] == l {
        assert l !in ls[1..];
        WithoutAbsent(ls[1..], l);
      } else {
        RemoveKeepsOthersInOrder(ls[1..], l);
      }
    }
    WithoutKeepsNoDup(ls, l);
  }

  /** Filtering cannot introduce a duplicate. */
  lemma {:induction false} WithoutKeepsNoDup(ls: seq<ListenerId>, l: ListenerId)
    requires NoDup(ls)
    ensures NoDup(Without(ls, l))
  {
    if ls != [] {
      assert NoDup(ls[1..]);
      WithoutKeepsNoDup(ls[1..], l);
      var rest := Without(ls[1..], l);
      assert ls[0] !in ls[1..];
      assert ls[0] !in rest;
      if ls[0] != l {
        var r := [ls[0]] + rest;
        forall i, j | 0 <= i < j < |r| ensures r[i] != r[j] {
          if i > 0 {
            assert r[i] == rest[i - 1] && r[j] == rest[j - 1];
          } else {
            assert r[j] == rest[j - 1];
          }
        }
      }
    }
  }

  /** `fire*Event`: one delivery per registered listener, in list order. */
  function Deliver(ls: seq<ListenerId>, o: Outcome): (r: seq<Delivery>)
    ensures |r| == |ls|
    ensures forall i :: 0 <= i < |ls| ==> r[i] == Delivery(ls[i], o)
  {
    if ls == [] then [] else [Delivery(ls[0], o)] + Deliver(ls[1..], o)
  }

  /** How many callbacks `l` has received in `log`. */
  function Notifications(log: seq<Delivery>, l: ListenerId): nat
  {
    if log == [] then 0
    else (if log[0].listener == l then 1 else 0) + Notifications(log[1..], l)
  }

  /** Counting callbacks distributes over a log that grows by appending. */
  lemma {:induction false} NotificationsAppend(a: seq<Delivery>, b: seq<Delivery>, l: ListenerId)
    ensures Notifications(a + b, l) == Notifications(a, l) + Notifications(b, l)
  {
    if a == [] {
      assert a + b == b;
    } else {
      NotificationsAppend(a[1..], b, l);
      assert (a + b)[1..] == a[1..] + b;
    }
  }

  /** Each registered listener is told exactly once; an unregistered one never. */
  lemma {:induction false} DeliveredOncePerListener(ls: seq<ListenerId>, o: Outcome, l: ListenerId)
    requires NoDup(ls)
    ensures Notifications(Deliver(ls, o), l) == if l in ls then 1 else 0
  {
    if ls != [] {
      assert NoDup(ls[1..]);
      DeliveredOncePerListener(ls[1..], o, l);
      assert Deliver(ls, o)[1..] == Deliver(ls[1..], o);
      assert ls == [ls[0]] + ls[1..];
    }
  }

  /** A listener registered twice still receives exactly one callback. */
  lemma RegisteredTwiceNotifiedOnce(ls: seq<ListenerId>, l: ListenerId, o: Outcome)
    requires NoDup(ls)
    ensures Notifications(Deliver(Added(Added(ls, l), l), o), l) == 1
  {
    DeliveredOncePerListener(Added(Added(ls, l), l), o, l);
  }

  /** A listener unregistered before the outcome receives no callback. */
  lemma UnregisteredNotNotified(ls: seq<ListenerId>, l: ListenerId, o: Outcome)
    requires NoDup(ls)
    ensures Notifications(Deliver(RemoveFirst(ls, l), o), l) == 0
  {
    RemoveKeepsOthersInOrder(ls, l);
    DeliveredOncePerListener(RemoveFirst(ls, l), o, l);
  }
}
