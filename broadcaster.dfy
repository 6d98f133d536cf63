/**
 * ModelMutatedBroadcaster: the model's list of listeners and the order in which they are
 * notified. Listeners are opaque handles compared by equality; the notifications they would
 * receive are recorded in a ghost trace instead of being delivered.
 */
module Broadcast {
  /** A listener handle (a controller in the running program). */
  type Listener = nat

  /** One notification delivered to one listener. */
  datatype Event = UpdateView(to: Listener) | NextPlayerTurn(to: Listener) | EndGame(to: Listener)

  /** The position of the first occurrence of x in s. */
  function FirstIndex(s: seq<Listener>, x: Listener): (i: nat)
    requires x in s
    ensures i < |s| && s[i] == x && x !in s[..i]
  {
    if s[0] == x then 0
    else
      var i := FirstIndex(s[1..], x);
      assert s[..i + 1] == [s[0]] + s[1..][..i];
      i + 1
  }

  /** The list after List.remove(Object): the first equal element dropped, if there is one. */
  function RemoveFirst(s: seq<Listener>, x: Listener): (r: seq<Listener>)
    ensures x !in s ==> r == s
    ensures x in s ==> var i := FirstIndex(s, x); r == s[..i] + s[i + 1..]
  {
    if x !in s then s else var i := FirstIndex(s, x); s[..i] + s[i + 1..]
  }

  /** One event per listener, in list order. */
  function Notify(listeners: seq<Listener>, kind: Listener -> Event): (events: seq<Event>)
    ensures |events| == |listeners|
    ensures forall k :: 0 <= k < |listeners| ==> events[k] == kind(listeners[k])
  {
    seq(|listeners|, k requires 0 <= k < |listeners| => kind(listeners[k]))
  }

  /** modelMutated: every listener's updateView, then every listener's nextPlayerTurn. */
  function MutatedEvents(listeners: seq<Listener>): seq<Event>
  {
    Notify(listeners, (l: Listener) => UpdateView(l)) + Notify(listeners, (l: Listener) => NextPlayerTurn(l))
  }

  /** gameOver: every listener's endGame. */
  function GameOverEvents(listeners: seq<Listener>): seq<Event>
  {
    Notify(listeners, (l: Listener) => EndGame(l))
  }

  class ModelMutatedBroadcaster {
    var listeners: seq<Listener>
    ghost var trace: seq<Event>

    constructor ()
      ensures listeners == [] && trace == []
    {
      listeners := [];
      trace := [];
    }

    method AddListener(listener: Listener)
      modifies this
      ensures listeners == old(listeners) + [listener] && trace == old(trace)
    {
      listeners := listeners + [listener];
    }

    method RemoveListener(listener: Listener)
      modifies this
      ensures listeners == RemoveFirst(old(listeners), listener) && trace == old(trace)
    {
      var i := 0;
      while i < |listeners| && listeners[i] != listener
        invariant 0 <= i <= |listeners|
        invariant listener !in listeners[..i]
      {
        i := i + 1;
      }
      if i < |listeners| {
        listeners := listeners[..i] + listeners[i + 1..];
      } else {
        assert listeners[..i] == listeners;
      }
    }

    method ModelMutated()
      modifies this
      ensures listeners == old(listeners)
      ensures trace == old(trace) + MutatedEvents(listeners)
    {
      UpdateListenerViews();
      NextPlayerTurnAll();
    }

    method GameOver()
      modifies this
      ensures listeners == old(listeners)
      ensures trace == old(trace) + GameOverEvents(listeners)
    {
      var i := 0;
      while i < |listeners|
        invariant 0 <= i <= |listeners| && listeners == old(listeners)
        invariant trace == old(trace) + Notify(listeners[..i], (l: Listener) => EndGame(l))
      {
        trace := trace + [EndGame(listeners[i])];
        i := i + 1;
        assert listeners[..i] == listeners[..i - 1] + [listeners[i - 1]];
      }
      assert listeners[..i] == listeners;
    }

    method UpdateListenerViews()
      modifies this
      ensures listeners == old(listeners)
      ensures trace == old(trace) + Notify(listeners, (l: Listener) => UpdateView(l))
    {
      var i := 0;
      while i < |listeners|
        invariant 0 <= i <= |listeners| && listeners == old(listeners)
        invariant trace == old(trace) + Notify(listeners[..i], (l: Listener) => UpdateView(l))
      {
        trace := trace + [UpdateView(listeners[i])];
        i := i + 1;
        assert listeners[..i] == listeners[..i - 1] + [listeners[i - 1]];
      }
      assert listeners[..i] == listeners;
    }

    method NextPlayerTurnAll()
      modifies this
      ensures listeners == old(listeners)
      ensures trace == old(trace) + Notify(listeners, (l: Listener) => NextPlayerTurn(l))
    {
      var i := 0;
      while i < |listeners|
        invariant 0 <= i <= |listeners| && listeners == old(listeners)
        invariant trace == old(trace) + Notify(listeners[..i], (l: Listener) => NextPlayerTurn(l))
      {
        trace := trace + [NextPlayerTurn(listeners[i])];
        i := i + 1;
        assert listeners[..i] == listeners[..i - 1] + [listeners[i - 1]];
      }
      assert listeners[..i] == listeners;
    }
  }

  /** Removing a listener that was just added to a list not containing it restores the list. */
  lemma AddThenRemove(s: seq<Listener>, x: Listener)
    requires x !in s
    ensures RemoveFirst(s + [x], x) == s
  {
    var t := s + [x];
    var i := FirstIndex(t, x);
    assert t[..|s|] == s;
  }

  /** remove drops exactly one occurrence of a present listener and keeps all others. */
  lemma RemoveFirstMultiset(s: seq<Listener>, x: Listener)
    ensures multiset(RemoveFirst(s, x)) == multiset(s) - multiset{x}
  {
    if x in s {
      var i := FirstIndex(s, x);
      assert s == s[..i] + [x] + s[i + 1..];
      calc {
        multiset(s);
        multiset(s[..i]) + multiset{x} + multiset(s[i + 1..]);
      }
    }
  }

  /**
   * In a modelMutated broadcast every updateView comes before every nextPlayerTurn, and each
   * listener receives one of each per occurrence in the list.
   */
  lemma MutatedEventsOrder(listeners: seq<Listener>)
    ensures var e := MutatedEvents(listeners);
      && |e| == 2 * |listeners|
      && (forall i, j :: 0 <= i < j < |e| && e[j].UpdateView? ==> e[i].UpdateView?)
      && (forall l :: multiset(listeners)[l] == multiset(e)[UpdateView(l)]
                    && multiset(listeners)[l] == multiset(e)[NextPlayerTurn(l)])
  {
    var e := MutatedEvents(listeners);
    var u := Notify(listeners, (l: Listener) => UpdateView(l));
    var n := Notify(listeners, (l: Listener) => NextPlayerTurn(l));
    forall l ensures multiset(listeners)[l] == multiset(e)[UpdateView(l)]
                  && multiset(listeners)[l] == multiset(e)[NextPlayerTurn(l)]
    {
      NotifyCount(listeners, (l0: Listener) => UpdateView(l0), UpdateView(l), l);
      NotifyCount(listeners, (l0: Listener) => NextPlayerTurn(l0), NextPlayerTurn(l), l);
      NotifyCount(listeners, (l0: Listener) => UpdateView(l0), NextPlayerTurn(l), l);
      NotifyCount(listeners, (l0: Listener) => NextPlayerTurn(l0), UpdateView(l), l);
    }
  }

  /** A gameOver broadcast is one endGame per listener occurrence and nothing else. */
  lemma GameOverEventsOnly(listeners: seq<Listener>)
    ensures var e := GameOverEvents(listeners);
      && (forall k :: 0 <= k < |e| ==> e[k].EndGame?)
      && (forall l :: multiset(e)[EndGame(l)] == multiset(listeners)[l])
  {
    forall l ensures multiset(GameOverEvents(listeners))[EndGame(l)] == multiset(listeners)[l] {
      NotifyCount(listeners, (l0: Listener) => EndGame(l0), EndGame(l), l);
    }
  }

  /**
   * For an event constructor applied to listeners, the number of copies of an event is the
   * number of occurrences of the listener it is addressed to (zero for another kind).
   */
  lemma {:induction false} NotifyCount(listeners: seq<Listener>, kind: Listener -> Event, ev: Event, l: Listener)
    requires forall a :: kind(a).to == a
    requires ev.to == l
    ensures multiset(Notify(listeners, kind))[ev] ==
            (if ev == kind(l) then multiset(listeners)[l] else 0)
    decreases |listeners|
  {
    if listeners != [] {
      var rest := listeners[1..];
      NotifyCount(rest, kind, ev, l);
      assert listeners == [listeners[0]] + rest;
      assert Notify(listeners, kind) == [kind(listeners[0])] + Notify(rest, kind);
      assert kind(listeners[0]) == ev ==> listeners[0] == l;
    }
  }
}
