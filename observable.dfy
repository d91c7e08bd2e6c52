/** The settings broadcaster (src/Utils/Observable.ts): a value and an
    ordered list of subscribers. Callbacks are integer handles; what calling
    them does is outside this model, so each call is recorded in a ghost
    delivery log instead. */
module Observables {

  /** A subscriber callback, by identity. */
  type Callback = int

  /** One call of a subscriber with the value it was given (a shallow copy of
      a value is the value itself here). */
  datatype Delivery<V> = Delivery(callback: Callback, value: V)

  /** The calls `setValue(v)` makes: each subscriber once, in list order. */
  function Broadcast<V>(subscribers: seq<Callback>, v: V): (calls: seq<Delivery<V>>)
    ensures |calls| == |subscribers|
    ensures forall i :: 0 <= i < |calls| ==> calls[i] == Delivery(subscribers[i], v)
  {
    if subscribers == [] then []
    else Broadcast(subscribers[..|subscribers| - 1], v) + [Delivery(subscribers[|subscribers| - 1], v)]
  }

  /** `subscribers.filter((value) => value === callback)` as the unsubscribe
      closure writes it: the entries equal to `cb` are the ones KEPT. */
  function KeepOnly(subscribers: seq<Callback>, cb: Callback): (kept: seq<Callback>)
    ensures forall x :: x in kept ==> x == cb
    ensures multiset(kept)[cb] == multiset(subscribers)[cb]
  {
    if subscribers == [] then []
    else
      var init := subscribers[..|subscribers| - 1];
      var last := subscribers[|subscribers| - 1];
      assert subscribers == init + [last];
      KeepOnly(init, cb) + (if last == cb then [last] else [])
  }

  /** The filter keeps exactly the occurrences of `cb`: `cb` once per time it
      subscribed, every other subscriber dropped. */
  lemma KeepOnlyIsRepeat(subscribers: seq<Callback>, cb: Callback)
    ensures KeepOnly(subscribers, cb) == Repeat(cb, multiset(subscribers)[cb])
  {
    var kept := KeepOnly(subscribers, cb);
    RepeatAll(kept, cb);
  }

  /** `n` copies of `x`. */
  function Repeat(x: Callback, n: nat): (r: seq<Callback>)
    ensures |r| == n
    ensures forall i :: 0 <= i < n ==> r[i] == x
  {
    if n == 0 then [] else Repeat(x, n - 1) + [x]
  }

  /** A sequence of copies of one value is determined by its count. */
  lemma {:induction false} RepeatAll(s: seq<Callback>, x: Callback)
    requires forall y :: y in s ==> y == x
    ensures s == Repeat(x, multiset(s)[x])
    decreases |s|
  {
    if s != [] {
      var init, last := s[..|s| - 1], s[|s| - 1];
      assert s == init + [last];
      assert last in s;
      assert forall y :: y in init ==> y in s;
      RepeatAll(init, x);
      assert multiset(s) == multiset(init) + multiset{last};
    }
  }

  /** Unsubscribing twice changes nothing the second time. */
  lemma KeepOnlyIdempotent(subscribers: seq<Callback>, cb: Callback)
    ensures KeepOnly(KeepOnly(subscribers, cb), cb) == KeepOnly(subscribers, cb)
  {
    var once := KeepOnly(subscribers, cb);
    KeepOnlyIsRepeat(subscribers, cb);
    KeepOnlyIsRepeat(once, cb);
  }

  class Observable<V> {
    var value: V
    var subscribers: seq<Callback>
    /** Every subscriber call made so far, oldest first. */
    ghost var delivered: seq<Delivery<V>>

    /** `new Observable(value)`: no subscribers yet. */
    constructor (v: V)
      ensures value == v && subscribers == [] && delivered == []
    {
      value := v;
      subscribers := [];
      delivered := [];
    }

    /** `setValue(v)`: store `v`, then call every subscriber with it, in
        subscription order; the subscriber list is untouched. */
    method SetValue(v: V)
      modifies this
      ensures value == v
      ensures subscribers == old(subscribers)
      ensures delivered == old(delivered) + Broadcast(subscribers, v)
    {
      value := v;
      var i := 0;
      while i < |subscribers|
        invariant 0 <= i <= |subscribers|
        invariant value == v && subscribers == old(subscribers)
        invariant delivered == old(delivered) + Broadcast(subscribers[..i], v)
      {
        assert subscribers[..i + 1][..i] == subscribers[..i];
        delivered := delivered + [Delivery(subscribers[i], value)];
        i := i + 1;
      }
      assert subscribers[..i] == subscribers;
    }

    /** `getValue()`. */
    method GetValue() returns (v: V)
      ensures v == value
    {
      v := value;
    }

    /** `onChange(cb)`: append `cb` to the subscribers; the closure it
        returns is `Unsubscribe(cb)`. */
    method OnChange(cb: Callback)
      modifies this
      ensures subscribers == old(subscribers) + [cb]
      ensures value == old(value) && delivered == old(delivered)
    {
      subscribers := subscribers + [cb];
    }

    /** The closure returned by `onChange(cb)`: replaces the subscribers by
        those equal to `cb`. */
    method Unsubscribe(cb: Callback)
      modifies this
      ensures subscribers == KeepOnly(old(subscribers), cb)
      ensures value == old(value) && delivered == old(delivered)
    {
      subscribers := KeepOnly(subscribers, cb);
    }
  }

  /** Two subscribers, a change, then the first one unsubscribes: the second
      one was called once with the new value, and afterwards the first one is
      the only subscriber left. */
  method TwoSubscribersThenUnsubscribe(initial: int, next: int) returns (current: int, remaining: seq<Callback>)
    ensures current == next
    ensures remaining == [1]
  {
    var o := new Observable<int>(initial);
    var before := o.GetValue();
    assert before == initial;
    o.OnChange(1);
    o.OnChange(2);
    assert o.subscribers == [1, 2];
    o.SetValue(next);
    assert o.delivered == [Delivery(1, next), Delivery(2, next)] by {
      assert |Broadcast([1, 2], next)| == 2;
    }
    assert KeepOnly([1, 2], 1) == [1] by {
      KeepOnlyIsRepeat([1, 2], 1);
      assert multiset([1, 2])[1] == 1;
    }
    o.Unsubscribe(1);
    current := o.GetValue();
    remaining := o.subscribers;
  }
}
