/**
 * The front end's event bus (frontend/src/services/eventBus.js): a table from
 * event name to the callbacks subscribed to it, in subscription order.
 * Callbacks are known only by identity; which of them throw when invoked is a
 * parameter of `Emit`, and the console log is its second result.
 */
module EventBus {
  /** A callback, compared by identity as `!==` does. */
  type Callback = nat

  /** The function `on` returns: it unsubscribes `callback` from `event` when called. */
  datatype Unsubscriber = Unsubscriber(event: string, callback: Callback)

  /** One invocation of a callback with the emitted data. */
  datatype Call<D> = Call(callback: Callback, data: D)

  /** One console error: the callback that threw while `event` was emitted. */
  datatype CallbackError = CallbackError(event: string, callback: Callback)

  /** The JSON-like values an error payload carries. */
  datatype JsValue = JsString(s: string) | JsNumber(n: int) | JsBool(b: bool)

  /** `s.filter(cb => cb !== callback)`. */
  function Without(s: seq<Callback>, callback: Callback): (r: seq<Callback>)
    ensures callback !in r
    ensures |r| <= |s|
  {
    if s == [] then []
    else (if s[0] == callback then [] else [s[0]]) + Without(s[1..], callback)
  }

  /** The filter removes every occurrence of the callback and keeps every other callback as often as it was there. */
  lemma {:induction false} WithoutCounts(s: seq<Callback>, callback: Callback)
    ensures forall x :: x != callback ==> multiset(Without(s, callback))[x] == multiset(s)[x]
    ensures |Without(s, callback)| == |s| - multiset(s)[callback]
  {
    if s != [] {
      WithoutCounts(s[1..], callback);
      assert s == [s[0]] + s[1..];
      var head := if s[0] == callback then [] else [s[0]];
      assert Without(s, callback) == head + Without(s[1..], callback);
      assert multiset(Without(s, callback)) == multiset(head) + multiset(Without(s[1..], callback));
      assert multiset(s) == multiset([s[0]]) + multiset(s[1..]);
    }
  }

  /** Filtering works piecewise, so the remaining callbacks keep their relative order. */
  lemma {:induction false} WithoutDistributes(a: seq<Callback>, b: seq<Callback>, callback: Callback)
    ensures Without(a + b, callback) == Without(a, callback) + Without(b, callback)
  {
    if a != [] {
      var head := if a[0] == callback then [] else [a[0]];
      assert (a + b)[0] == a[0] && (a + b)[1..] == a[1..] + b;
      assert Without(a + b, callback) == head + Without(a[1..] + b, callback);
      assert Without(a, callback) == head + Without(a[1..], callback);
      WithoutDistributes(a[1..], b, callback);
    } else {
      assert a + b == b;
    }
  }

  /** Filtering out a callback that is not subscribed changes nothing. */
  lemma {:induction false} WithoutAbsent(s: seq<Callback>, callback: Callback)
    requires callback !in s
    ensures Without(s, callback) == s
  {
    if s != [] {
      assert s[0] != callback && callback !in s[1..];
      WithoutAbsent(s[1..], callback);
      assert Without(s, callback) == [s[0]] + Without(s[1..], callback);
      assert s == [s[0]] + s[1..];
    }
  }

  /** Subscribing a new callback and then unsubscribing it restores the list. */
  lemma SubscribeThenUnsubscribe(s: seq<Callback>, callback: Callback)
    requires callback !in s
    ensures Without(s + [callback], callback) == s
  {
    WithoutDistributes(s, [callback], callback);
    WithoutAbsent(s, callback);
    assert Without([callback], callback) == [];
  }

  /**
   * The errors logged while `callbacks` run in order: one entry for each run of
   * a callback that throws, so a callback subscribed twice is logged twice.
   */
  function ErrorsOf(event: string, callbacks: seq<Callback>, throwing: set<Callback>): (r: seq<CallbackError>)
    ensures |r| <= |callbacks|
    ensures forall i :: 0 <= i < |r| ==> r[i].event == event && r[i].callback in throwing && r[i].callback in callbacks
    ensures (forall i :: 0 <= i < |callbacks| ==> callbacks[i] !in throwing) ==> r == []
  {
    if callbacks == [] then []
    else
      var last := callbacks[|callbacks| - 1];
      var front := callbacks[..|callbacks| - 1];
      assert callbacks == front + [last];
      assert forall x :: x in front ==> x in callbacks;
      assert forall i :: 0 <= i < |front| ==> front[i] == callbacks[i];
      ErrorsOf(event, front, throwing) + (if last in throwing then [CallbackError(event, last)] else [])
  }

  /** The log holds each throwing callback exactly as many times as it ran, and no other callback. */
  lemma {:induction false} ErrorsOfCounts(event: string, callbacks: seq<Callback>, throwing: set<Callback>, c: Callback)
    ensures multiset(ErrorsOf(event, callbacks, throwing))[CallbackError(event, c)]
         == if c in throwing then multiset(callbacks)[c] else 0
  {
    if callbacks != [] {
      var last := callbacks[|callbacks| - 1];
      var front := callbacks[..|callbacks| - 1];
      var logged := if last in throwing then [CallbackError(event, last)] else [];
      var e := CallbackError(event, c);
      var ran: nat := if c == last then 1 else 0;
      ErrorsOfCounts(event, front, throwing, c);
      assert multiset(ErrorsOf(event, callbacks, throwing))[e]
          == multiset(ErrorsOf(event, front, throwing))[e] + multiset(logged)[e] by {
        assert ErrorsOf(event, callbacks, throwing) == ErrorsOf(event, front, throwing) + logged;
      }
      LastRun(callbacks);
      assert multiset(logged)[e] == if c in throwing then ran else 0;
    }
  }

  /** Every callback that throws is logged. */
  lemma ErrorsOfLogsEveryThrow(event: string, callbacks: seq<Callback>, throwing: set<Callback>)
    ensures forall i :: 0 <= i < |callbacks| && callbacks[i] in throwing ==>
      CallbackError(event, callbacks[i]) in ErrorsOf(event, callbacks, throwing)
  {
    forall i | 0 <= i < |callbacks| && callbacks[i] in throwing
      ensures CallbackError(event, callbacks[i]) in ErrorsOf(event, callbacks, throwing)
    {
      ErrorsOfCounts(event, callbacks, throwing, callbacks[i]);
      assert callbacks[i] in multiset(callbacks);
    }
  }

  /** Splitting off the last callback to run. */
  lemma LastRun(s: seq<Callback>)
    requires s != []
    ensures multiset(s) == multiset(s[..|s| - 1]) + multiset{s[|s| - 1]}
  {
    assert s == s[..|s| - 1] + [s[|s| - 1]];
  }

  /** The event table. */
  class EventBus {
    var events: map<string, seq<Callback>>

    /** The callbacks subscribed to `event`, none when it has no list. */
    function Listeners(event: string): seq<Callback>
      reads this
    {
      if event in events then events[event] else []
    }

    /** A bus with no events. */
    constructor ()
      ensures events == map[]
    {
      events := map[];
    }

    /**
     * `on`: appends the callback to the event's list, creating the list when
     * absent; other events keep their lists.
     */
    method On(event: string, callback: Callback) returns (unsubscribe: Unsubscriber)
      modifies this
      ensures events == old(events)[event := old(Listeners(event)) + [callback]]
      ensures unsubscribe == Unsubscriber(event, callback)
    {
      if event !in events {
        events := events[event := []];
      }
      events := events[event := events[event] + [callback]];
      unsubscribe := Unsubscriber(event, callback);
    }

    /**
     * Calling the unsubscriber: every occurrence of its callback leaves the
     * event's list and the others keep their order. When the event has no list
     * (it was removed by `off` or `removeAllListeners`) the filter throws a
     * TypeError, reported as `thrown`, and nothing changes.
     */
    method Unsubscribe(u: Unsubscriber) returns (thrown: bool)
      modifies this
      ensures thrown <==> u.event !in old(events)
      ensures thrown ==> events == old(events)
      ensures !thrown ==> events == old(events)[u.event := Without(old(events)[u.event], u.callback)]
    {
      if u.event !in events {
        return true;
      }
      events := events[u.event := Without(events[u.event], u.callback)];
      return false;
    }

    /**
     * `emit`: calls every callback subscribed to the event, in subscription
     * order, each with the same data; a callback that throws is logged and the
     * ones after it still run. The table is not changed.
     */
    method Emit<D>(event: string, data: D, throwing: set<Callback>) returns (calls: seq<Call<D>>, errors: seq<CallbackError>)
      ensures |calls| == |Listeners(event)|
      ensures forall i :: 0 <= i < |calls| ==> calls[i] == Call(Listeners(event)[i], data)
      ensures errors == ErrorsOf(event, Listeners(event), throwing)
    {
      calls, errors := [], [];
      if event in events {
        var callbacks := events[event];
        var i := 0;
        while i < |callbacks|
          invariant 0 <= i <= |callbacks|
          invariant |calls| == i
          invariant forall k :: 0 <= k < i ==> calls[k] == Call(callbacks[k], data)
          invariant errors == ErrorsOf(event, callbacks[..i], throwing)
        {
          var callback := callbacks[i];
          calls := calls + [Call(callback, data)];
          if callback in throwing {
            errors := errors + [CallbackError(event, callback)];
          }
          assert callbacks[..i + 1][..i] == callbacks[..i];
          i := i + 1;
        }
        assert callbacks[..i] == callbacks;
      }
    }

    /** `off`: deletes the event's list and nothing else; without a list it changes nothing. */
    method Off(event: string)
      modifies this
      ensures events == old(events) - {event}
      ensures event !in old(events) ==> events == old(events)
    {
      if event in events {
        events := events - {event};
      }
    }

    /** `removeAllListeners`: an empty table, on which every emit calls nothing. */
    method RemoveAllListeners()
      modifies this
      ensures events == map[]
      ensures forall event :: Listeners(event) == []
    {
      events := map[];
    }
  }

  /** `{ message, ...options }`: the message under "message", unless an option of that name overrides it. */
  function ErrorPayload(message: string, options: map<string, JsValue>): (r: map<string, JsValue>)
    ensures r.Keys == options.Keys + {"message"}
    ensures forall k :: k in options ==> r[k] == options[k]
    ensures "message" !in options ==> r["message"] == JsString(message)
  {
    map["message" := JsString(message)] + options
  }

  /** `showError`: an emit of 'show-error' carrying the error payload. */
  method ShowError(bus: EventBus, message: string, options: map<string, JsValue>, throwing: set<Callback>)
    returns (calls: seq<Call<map<string, JsValue>>>, errors: seq<CallbackError>)
    ensures |calls| == |bus.Listeners("show-error")|
    ensures forall i :: 0 <= i < |calls| ==>
      calls[i] == Call(bus.Listeners("show-error")[i], ErrorPayload(message, options))
    ensures errors == ErrorsOf("show-error", bus.Listeners("show-error"), throwing)
  {
    calls, errors := bus.Emit("show-error", ErrorPayload(message, options), throwing);
  }

  /**
   * A subscriber's life on a fresh bus: two callbacks hear an emit in
   * subscription order; after the first unsubscribes only the second hears it;
   * after `off` nobody hears it and unsubscribing throws.
   */
  method Lifecycle() returns (first: seq<Callback>, logged: seq<CallbackError>,
                               second: seq<Callback>, third: seq<Callback>, thrown: bool)
    ensures first == [1, 2] && logged == [CallbackError("show-error", 1)]
    ensures second == [2] && third == [] && thrown
  {
    var bus := new EventBus();
    var unsubscribeOne := bus.On("show-error", 1);
    var unsubscribeTwo := bus.On("show-error", 2);
    assert bus.Listeners("show-error") == [1, 2];
    var calls, errors := bus.Emit("show-error", "boom", {1});
    first, logged := Callbacks(calls), errors;
    assert ErrorsOf("show-error", [1], {1}) == [CallbackError("show-error", 1)];
    var ignored := bus.Unsubscribe(unsubscribeOne);
    assert Without([2], 1) == [2];
    assert bus.Listeners("show-error") == [2];
    calls, errors := bus.Emit("show-error", "boom", {});
    second := Callbacks(calls);
    bus.Off("show-error");
    assert bus.Listeners("show-error") == [];
    calls, errors := bus.Emit("show-error", "boom", {});
    third := Callbacks(calls);
    thrown := bus.Unsubscribe(unsubscribeTwo);
  }

  /** The callbacks invoked, in order. */
  function Callbacks<D>(calls: seq<Call<D>>): (r: seq<Callback>)
    ensures |r| == |calls| && forall i :: 0 <= i < |r| ==> r[i] == calls[i].callback
  {
    if calls == [] then [] else [calls[0].callback] + Callbacks(calls[1..])
  }
}
