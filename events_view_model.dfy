/** The observable view model over the persisted event log, and the store
    cell it wraps. */
module EventsViewModels {
  import opened PropertyListSerializable

  /** Identifies a registered observer callback. */
  type ObserverId = nat

  /** One invocation of an observer callback, with the events the view
      model held when the callback ran. */
  datatype Call = Call(observer: ObserverId, shown: seq<Event>)

  /** One notification pass: each observer in `observers` called once, in
      that order, each seeing `shown`. */
  function Notifications(observers: seq<ObserverId>, shown: seq<Event>): (calls: seq<Call>)
    ensures |calls| == |observers|
    ensures forall i :: 0 <= i < |observers| ==> calls[i] == Call(observers[i], shown)
  {
    if observers == [] then []
    else [Call(observers[0], shown)] + Notifications(observers[1..], shown)
  }

  /** The calls that follow when the store invokes its update handlers in
      the order `fired`: a notification pass `pass` for each handler that
      belongs to `subscriber`. Other subscribers' handlers are not modelled. */
  function Dispatch(fired: seq<object>, subscriber: object, pass: seq<Call>): (calls: seq<Call>)
    ensures subscriber !in fired ==> calls == []
    ensures subscriber in fired ==> |calls| >= |pass| && calls[..|pass|] == pass
  {
    if fired == [] then []
    else
      var prefix, last := fired[..|fired| - 1], fired[|fired| - 1];
      assert fired == prefix + [last];
      Dispatch(prefix, subscriber, pass) + (if last == subscriber then pass else [])
  }

  /** `n` passes `pass`, one after the other. */
  function Repeat(pass: seq<Call>, n: nat): (calls: seq<Call>)
    ensures n > 0 ==> |calls| >= |pass| && calls[..|pass|] == pass
  {
    if n == 0 then [] else Repeat(pass, n - 1) + pass
  }

  /** Dispatch gives the subscriber one pass per registration of its
      handler, and nothing else. */
  lemma {:induction false} DispatchRepeats(fired: seq<object>, subscriber: object, pass: seq<Call>)
    ensures Dispatch(fired, subscriber, pass) == Repeat(pass, multiset(fired)[subscriber])
  {
    if fired != [] {
      var prefix: seq<object> := fired[..|fired| - 1];
      var last: object := fired[|fired| - 1];
      assert fired == prefix + [last];
      assert multiset(fired) == multiset(prefix) + multiset([last]);
      DispatchRepeats(prefix, subscriber, pass);
    }
  }

  /** A subscriber registered exactly once gets exactly one pass. */
  lemma {:induction false} DispatchOnce(fired: seq<object>, subscriber: object, pass: seq<Call>)
    requires multiset(fired)[subscriber] == 1
    ensures Dispatch(fired, subscriber, pass) == pass
  {
    var prefix: seq<object> := fired[..|fired| - 1];
    var last: object := fired[|fired| - 1];
    assert fired == prefix + [last];
    assert multiset(fired) == multiset(prefix) + multiset([last]);
    if last == subscriber {
      assert multiset(prefix)[subscriber] == 0;
      assert subscriber !in prefix;
    } else {
      DispatchOnce(prefix, subscriber, pass);
    }
  }

  /** A persisted cell holding one value under one key, with update handlers
      invoked on every write. Persistence to disk is not modelled. */
  class DataStore<T> {
    const key: string
    var value: T
    var handlers: seq<object>

    /** A cell on first launch: the default value, no handlers. */
    constructor (key: string, defaultValue: T)
      ensures this.key == key && value == defaultValue && handlers == []
    {
      this.key := key;
      value := defaultValue;
      handlers := [];
    }

    method AddUpdateHandler(subscriber: object)
      modifies this
      ensures handlers == old(handlers) + [subscriber]
      ensures value == old(value)
    {
      handlers := handlers + [subscriber];
    }

    /** Stores `v` and reports the handlers it then invokes, in
        registration order. */
    method SetValue(v: T) returns (fired: seq<object>)
      modifies this
      ensures value == v && handlers == old(handlers)
      ensures fired == handlers
    {
      value := v;
      fired := handlers;
    }
  }

  /** The events screen's view model: derived flags over the stored event
      log, and a list of observers notified whenever the store changes. */
  class EventsViewModel {
    const eventsStore: DataStore<SerializableArray<Event>>
    var observers: seq<ObserverId>

    /** The update handler registered at construction is the only one of
        this view model's in the store. */
    ghost predicate Valid()
      reads eventsStore
    {
      multiset(eventsStore.handlers)[this] == 1
    }

    /** Wraps `store` and registers this view model's update handler with it. */
    constructor (store: DataStore<SerializableArray<Event>>)
      modifies store
      ensures eventsStore == store && observers == []
      ensures store.value == old(store.value)
      ensures store.handlers == old(store.handlers) + [this]
      ensures Valid()
    {
      eventsStore := store;
      observers := [];
      new;
      assert this !in old(store.handlers);
      store.AddUpdateHandler(this);
    }

    /** The stored events, unchanged and in order. */
    function Events(): (events: seq<Event>)
      reads eventsStore
      ensures |events| == eventsStore.value.EndIndex() - eventsStore.value.StartIndex()
      ensures forall i :: eventsStore.value.StartIndex() <= i < eventsStore.value.EndIndex() ==>
                events[i] == eventsStore.value.At(i)
    {
      eventsStore.value.elements
    }

    function EmptyStateViewHidden(): (hidden: bool)
      reads eventsStore
      ensures hidden <==> |Events()| > 0
    {
      !eventsStore.value.IsEmpty()
    }

    function HasContentViewHidden(): (hidden: bool)
      reads eventsStore
      ensures hidden <==> Events() == []
    {
      eventsStore.value.IsEmpty()
    }

    function ClearButtonEnabled(): (enabled: bool)
      reads eventsStore
      ensures enabled <==> |Events()| > 0
    {
      !eventsStore.value.IsEmpty()
    }

    function ExportButtonEnabled(): (enabled: bool)
      reads eventsStore
      ensures enabled <==> |Events()| > 0
    {
      !eventsStore.value.IsEmpty()
    }

    /** Replaces the stored events with the empty array; the store then
        invokes its handlers, and this view model's handler runs one
        notification pass over the now empty log. */
    method DeleteAllData() returns (calls: seq<Call>)
      requires Valid()
      modifies eventsStore
      ensures Valid()
      ensures eventsStore.value == SerializableArray([])
      ensures eventsStore.handlers == old(eventsStore.handlers)
      ensures observers == old(observers)
      ensures Events() == [] && HasContentViewHidden() && !EmptyStateViewHidden()
      ensures !ClearButtonEnabled() && !ExportButtonEnabled()
      ensures calls == Dispatch(eventsStore.handlers, this, Notifications(observers, []))
      ensures calls == Notifications(observers, [])
    {
      var fired := eventsStore.SetValue(SerializableArray([]));
      calls := [];
      var i := 0;
      while i < |fired|
        invariant 0 <= i <= |fired|
        invariant eventsStore.value == SerializableArray([]) && eventsStore.handlers == fired
        invariant calls == Dispatch(fired[..i], this, Notifications(observers, []))
      {
        assert fired[..i + 1][..i] == fired[..i];
        if fired[i] == this {
          var pass := NotifyObservers();
          calls := calls + pass;
        }
        i := i + 1;
      }
      assert fired[..|fired|] == fired;
      DispatchOnce(fired, this, Notifications(observers, []));
    }

    /** Registers `callback` after all earlier observers. */
    method AddObserver(callback: ObserverId)
      requires Valid()
      modifies this
      ensures Valid()
      ensures observers == old(observers) + [callback]
    {
      observers := observers + [callback];
    }

    /** Calls every registered observer once, in registration order. */
    method NotifyObservers() returns (calls: seq<Call>)
      ensures calls == Notifications(observers, Events())
    {
      calls := [];
      for i := 0 to |observers|
        invariant |calls| == i
        invariant forall k :: 0 <= k < i ==> calls[k] == Call(observers[k], Events())
      {
        calls := calls + [Call(observers[i], Events())];
      }
    }
  }

  /** The four flags agree: the empty-state view is hidden exactly when the
      content view is shown, and both buttons are enabled exactly then. */
  lemma FlagsAgree(vm: EventsViewModel)
    ensures vm.EmptyStateViewHidden() == !vm.HasContentViewHidden()
    ensures vm.ClearButtonEnabled() == vm.ExportButtonEnabled() == vm.EmptyStateViewHidden()
  {
  }
}
