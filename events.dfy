/** In-process events: SubscriberService resolves the consumers registered for
    an event type, and EventPublisher hands a message to each of them in
    ascending `Order`, one after the other, stopping at the first that throws. */
module Events {
  import opened Runtime

  /** An `IConsumer<T>`: its name, its `Order`, and whether its `HandleAsync` throws. */
  datatype Consumer = Consumer(name: string, order: int, fails: bool)

  /** A service registration `AddSingleton<IConsumer<T>, C>()`. */
  datatype Registration = Registration(eventType: TypeId, consumer: Consumer)

  /** One call of `HandleAsync`: the consumer and the message it was given. */
  datatype Invocation = Invocation(consumer: string, message: string)

  /** `GetServices<IConsumer<T>>()`: the consumers registered for `eventType`,
      in registration order. */
  function Resolve(registrations: seq<Registration>, eventType: TypeId): (r: seq<Consumer>)
    ensures |r| <= |registrations|
    decreases |registrations|
  {
    if registrations == [] then []
    else
      var front := registrations[..|registrations| - 1];
      var last := registrations[|registrations| - 1];
      (if last.eventType == eventType then Resolve(front, eventType) + [last.consumer] else Resolve(front, eventType))
  }

  /** Every consumer registered for the event type is resolved, and nothing else. */
  lemma {:induction false} ResolveMembers(registrations: seq<Registration>, eventType: TypeId, c: Consumer)
    ensures c in Resolve(registrations, eventType) <==> Registration(eventType, c) in registrations
    decreases |registrations|
  {
    if registrations != [] {
      var front := registrations[..|registrations| - 1];
      var last := registrations[|registrations| - 1];
      assert registrations == front + [last];
      ResolveMembers(front, eventType, c);
    }
  }

  /** An event type without registrations resolves no consumer. */
  lemma {:induction false} ResolveNone(registrations: seq<Registration>, eventType: TypeId)
    requires forall i | 0 <= i < |registrations| :: registrations[i].eventType != eventType
    ensures Resolve(registrations, eventType) == []
    decreases |registrations|
  {
    if registrations != [] {
      ResolveNone(registrations[..|registrations| - 1], eventType);
    }
  }

  /** Ascending by `Order`. */
  ghost predicate SortedByOrder(s: seq<Consumer>) {
    forall i, j | 0 <= i < j < |s| :: s[i].order <= s[j].order
  }

  /** The elements with the given `Order`, in sequence order. */
  function WithOrder(s: seq<Consumer>, order: int): (r: seq<Consumer>)
    ensures |r| <= |s|
    decreases |s|
  {
    if s == [] then []
    else WithOrder(s[..|s| - 1], order) + (if s[|s| - 1].order == order then [s[|s| - 1]] else [])
  }

  /** Inserts `c` into the sorted `s` after every element of no greater `Order`. */
  function InsertByOrder(s: seq<Consumer>, c: Consumer): (r: seq<Consumer>)
    ensures |r| == |s| + 1
    decreases |s|
  {
    if s == [] || s[|s| - 1].order <= c.order then s + [c]
    else InsertByOrder(s[..|s| - 1], c) + [s[|s| - 1]]
  }

  /** Insertion adds exactly `c`. */
  lemma {:induction false} InsertByOrderPermutes(s: seq<Consumer>, c: Consumer)
    ensures multiset(InsertByOrder(s, c)) == multiset(s) + multiset{c}
    decreases |s|
  {
    if !(s == [] || s[|s| - 1].order <= c.order) {
      var front := s[..|s| - 1];
      assert s == front + [s[|s| - 1]];
      InsertByOrderPermutes(front, c);
    }
  }

  /** Insertion keeps a sorted sequence sorted. */
  lemma {:induction false} InsertByOrderSorted(s: seq<Consumer>, c: Consumer)
    requires SortedByOrder(s)
    ensures SortedByOrder(InsertByOrder(s, c))
    decreases |s|
  {
    if s == [] || s[|s| - 1].order <= c.order {
      var r := s + [c];
      forall i, j | 0 <= i < j < |r| ensures r[i].order <= r[j].order {
        if j < |s| {
          assert r[i] == s[i] && r[j] == s[j];
        } else {
          assert r[i] == s[i] && s[i].order <= s[|s| - 1].order;
        }
      }
    } else {
      var front := s[..|s| - 1];
      var last := s[|s| - 1];
      assert SortedByOrder(front);
      InsertByOrderSorted(front, c);
      InsertByOrderPermutes(front, c);
      var inserted := InsertByOrder(front, c);
      var r := inserted + [last];
      forall i, j | 0 <= i < j < |r| ensures r[i].order <= r[j].order {
        if j < |inserted| {
          assert r[i] == inserted[i] && r[j] == inserted[j];
        } else {
          var x := inserted[i];
          assert x in multiset(inserted);
          assert x in multiset(front) || x == c;
          if x in multiset(front) {
            var k :| 0 <= k < |front| && front[k] == x;
            assert s[k] == x;
          }
        }
      }
    }
  }

  /** Insertion adds exactly `c` and keeps a sorted sequence sorted. */
  lemma InsertByOrderCorrect(s: seq<Consumer>, c: Consumer)
    ensures multiset(InsertByOrder(s, c)) == multiset(s) + multiset{c}
    ensures SortedByOrder(s) ==> SortedByOrder(InsertByOrder(s, c))
  {
    InsertByOrderPermutes(s, c);
    if SortedByOrder(s) {
      InsertByOrderSorted(s, c);
    }
  }

  /** `OrderBy(s => s.Order)`: a stable sort, here by insertion. */
  function SortByOrder(s: seq<Consumer>): (r: seq<Consumer>)
    ensures |r| == |s|
    decreases |s|
  {
    if s == [] then [] else InsertByOrder(SortByOrder(s[..|s| - 1]), s[|s| - 1])
  }

  /** The sort returns the same consumers, ascending by `Order`. */
  lemma {:induction false} SortByOrderCorrect(s: seq<Consumer>)
    ensures multiset(SortByOrder(s)) == multiset(s)
    ensures SortedByOrder(SortByOrder(s))
    decreases |s|
  {
    if s != [] {
      var front := s[..|s| - 1];
      assert s == front + [s[|s| - 1]];
      SortByOrderCorrect(front);
      InsertByOrderCorrect(SortByOrder(front), s[|s| - 1]);
    }
  }

  lemma {:induction false} WithOrderConcat(a: seq<Consumer>, b: seq<Consumer>, order: int)
    ensures WithOrder(a + b, order) == WithOrder(a, order) + WithOrder(b, order)
    decreases |b|
  {
    if b == [] {
      assert a + b == a;
    } else {
      var front := b[..|b| - 1];
      var last := b[|b| - 1];
      assert (a + b)[..|a + b| - 1] == a + front;
      assert (a + b)[|a + b| - 1] == last;
      WithOrderConcat(a, front, order);
      var tail := if last.order == order then [last] else [];
      assert WithOrder(a + b, order) == WithOrder(a + front, order) + tail;
      assert WithOrder(b, order) == WithOrder(front, order) + tail;
    }
  }

  lemma {:induction false} InsertKeepsTies(s: seq<Consumer>, c: Consumer, order: int)
    requires SortedByOrder(s)
    ensures WithOrder(InsertByOrder(s, c), order) == WithOrder(s, order) + (if c.order == order then [c] else [])
    decreases |s|
  {
    if s == [] || s[|s| - 1].order <= c.order {
      WithOrderConcat(s, [c], order);
      assert WithOrder([c], order) == WithOrder([], order) + (if c.order == order then [c] else []);
    } else {
      var front := s[..|s| - 1];
      var last := s[|s| - 1];
      var inserted := InsertByOrder(front, c);
      assert InsertByOrder(s, c) == inserted + [last];
      assert SortedByOrder(front);
      InsertKeepsTies(front, c, order);
      WithOrderConcat(inserted, [last], order);
      var x := if c.order == order then [c] else [];
      var l := if last.order == order then [last] else [];
      assert WithOrder([last], order) == WithOrder([], order) + l;
      assert WithOrder(s, order) == WithOrder(front, order) + l;
      assert x == [] || l == [];
      if x == [] {
        assert WithOrder(inserted, order) == WithOrder(front, order);
      } else {
        assert WithOrder(s, order) == WithOrder(front, order);
      }
    }
  }

  /** The sort is stable: the consumers of any one `Order` keep their relative order. */
  lemma {:induction false} SortIsStable(s: seq<Consumer>, order: int)
    ensures WithOrder(SortByOrder(s), order) == WithOrder(s, order)
    decreases |s|
  {
    if s != [] {
      var front := s[..|s| - 1];
      SortIsStable(front, order);
      SortByOrderCorrect(front);
      InsertKeepsTies(SortByOrder(front), s[|s| - 1], order);
    }
  }

  /** The invocations of the consumers of `s`, in order, all with `message`. */
  function Invocations(s: seq<Consumer>, message: string): (r: seq<Invocation>)
    ensures |r| == |s|
    ensures forall i | 0 <= i < |s| :: r[i] == Invocation(s[i].name, message)
  {
    seq(|s|, i requires 0 <= i < |s| => Invocation(s[i].name, message))
  }

  lemma InvocationsSnoc(s: seq<Consumer>, i: int, message: string)
    requires 0 <= i < |s|
    ensures Invocations(s[..i + 1], message) == Invocations(s[..i], message) + [Invocation(s[i].name, message)]
  {
    var a, b := Invocations(s[..i + 1], message), Invocations(s[..i], message) + [Invocation(s[i].name, message)];
    assert |a| == |b|;
    forall j | 0 <= j < |a| ensures a[j] == b[j] {
      if j < i {
        assert s[..i + 1][j] == s[..i][j];
      }
    }
  }

  /** Publishing stopped at the `k`-th consumer: it threw, none before it did,
      each of the first `k + 1` was invoked once, and its exception is the outcome. */
  predicate StoppedAt(sorted: seq<Consumer>, k: int, message: string, trace: seq<Invocation>, outcome: Outcome)
    requires 0 <= k < |sorted|
  {
    && sorted[k].fails
    && (forall j | 0 <= j < k :: !sorted[j].fails)
    && trace == Invocations(sorted[..k + 1], message)
    && outcome == Raised(HandlerException(sorted[k].name))
  }

  class SubscriberService {
    /** The registrations of the service provider. */
    const registrations: seq<Registration>

    constructor (registrations: seq<Registration>)
      ensures this.registrations == registrations
    {
      this.registrations := registrations;
    }

    /** `GetSubscribers<T>()`: a new list of every consumer resolved for the
        event type, in resolution order, without filtering or de-duplication. */
    method GetSubscribers(eventType: TypeId) returns (consumers: seq<Consumer>)
      ensures consumers == Resolve(registrations, eventType)
      ensures |consumers| == |Resolve(registrations, eventType)|
    {
      var types := Resolve(registrations, eventType);
      consumers := [];
      var i := 0;
      while i < |types|
        invariant 0 <= i <= |types|
        invariant consumers == types[..i]
      {
        consumers := consumers + [types[i]];
        i := i + 1;
      }
    }
  }

  class EventPublisher {
    const subscriberService: SubscriberService

    constructor (subscriberService: SubscriberService)
      ensures this.subscriberService == subscriberService
    {
      this.subscriberService := subscriberService;
    }

    /** `PublishAsync<T>(message)`: every consumer, in sorted order, handles the
        message to completion before the next starts. When none throws, each is
        invoked exactly once; when one throws, those before it have each been
        invoked once, it was invoked, its exception reaches the caller, and no
        later consumer is invoked. */
    method PublishAsync(eventType: TypeId, message: string) returns (trace: seq<Invocation>, outcome: Outcome)
      ensures var sorted := SortByOrder(Resolve(subscriberService.registrations, eventType));
        && (outcome.Completed? <==> forall i | 0 <= i < |sorted| :: !sorted[i].fails)
        && (outcome.Completed? ==> trace == Invocations(sorted, message))
        && (outcome.Raised? ==> exists k | 0 <= k < |sorted| :: StoppedAt(sorted, k, message, trace, outcome))
    {
      var subscribers := subscriberService.GetSubscribers(eventType);
      var sorted := SortByOrder(subscribers);
      trace := [];
      var i := 0;
      while i < |sorted|
        invariant 0 <= i <= |sorted|
        invariant forall j | 0 <= j < i :: !sorted[j].fails
        invariant trace == Invocations(sorted[..i], message)
      {
        var invocation, result := PublishToConsumerAsync(sorted[i], message);
        InvocationsSnoc(sorted, i, message);
        trace := trace + [invocation];
        if result.Raised? {
          outcome := result;
          assert StoppedAt(sorted, i, message, trace, outcome);
          assert sorted == SortByOrder(Resolve(subscriberService.registrations, eventType));
          assert !(forall j | 0 <= j < |sorted| :: !sorted[j].fails) by {
            assert sorted[i].fails;
          }
          return;
        }
        i := i + 1;
      }
      assert sorted[..i] == sorted;
      outcome := Completed;
    }

    /** `PublishToConsumerAsync(consumer, message)`: calls `HandleAsync` and
        re-throws what it throws, after logging it. */
    method PublishToConsumerAsync(consumer: Consumer, message: string) returns (invocation: Invocation, outcome: Outcome)
      ensures invocation == Invocation(consumer.name, message)
      ensures outcome.Raised? <==> consumer.fails
      ensures outcome.Raised? ==> outcome.error == HandlerException(consumer.name)
    {
      invocation := Invocation(consumer.name, message);
      outcome := if consumer.fails then Raised(HandlerException(consumer.name)) else Completed;
    }
  }

  /** An event type with no consumer: publishing does nothing. */
  method PublishWithoutConsumers(registrations: seq<Registration>, eventType: TypeId, message: string)
    returns (trace: seq<Invocation>, outcome: Outcome)
    requires forall i | 0 <= i < |registrations| :: registrations[i].eventType != eventType
    ensures trace == [] && outcome == Completed
  {
    ResolveNone(registrations, eventType);
    var service := new SubscriberService(registrations);
    var publisher := new EventPublisher(service);
    trace, outcome := publisher.PublishAsync(eventType, message);
  }

  /** The playground's registrations for `Event<Person>`: ProfileUpdatedConsumer
      (Order 1) and RandomConsumer (Order 2), registered in that order or the other. */
  function PlaygroundRegistrations(registerRandomFirst: bool): seq<Registration> {
    var profile := Registration("Event<Person>", Consumer("ProfileUpdatedConsumer", 1, false));
    var random := Registration("Event<Person>", Consumer("RandomConsumer", 2, false));
    if registerRandomFirst then [random, profile] else [profile, random]
  }

  lemma ResolveTwo(eventType: TypeId, a: Consumer, b: Consumer)
    ensures Resolve([Registration(eventType, a), Registration(eventType, b)], eventType) == [a, b]
  {
    var registrations := [Registration(eventType, a), Registration(eventType, b)];
    assert registrations[..1] == [registrations[0]];
    assert [registrations[0]][..0] == [];
  }

  lemma SortTwo(a: Consumer, b: Consumer)
    ensures SortByOrder([a, b]) == if a.order <= b.order then [a, b] else [b, a]
  {
    var one, two := [a], [a, b];
    assert two[..|two| - 1] == one && two[|two| - 1] == b;
    assert one[..|one| - 1] == [] && one[|one| - 1] == a;
    assert SortByOrder(one) == InsertByOrder([], a) == [a];
    assert SortByOrder(two) == InsertByOrder(one, b);
    if b.order < a.order {
      assert InsertByOrder(one, b) == InsertByOrder([], b) + [a];
    }
  }

  /** In either registration order the consumers are dispatched as ProfileUpdatedConsumer, RandomConsumer. */
  lemma PlaygroundDispatchOrder(registerRandomFirst: bool)
    ensures SortByOrder(Resolve(PlaygroundRegistrations(registerRandomFirst), "Event<Person>"))
      == [Consumer("ProfileUpdatedConsumer", 1, false), Consumer("RandomConsumer", 2, false)]
  {
    var p := Consumer("ProfileUpdatedConsumer", 1, false);
    var r := Consumer("RandomConsumer", 2, false);
    if registerRandomFirst {
      ResolveTwo("Event<Person>", r, p);
      SortTwo(r, p);
    } else {
      ResolveTwo("Event<Person>", p, r);
      SortTwo(p, r);
    }
  }

  /** Nobody among the playground's sorted consumers throws, and their
      invocations name ProfileUpdatedConsumer, then RandomConsumer. */
  lemma PlaygroundInvocations(registerRandomFirst: bool)
    ensures var sorted := SortByOrder(Resolve(PlaygroundRegistrations(registerRandomFirst), "Event<Person>"));
      && (forall i | 0 <= i < |sorted| :: !sorted[i].fails)
      && Invocations(sorted, "profile") == [Invocation("ProfileUpdatedConsumer", "profile"), Invocation("RandomConsumer", "profile")]
  {
    PlaygroundDispatchOrder(registerRandomFirst);
  }

  /** Publishing `Event<Person>` to the playground's consumers: ProfileUpdatedConsumer
      handles the event first, then RandomConsumer. */
  method ProfileUpdatedScenario(registerRandomFirst: bool) returns (trace: seq<Invocation>, outcome: Outcome)
    ensures outcome == Completed
    ensures trace == [Invocation("ProfileUpdatedConsumer", "profile"), Invocation("RandomConsumer", "profile")]
  {
    var service := new SubscriberService(PlaygroundRegistrations(registerRandomFirst));
    var publisher := new EventPublisher(service);
    PlaygroundInvocations(registerRandomFirst);
    trace, outcome := publisher.PublishAsync("Event<Person>", "profile");
  }
}
