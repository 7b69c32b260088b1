/**
 A model of a generic publish/subscribe registry: a map from topic keys to
 sets of subscriber channels, with batch Subscribe/Unsubscribe and a
 cancellable fan-out Publish.

 Channels are opaque identities (the type parameter `Ch`). A channel send
 racing a cancellation is replaced by an oracle: one `Outcome` per attempted
 subscriber, in the order the subscriber set is enumerated.
 */
module Pubsub {

  // ---------------------------------------------------------------------------
  // The subscriber index and its specification
  // ---------------------------------------------------------------------------

  /** The registry's state: each key maps to the set of its subscribers. */
  type Index<K, Ch> = map<K, set<Ch>>

  /** The subscribers of `k`; an absent key has none. */
  function Members<K, Ch>(m: Index<K, Ch>, k: K): (s: set<Ch>)
  {
    if k in m then m[k] else {}
  }

  /** The registry invariant: a key is present only while its set is non-empty. */
  ghost predicate WellFormed<K, Ch>(m: Index<K, Ch>)
  {
    forall k :: k in m ==> m[k] != {}
  }

  /** One step of Subscribe: create the key's set on first use, then add `ch`. */
  function AddSubscriber<K, Ch>(m: Index<K, Ch>, k: K, ch: Ch): (r: Index<K, Ch>)
  {
    m[k := Members(m, k) + {ch}]
  }

  /** One step of Unsubscribe: drop `ch` from a present key, and the key once its set is empty. */
  function RemoveSubscriber<K, Ch>(m: Index<K, Ch>, k: K, ch: Ch): (r: Index<K, Ch>)
  {
    if k !in m then m
    else if m[k] - {ch} == {} then m - {k}
    else m[k := m[k] - {ch}]
  }

  /** Subscribe(keys, ch) applied to `m`: the keys are processed front to back. */
  function SubscribeAll<K, Ch>(m: Index<K, Ch>, keys: seq<K>, ch: Ch): (r: Index<K, Ch>)
    decreases |keys|
  {
    if keys == [] then m
    else AddSubscriber(SubscribeAll(m, keys[..|keys| - 1], ch), keys[|keys| - 1], ch)
  }

  /** Unsubscribe(keys, ch) applied to `m`: the keys are processed front to back. */
  function UnsubscribeAll<K, Ch>(m: Index<K, Ch>, keys: seq<K>, ch: Ch): (r: Index<K, Ch>)
    decreases |keys|
  {
    if keys == [] then m
    else RemoveSubscriber(UnsubscribeAll(m, keys[..|keys| - 1], ch), keys[|keys| - 1], ch)
  }

  /** Two indexes that agree on every key's presence and members are equal. */
  lemma IndexExtensionality<K, Ch>(a: Index<K, Ch>, b: Index<K, Ch>)
    requires forall k :: (k in a <==> k in b) && Members(a, k) == Members(b, k)
    ensures a == b
  {
  }

  /** What Subscribe does to each key: listed keys gain `ch` and become present; others are untouched. */
  lemma {:induction false} SubscribeAllMembers<K, Ch>(m: Index<K, Ch>, keys: seq<K>, ch: Ch, k: K)
    ensures k in SubscribeAll(m, keys, ch) <==> k in m || k in keys
    ensures Members(SubscribeAll(m, keys, ch), k) ==
              if k in keys then Members(m, k) + {ch} else Members(m, k)
    decreases |keys|
  {
    if keys != [] {
      var n := |keys| - 1;
      assert keys == keys[..n] + [keys[n]];
      SubscribeAllMembers(m, keys[..n], ch, k);
    }
  }

  /**
   What Unsubscribe does to each key: listed keys lose `ch` and stay present only
   while something is left; others are untouched.
   */
  lemma {:induction false} UnsubscribeAllMembers<K, Ch>(m: Index<K, Ch>, keys: seq<K>, ch: Ch, k: K)
    ensures k in UnsubscribeAll(m, keys, ch) <==>
              k in m && (k in keys ==> Members(m, k) - {ch} != {})
    ensures Members(UnsubscribeAll(m, keys, ch), k) ==
              if k in keys then Members(m, k) - {ch} else Members(m, k)
    decreases |keys|
  {
    if keys != [] {
      var n := |keys| - 1;
      assert keys == keys[..n] + [keys[n]];
      UnsubscribeAllMembers(m, keys[..n], ch, k);
    }
  }

  /** Subscribe keeps every present key's set non-empty. */
  lemma {:induction false} SubscribePreservesWellFormed<K, Ch>(m: Index<K, Ch>, keys: seq<K>, ch: Ch)
    requires WellFormed(m)
    ensures WellFormed(SubscribeAll(m, keys, ch))
  {
    var r := SubscribeAll(m, keys, ch);
    forall k | k in r ensures r[k] != {} {
      SubscribeAllMembers(m, keys, ch, k);
      assert k in keys ==> ch in Members(r, k);
    }
  }

  /** Unsubscribe keeps every present key's set non-empty: emptied keys are deleted. */
  lemma {:induction false} UnsubscribePreservesWellFormed<K, Ch>(m: Index<K, Ch>, keys: seq<K>, ch: Ch)
    requires WellFormed(m)
    ensures WellFormed(UnsubscribeAll(m, keys, ch))
  {
    var r := UnsubscribeAll(m, keys, ch);
    forall k | k in r ensures r[k] != {} {
      UnsubscribeAllMembers(m, keys, ch, k);
    }
  }

  /** Subscribing twice with the same keys and channel is the same as subscribing once. */
  lemma SubscribeIdempotent<K, Ch>(m: Index<K, Ch>, keys: seq<K>, ch: Ch)
    ensures SubscribeAll(SubscribeAll(m, keys, ch), keys, ch) == SubscribeAll(m, keys, ch)
  {
    var once := SubscribeAll(m, keys, ch);
    var twice := SubscribeAll(once, keys, ch);
    forall k ensures (k in twice <==> k in once) && Members(twice, k) == Members(once, k) {
      SubscribeAllMembers(m, keys, ch, k);
      SubscribeAllMembers(once, keys, ch, k);
    }
    IndexExtensionality(twice, once);
  }

  /** Unsubscribing twice with the same keys and channel is the same as unsubscribing once. */
  lemma UnsubscribeIdempotent<K, Ch>(m: Index<K, Ch>, keys: seq<K>, ch: Ch)
    ensures UnsubscribeAll(UnsubscribeAll(m, keys, ch), keys, ch) == UnsubscribeAll(m, keys, ch)
  {
    var once := UnsubscribeAll(m, keys, ch);
    var twice := UnsubscribeAll(once, keys, ch);
    forall k ensures (k in twice <==> k in once) && Members(twice, k) == Members(once, k) {
      UnsubscribeAllMembers(m, keys, ch, k);
      UnsubscribeAllMembers(once, keys, ch, k);
    }
    IndexExtensionality(twice, once);
  }

  /**
   Unsubscribing a channel from keys it is not subscribed to (absent keys
   included) leaves a well-formed index unchanged.
   */
  lemma UnsubscribeNotSubscribedIsNoop<K, Ch>(m: Index<K, Ch>, keys: seq<K>, ch: Ch)
    requires WellFormed(m)
    requires forall k :: k in keys ==> ch !in Members(m, k)
    ensures UnsubscribeAll(m, keys, ch) == m
  {
    var r := UnsubscribeAll(m, keys, ch);
    forall k ensures (k in r <==> k in m) && Members(r, k) == Members(m, k) {
      UnsubscribeAllMembers(m, keys, ch, k);
      assert k in keys ==> Members(m, k) - {ch} == Members(m, k);
    }
    IndexExtensionality(r, m);
  }

  /**
   Unsubscribe undoes Subscribe: a channel that was on none of `keys` is
   subscribed and then unsubscribed, and the index is as before.
   */
  lemma SubscribeThenUnsubscribe<K, Ch>(m: Index<K, Ch>, keys: seq<K>, ch: Ch)
    requires WellFormed(m)
    requires forall k :: k in keys ==> ch !in Members(m, k)
    ensures UnsubscribeAll(SubscribeAll(m, keys, ch), keys, ch) == m
  {
    var s := SubscribeAll(m, keys, ch);
    var r := UnsubscribeAll(s, keys, ch);
    forall k ensures (k in r <==> k in m) && Members(r, k) == Members(m, k) {
      SubscribeAllMembers(m, keys, ch, k);
      UnsubscribeAllMembers(s, keys, ch, k);
      assert k in keys ==> (Members(m, k) + {ch}) - {ch} == Members(m, k);
    }
    IndexExtensionality(r, m);
  }

  // ---------------------------------------------------------------------------
  // Fan-out delivery and its specification
  // ---------------------------------------------------------------------------

  /** What happens at one subscriber: the hand-off succeeds, or cancellation wins. */
  datatype Outcome = Accepted | Cancelled

  /** Why a context was cancelled: an explicit cancel or an elapsed deadline. */
  datatype Cause = Canceled | DeadlineExceeded

  datatype Option<T> = None | Some(value: T)

  /** What Publish returns: the number of deliveries and the context error, if any. */
  datatype Delivery = Delivery(delivered: nat, err: Option<Cause>)

  /** The index of the first cancelled hand-off, or |outcomes| when every one is accepted. */
  function FirstCancelled(outcomes: seq<Outcome>): (k: nat)
    ensures k <= |outcomes|
    ensures forall j :: 0 <= j < k ==> outcomes[j] == Accepted
    ensures k < |outcomes| ==> outcomes[k] == Cancelled
  {
    if outcomes == [] then 0
    else match outcomes[0]
      case Cancelled => 0
      case Accepted =>
        var rest := FirstCancelled(outcomes[1..]);
        assert forall j :: 1 <= j <= rest ==> outcomes[j] == outcomes[1..][j - 1];
        1 + rest
  }

  /** The fan-out over a key's subscribers, one outcome per subscriber, in iteration order. */
  function FanOut(outcomes: seq<Outcome>, cause: Cause): (r: Delivery)
  {
    var k := FirstCancelled(outcomes);
    if k < |outcomes| then Delivery(k, Some(cause)) else Delivery(|outcomes|, None)
  }

  /** Publish on `m`: an absent key is a successful publish to nobody. */
  function PublishSpec<K, Ch>(m: Index<K, Ch>, key: K, outcomes: seq<Outcome>, cause: Cause): (r: Delivery)
  {
    if key !in m then Delivery(0, None) else FanOut(outcomes, cause)
  }

  /** The delivered count never exceeds the number of subscribers, and an error is always the context's cause. */
  lemma FanOutBounds(outcomes: seq<Outcome>, cause: Cause)
    ensures 0 <= FanOut(outcomes, cause).delivered <= |outcomes|
    ensures FanOut(outcomes, cause).err == None <==> FanOut(outcomes, cause).delivered == |outcomes|
    ensures FanOut(outcomes, cause).err != None ==> FanOut(outcomes, cause).err == Some(cause)
  {
  }

  /** When every hand-off is accepted, all n subscribers get the message and there is no error. */
  lemma {:induction false} FanOutAllAccepted(outcomes: seq<Outcome>, cause: Cause)
    requires forall j :: 0 <= j < |outcomes| ==> outcomes[j] == Accepted
    ensures FanOut(outcomes, cause) == Delivery(|outcomes|, None)
  {
  }

  /** When the first cancelled hand-off is the k-th, exactly k subscribers got the message and the cause is returned. */
  lemma FanOutCancelledAt(outcomes: seq<Outcome>, cause: Cause, k: nat)
    requires k < |outcomes| && outcomes[k] == Cancelled
    requires forall j :: 0 <= j < k ==> outcomes[j] == Accepted
    ensures FanOut(outcomes, cause) == Delivery(k, Some(cause))
  {
  }

  /** Outcomes after the first cancellation are never consulted: no later subscriber is attempted. */
  lemma FanOutIgnoresLaterOutcomes(a: seq<Outcome>, b: seq<Outcome>, cause: Cause, k: nat)
    requires k < |a| && k < |b|
    requires a[..k + 1] == b[..k + 1] && a[k] == Cancelled
    ensures FanOut(a, cause) == FanOut(b, cause)
  {
  }

  /**
   Publishing to a key right after its last subscriber left is a successful
   publish to nobody, as for a key that never had a subscriber.
   */
  lemma UnsubscribeLastThenPublish<K, Ch>(m: Index<K, Ch>, keys: seq<K>, ch: Ch, key: K,
                                          outcomes: seq<Outcome>, cause: Cause)
    requires key in keys && Members(m, key) <= {ch}
    ensures key !in UnsubscribeAll(m, keys, ch)
    ensures PublishSpec(UnsubscribeAll(m, keys, ch), key, outcomes, cause) == Delivery(0, None)
  {
    UnsubscribeAllMembers(m, keys, ch, key);
  }

  /** `order` lists every member of `s` exactly once. */
  ghost predicate IsEnumeration<Ch>(order: seq<Ch>, s: set<Ch>)
  {
    && (forall i, j :: 0 <= i < j < |order| ==> order[i] != order[j])
    && s == (set i | 0 <= i < |order| :: order[i])
  }

  /** An enumeration of a set has one entry per member. */
  lemma {:induction false} EnumerationSize<Ch>(order: seq<Ch>, s: set<Ch>)
    requires IsEnumeration(order, s)
    ensures |order| == |s|
    decreases |order|
  {
    if order != [] {
      var n := |order| - 1;
      var prefix := order[..n];
      var rest := s - {order[n]};
      forall c | c in rest ensures c in (set i | 0 <= i < n :: prefix[i]) {
        var i :| 0 <= i < |order| && order[i] == c;
        assert i != n;
        assert prefix[i] == c;
      }
      forall i | 0 <= i < n ensures prefix[i] in rest {
        assert prefix[i] == order[i] != order[n];
      }
      assert rest == (set i | 0 <= i < n :: prefix[i]);
      EnumerationSize(prefix, rest);
    }
  }

  // ---------------------------------------------------------------------------
  // The registry object
  // ---------------------------------------------------------------------------

  /** The registry: the subscriber index, updated in place by Subscribe and Unsubscribe. */
  class PubSub<K(==), Ch(==)> {
    var subscribers: Index<K, Ch>

    ghost predicate Valid()
      reads this
    {
      WellFormed(subscribers)
    }

    /** New: an empty registry. */
    constructor ()
      ensures Valid()
      ensures subscribers == map[]
    {
      subscribers := map[];
    }

    /** Adds `ch` under each of `keys`, creating a key's set on first use. */
    method Subscribe(keys: seq<K>, ch: Ch)
      requires Valid()
      modifies this
      ensures Valid()
      ensures subscribers == SubscribeAll(old(subscribers), keys, ch)
      ensures forall k :: k in keys ==> k in subscribers && subscribers[k] == Members(old(subscribers), k) + {ch}
      ensures forall k :: k !in keys ==> (k in subscribers <==> k in old(subscribers))
      ensures forall k :: k !in keys && k in subscribers ==> subscribers[k] == old(subscribers)[k]
    {
      for i := 0 to |keys|
        invariant subscribers == SubscribeAll(old(subscribers), keys[..i], ch)
      {
        var key := keys[i];
        if key !in subscribers {
          subscribers := subscribers[key := {}];
        }
        subscribers := subscribers[key := subscribers[key] + {ch}];
        assert keys[..i + 1][..i] == keys[..i];
      }
      assert keys[..|keys|] == keys;
      SubscribePreservesWellFormed(old(subscribers), keys, ch);
      forall k ensures k in subscribers <==> k in old(subscribers) || k in keys
        ensures Members(subscribers, k) == if k in keys then Members(old(subscribers), k) + {ch} else Members(old(subscribers), k)
      {
        SubscribeAllMembers(old(subscribers), keys, ch, k);
      }
    }

    /** Removes `ch` from each of `keys`, deleting a key once its set is empty. */
    method Unsubscribe(keys: seq<K>, ch: Ch)
      requires Valid()
      modifies this
      ensures Valid()
      ensures subscribers == UnsubscribeAll(old(subscribers), keys, ch)
      ensures forall k :: k in keys ==> ch !in Members(subscribers, k)
      ensures forall k :: k in keys ==> Members(subscribers, k) == Members(old(subscribers), k) - {ch}
      ensures forall k :: k in keys && k in old(subscribers) && old(subscribers)[k] - {ch} == {} ==> k !in subscribers
      ensures forall k :: k !in keys ==> (k in subscribers <==> k in old(subscribers))
      ensures forall k :: k !in keys && k in subscribers ==> subscribers[k] == old(subscribers)[k]
    {
      for i := 0 to |keys|
        invariant subscribers == UnsubscribeAll(old(subscribers), keys[..i], ch)
      {
        var key := keys[i];
        if key in subscribers {
          var subs := subscribers[key] - {ch};
          subscribers := subscribers[key := subs];
          if |subs| == 0 {
            subscribers := subscribers - {key};
          }
        }
        assert keys[..i + 1][..i] == keys[..i];
      }
      assert keys[..|keys|] == keys;
      UnsubscribePreservesWellFormed(old(subscribers), keys, ch);
      forall k ensures k in subscribers <==> k in old(subscribers) && (k in keys ==> Members(old(subscribers), k) - {ch} != {})
        ensures Members(subscribers, k) == if k in keys then Members(old(subscribers), k) - {ch} else Members(old(subscribers), k)
      {
        UnsubscribeAllMembers(old(subscribers), keys, ch, k);
      }
    }

    /**
     Offers `msg` to every subscriber of `key`, in the order `order`, until
     one hand-off is cancelled. `outcomes[i]` is what happens at `order[i]`;
     `received` is the sequence of channels that took the message.
     */
    method Publish<T>(key: K, msg: T, order: seq<Ch>, outcomes: seq<Outcome>, cause: Cause)
      returns (delivered: nat, err: Option<Cause>, ghost received: seq<Ch>)
      requires IsEnumeration(order, Members(subscribers, key))
      requires |outcomes| == |order|
      ensures Delivery(delivered, err) == PublishSpec(subscribers, key, outcomes, cause)
      ensures key !in subscribers ==> delivered == 0 && err == None
      ensures delivered <= |order|
      ensures err == None ==> delivered == |order| == |Members(subscribers, key)|
      ensures err != None ==> err == Some(cause) && outcomes[delivered] == Cancelled
      ensures forall j :: 0 <= j < delivered ==> outcomes[j] == Accepted
      ensures received == order[..delivered]
      ensures forall c :: c in received ==> c in Members(subscribers, key)
    {
      if key !in subscribers {
        EnumerationSize(order, Members(subscribers, key));
        return 0, None, [];
      }
      delivered, received := 0, [];
      for i := 0 to |order|
        invariant delivered == i
        invariant forall j :: 0 <= j < i ==> outcomes[j] == Accepted
        invariant received == order[..i]
      {
        match outcomes[i]
        case Accepted =>
          received := received + [order[i]];
          delivered := delivered + 1;
        case Cancelled =>
          FanOutCancelledAt(outcomes, cause, i);
          return delivered, Some(cause), received;
      }
      FanOutAllAccepted(outcomes, cause);
      EnumerationSize(order, Members(subscribers, key));
      err := None;
    }

    /** Publish with a context whose deadline is the only way it can be cancelled. */
    method PublishWithTimeout<T>(key: K, msg: T, order: seq<Ch>, outcomes: seq<Outcome>)
      returns (delivered: nat, err: Option<Cause>, ghost received: seq<Ch>)
      requires IsEnumeration(order, Members(subscribers, key))
      requires |outcomes| == |order|
      ensures Delivery(delivered, err) == PublishSpec(subscribers, key, outcomes, DeadlineExceeded)
      ensures err != Some(Canceled)
      ensures received == order[..delivered]
    {
      delivered, err, received := Publish(key, msg, order, outcomes, DeadlineExceeded);
    }
  }

  /**
   The expected return values of pubsub_test.go and example_test.go, with one
   subscriber channel numbered 1: a ready reader gets the message (with and
   without a timeout), and a context cancelled beforehand or a deadline that
   elapses first delivers nothing.
   */
  method PackageTestScenarios()
  {
    var ps := new PubSub<string, int>();
    ps.Subscribe(["topic"], 1);
    assert Members(ps.subscribers, "topic") == {1};
    assert [1][0] == 1;
    assert IsEnumeration([1], {1});

    var delivered, err, received := ps.Publish("topic", "msg", [1], [Accepted], Canceled);
    assert delivered == 1 && err == None && received == [1];

    delivered, err, received := ps.Publish("topic", "msg", [1], [Cancelled], Canceled);
    assert delivered == 0 && err == Some(Canceled);

    delivered, err, received := ps.Publish("topic", "msg", [1], [Cancelled], DeadlineExceeded);
    assert delivered == 0 && err == Some(DeadlineExceeded);

    delivered, err, received := ps.PublishWithTimeout("topic", "msg", [1], [Cancelled]);
    assert delivered == 0 && err == Some(DeadlineExceeded);

    delivered, err, received := ps.PublishWithTimeout("topic", "timeout-test", [1], [Accepted]);
    assert delivered == 1 && err == None;
  }

  /**
   Beyond those files: two subscribers on one key both get the message, and a
   key whose last subscriber left behaves like one never subscribed to.
   */
  method FanOutAndCleanupScenario()
  {
    var ps := new PubSub<string, int>();
    ps.Subscribe(["topic1"], 1);
    ps.Subscribe(["topic1", "topic2"], 2);
    assert Members(ps.subscribers, "topic1") == {1, 2};
    assert [2, 1][0] == 2 && [2, 1][1] == 1;
    assert IsEnumeration([2, 1], {1, 2});
    var delivered, err, received := ps.Publish("topic1", "hello", [2, 1], [Accepted, Accepted], Canceled);
    assert delivered == 2 && err == None && received == [2, 1];

    ps.Unsubscribe(["topic1"], 1);
    ps.Unsubscribe(["topic1"], 2);
    assert "topic1" !in ps.subscribers;
    delivered, err, received := ps.Publish("topic1", "msg", [], [], Canceled);
    assert delivered == 0 && err == None;
  }
}
