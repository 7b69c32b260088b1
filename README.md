# pubsub — a Dafny model of a generic publish/subscribe registry

The Go package `pubsub` keeps a registry from topic keys to sets of
subscriber channels. `Subscribe` adds one channel under a list of keys.
`Unsubscribe` removes it again and deletes a key whose set became empty.
`Publish` hands a message to every subscriber of one key and stops at the
first hand-off that loses to context cancellation. It returns the number of
deliveries and the context's error. `PublishWithTimeout` is `Publish` under a
context with a deadline.

`pubsub.dfy` holds one module, `Pubsub`:

- **The index** is `map<K, set<Ch>>`, with keys `K` and channel identities
  `Ch`. `SubscribeAll` and `UnsubscribeAll` specify the two batch updates key
  by key, front to back, as the Go loops run. `WellFormed` is the registry
  invariant: a present key has a non-empty set.
- **The fan-out** is specified by `FirstCancelled`, `FanOut` and
  `PublishSpec`. The Go `select` between `ch <- msg` and `<-ctx.Done()` is
  replaced by an oracle: `outcomes[i]` says whether the i-th hand-off was
  `Accepted` or `Cancelled`. The cancellation cause (`Canceled` or
  `DeadlineExceeded`) is a parameter, as `ctx.Err()` is fixed per context.
- **The class `PubSub`** holds the `subscribers` field, which `Subscribe` and
  `Unsubscribe` update in place with loops. Each loop is proved against the
  specification function. `Publish` takes the map's iteration order as a
  parameter `order`, a duplicate-free enumeration of the key's set. It runs
  the counting loop and returns `(delivered, err)`. It also returns a ghost
  sequence `received` of the channels that took the message.
- `PackageTestScenarios` states the expected return values of the package's
  tests and example (pubsub_test.go, example_test.go) against the model.
  `FanOutAndCleanupScenario` adds two cases those files do not have: two
  subscribers on one key, and a key whose last subscriber left.

## Model

| member | source | states |
|---|---|---|
| `Pubsub.PubSub.constructor` | pubsub.go:25-28 | `New` yields a registry with no keys at all, which satisfies the invariant |
| `Pubsub.PubSub.Subscribe` | pubsub.go:37-48 | keeps the invariant; the new index is `SubscribeAll` of the old; every listed key holds its old members plus `ch`; unlisted keys keep their presence and set |
| `Pubsub.PubSub.Unsubscribe` | pubsub.go:54-67 | keeps the invariant; the new index is `UnsubscribeAll` of the old; `ch` is under no listed key; other members of listed keys remain; a listed key whose set became empty is absent; unlisted keys are unchanged |
| `Pubsub.PubSub.Publish` | pubsub.go:74-94 | changes nothing; the result equals `PublishSpec`; an absent key gives `(0, nil)`; with no error every one of the key's n subscribers got the message, so the count is n; with an error the error is the context's cause and the hand-off at the returned count was the first cancelled one; the channels that got the message are exactly the first `delivered` of the enumeration, each once |
| `Pubsub.PubSub.PublishWithTimeout` | pubsub.go:97-102 | behaves as `Publish` with cause `DeadlineExceeded`, so the error is never `Canceled` |
| `Pubsub.SubscribeAllMembers` | pubsub.go:41-47 | after Subscribe, a key is present iff it was present or is listed; a listed key's set is its old set plus `ch`; an unlisted key's set is unchanged |
| `Pubsub.UnsubscribeAllMembers` | pubsub.go:58-66 | after Unsubscribe, a listed key's set is its old set minus `ch`, and the key stays only if that is non-empty; an unlisted key is unchanged |
| `Pubsub.SubscribePreservesWellFormed` | pubsub.go:41-46 | Subscribe keeps every present key's set non-empty |
| `Pubsub.UnsubscribePreservesWellFormed` | pubsub.go:58-64 | Unsubscribe keeps every present key's set non-empty, because emptied keys are deleted |
| `Pubsub.SubscribeIdempotent` | pubsub.go:31-46 | subscribing twice with the same keys and channel gives the same index as once; no duplicate entry can arise because each key's subscribers are a `set<Ch>` |
| `Pubsub.UnsubscribeIdempotent` | pubsub.go:54-66 | unsubscribing twice with the same keys and channel gives the same index as once |
| `Pubsub.UnsubscribeNotSubscribedIsNoop` | pubsub.go:50-60 | unsubscribing a channel from keys it is not on, absent keys included, leaves a well-formed index unchanged |
| `Pubsub.SubscribeThenUnsubscribe` | pubsub.go:37-67 | Unsubscribe undoes Subscribe for a channel that was on none of the keys |
| `Pubsub.UnsubscribeLastThenPublish` | pubsub.go:59-80 | once the last subscriber of a key unsubscribes, the key is absent and publishing to it returns `(0, nil)` |
| `Pubsub.FirstCancelled` | pubsub.go:84-89 | the index of the first cancelled hand-off: every earlier one was accepted, and it is cancelled unless it is the end |
| `Pubsub.FanOutBounds` | pubsub.go:83-93 | `0 <= delivered <= n`; there is no error iff all n subscribers got the message; an error is always the context's cause |
| `Pubsub.FanOutAllAccepted` | pubsub.go:84-93 | when every hand-off is accepted the result is `(n, nil)` |
| `Pubsub.FanOutCancelledAt` | pubsub.go:84-89 | when the first cancelled hand-off is at index k the result is `(k, cause)` |
| `Pubsub.FanOutIgnoresLaterOutcomes` | pubsub.go:88-89 | outcomes after the first cancellation do not affect the result: no later subscriber is attempted |
| `Pubsub.EnumerationSize` | pubsub.go:84 | a duplicate-free enumeration of a subscriber set has one entry per subscriber |

## Left out

- The `sync.RWMutex` and concurrent callers (pubsub.go:19, 38-39, 55-56, 75-76). Each call is modelled as one atomic step.
- Go channel sends, blocking and the random choice of `select` (pubsub.go:85-89). An oracle sequence of outcomes, one per attempted subscriber, stands in for them.
- A send to a closed subscriber channel panics inside `Publish` (pubsub.go:86). Neither `Outcome` value represents that panic, so the model does not capture it.
- A `PubSub` value not created by `New` (its zero value) has a nil map, and `Subscribe` panics on its first key (pubsub.go:43). A Dafny object exists only through its constructor, so this path is not modelled; on such a value `Unsubscribe` and `Publish` only read the map and behave as on an empty registry.
- Keys are assumed to have reflexive, hashable equality, as the type parameter `K` with Dafny's `==` always has. Go map semantics break this for some legal key types, and those panic paths are not modelled:
  - a NaN `float64` key: the lookup at pubsub.go:42 misses, line 43 inserts an empty set under NaN, and the write at pubsub.go:46 looks NaN up again, finds no set and panics. Keys earlier in the same batch are already updated, so the batch is not atomic. A recovered caller is left with an empty set that can never be deleted, which breaks `WellFormed`;
  - an interface key holding an unhashable value (a slice, say): the first map access panics in `Subscribe` (pubsub.go:42), `Unsubscribe` (pubsub.go:59) and `Publish` (pubsub.go:78).
- Map iteration order (pubsub.go:84). `Publish` accepts any duplicate-free enumeration of the key's set, and nothing is proved about a particular order.
- `context.WithTimeout`, `time.Duration` and real time (pubsub.go:98-99). `PublishWithTimeout` takes no duration. It is `Publish` whose only possible cause is `DeadlineExceeded`; whether the deadline elapses is part of the oracle.
- The message value is passed through and never inspected. Which message ends up in which channel buffer is represented only by the ghost `received` sequence.
- The inner Go maps are reference values that are mutated in place. The model stores them as value sets; they never escape the registry, so no aliasing is observable.
- Test goroutines, `time.Sleep` and example printing (pubsub_test.go, example_test.go). `PackageTestScenarios` keeps only their expected return values.
