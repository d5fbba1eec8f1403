# event-driven: a verified model of the dispatcher

`EventDriven::Dispatcher` is an in-process publish/subscribe dispatcher. Listeners subscribe
to an event name with an integer priority (0 by default). Dispatching an event calls the
listeners of its name from the highest priority to the lowest. Within one priority, the
oldest registration is called first. A listener can call `stop_propagation` on the
`EventDriven::Event` it receives, and then no later listener is called.

The dispatcher keeps two tables:

- `@events` maps each event name to its priority buckets. It is the source of truth.
- `@sorted_listeners` maps each event name to its delivery order. It is a cache, and every
  mutation rebuilds the entry of the name it touched.

The model is split by module:

- `Listeners` (`listeners.dfy`) holds the pure part, as functions on values.
  - The priority map of one name is a sequence of `Bucket(priority, listeners)`, in bucket
    creation order, because a Ruby `Hash` keeps insertion order.
  - `SortDescending` and `Flatten` model the sort-and-flatten of `update_sorted_listeners`.
  - `AppendTo` models `<<` into a bucket.
  - `Delete` and `Without` model `Array#delete` applied to every bucket.
  - `FindPriority` models the `each_pair` search of `priority`.
  - `Delivered` gives the listeners that a dispatch calls.
- `Dispatchers` (`dispatcher.dfy`) holds `class Dispatcher`.
  - Its fields are `events` and `sortedListeners`, reassigned in place by its methods.
  - A ghost set `added` records the names ever passed to `add_listener`.
  - The object invariant `Valid()` states three things:
    - priorities are unique per name;
    - every cached entry equals the sort-and-flatten of the current buckets;
    - a name has buckets exactly when a listener was once added to it.
  - `remove_listener` walks the buckets in a loop.
  - `priority` is a loop with an early return.
  - `dispatch` is a loop that calls each listener unless the event is stopped.
- `Events` (`events.dfy`) holds `class Event`. Its one field is `@stopped`, which is unset
  (`nil`) until `stop_propagation` assigns `true`.
- `Scenarios` (`scenarios.dfy`) replays the examples of `spec/event_driven/dispatcher_spec.rb`
  as client methods. Each is proved from the contracts of `Dispatcher` and from lemmas about
  the `Listeners` functions on the example's literal buckets.
- `Options` (`options.dfy`) holds the `Option` datatype.

A listener's behaviour is a call into code the dispatcher cannot see. The model keeps one
fact about it: the function `stops: L -> bool` says whether calling that listener stops the
event. With it, `dispatch` answers the sequence of listeners it called.

Two points where the code differs from its own documentation. `listeners_for?` is modelled
as written; a `priority` miss is modelled as documented (`None`), see "## Left out":

- `listeners_for?` (dispatcher.rb:35-39) hands each `[priority, list]` pair to `any?`, and a
  pair always has length 2.
  - So the answer is whether any bucket exists for the name, even a bucket that
    `remove_listener` has emptied.
  - `HasListeners` is true exactly for the names ever added to.
- `priority` (dispatcher.rb:47-52) falls off the end of `each_pair` when the listener is not
  subscribed, and so returns the priority hash.
  - Its comment at line 46 says it returns `nil`. The model answers `None`.

## Model

| member | source | states |
|---|---|---|
| Events.Event.constructor | lib/event_driven/event.rb:3-16 | a new event has `@stopped` unset and reports `stopped?` false |
| Events.Event.StopPropagation | lib/event_driven/event.rb:7-9 | afterwards the event reports stopped, whatever its state was before, so calling it twice changes nothing more |
| Events.Event.IsStopped | lib/event_driven/event.rb:14-16 | `!!@stopped`: true exactly when `@stopped` holds `true`; `nil` reads as false; reading changes nothing |
| Listeners.Insert | lib/event_driven/dispatcher.rb:93 | one insertion step of the sort yields a permutation of the input plus the inserted bucket |
| Listeners.SortDescending | lib/event_driven/dispatcher.rb:93 | the sorted buckets are a permutation of the buckets; when priorities are unique (hash keys), the priorities strictly decrease |
| Listeners.SortStep | lib/event_driven/dispatcher.rb:93 | inserting the first bucket into the sorted rest gives a permutation that is strictly descending when priorities are unique |
| Listeners.InsertKeepsDescending | lib/event_driven/dispatcher.rb:93 | inserting a bucket of a new priority into a strictly descending sequence keeps it strictly descending |
| Listeners.DescendingArrangementUnique | lib/event_driven/dispatcher.rb:93 | two strictly descending arrangements of the same buckets are equal, so the unstable Ruby sort has only one possible result |
| Listeners.DeliveryOrderIsDescendingFlatten | lib/event_driven/dispatcher.rb:91-95 | the cached order is the concatenation of ANY strictly descending arrangement of the buckets |
| Listeners.DeliveryOrderPlacesBucket | lib/event_driven/dispatcher.rb:91-95 | each bucket is delivered as one contiguous run in insertion order, with only higher-priority buckets before it and only lower-priority buckets after it |
| Listeners.SingleBucketOrder | lib/event_driven/dispatcher.rb:93-94 | a name with one bucket delivers its listeners in registration order |
| Listeners.FlattenConcat | lib/event_driven/dispatcher.rb:94 | flattening distributes over concatenation of bucket sequences |
| Listeners.FlattenInsertMultiset | lib/event_driven/dispatcher.rb:93-94 | inserting a bucket adds exactly its listeners to the flattened contents |
| Listeners.DeliveryOrderMultiset | lib/event_driven/dispatcher.rb:93-94 | sorting moves whole buckets: every registration is delivered as often as it is registered |
| Listeners.AppendTo | lib/event_driven/dispatcher.rb:25 | the result is non-empty, keeps the priority of every existing bucket, and adds at most one bucket, of the given priority, at the end |
| Listeners.AppendToExisting | lib/event_driven/dispatcher.rb:25 | when a bucket of priority `p` exists, only that bucket changes, gaining `l` at its end |
| Listeners.AppendToNew | lib/event_driven/dispatcher.rb:25 | when no bucket of priority `p` exists, a bucket holding just `l` is created last |
| Listeners.AppendToBuckets | lib/event_driven/dispatcher.rb:25 | bucket by bucket: the bucket of `p` gains `l` at its end, all others are unchanged, a missing bucket is created last, and priorities stay unique |
| Listeners.AppendToKeepsUnique | lib/event_driven/dispatcher.rb:25 | adding keeps the priorities of one name unique |
| Listeners.AppendToDeliversOnceMore | lib/event_driven/dispatcher.rb:24-27 | after an add, the delivery order holds the new registration in addition to all earlier ones, duplicates included |
| Listeners.FlattenAppendTo | lib/event_driven/dispatcher.rb:25 | an add puts exactly one more occurrence of `l` into the flattened buckets |
| Listeners.Delete | lib/event_driven/dispatcher.rb:86 | `Array#delete` leaves no occurrence of the listener |
| Listeners.DeleteMultiset | lib/event_driven/dispatcher.rb:86 | deleting drops exactly the occurrences of the listener, and every other listener keeps its count |
| Listeners.DeleteConcat | lib/event_driven/dispatcher.rb:86 | deleting works element by element, so the remaining listeners keep their relative order |
| Listeners.DeleteAbsent | lib/event_driven/dispatcher.rb:86 | deleting an absent listener changes nothing |
| Listeners.Without | lib/event_driven/dispatcher.rb:85-87 | no bucket is dropped, priorities are unchanged, and no bucket holds the removed listener |
| Listeners.WithoutKeepsUnique | lib/event_driven/dispatcher.rb:85-87 | removal keeps the priorities of one name unique |
| Listeners.FlattenWithout | lib/event_driven/dispatcher.rb:85-87 | stripping every bucket and then flattening equals flattening and then deleting |
| Listeners.InsertStrip | lib/event_driven/dispatcher.rb:93 | one insertion step commutes with stripping a listener, because the sort compares only priorities |
| Listeners.SortWithout | lib/event_driven/dispatcher.rb:93 | sorting commutes with stripping a listener from every bucket |
| Listeners.RemoveFromDeliveryOrder | lib/event_driven/dispatcher.rb:84-95 | the rebuilt order after a removal is the old order with exactly the occurrences of that listener deleted |
| Listeners.WithoutAbsent | lib/event_driven/dispatcher.rb:84-89 | removing a listener that no bucket holds leaves the buckets unchanged |
| Listeners.FindPriority | lib/event_driven/dispatcher.rb:47-52 | the answer is None exactly when no bucket holds the listener; otherwise it is the priority of a bucket holding it, with no earlier bucket holding it |
| Listeners.FoundOnlyAt | lib/event_driven/dispatcher.rb:47-52 | when exactly one bucket holds the listener, its priority is the answer |
| Listeners.PriorityAfterAppend | lib/event_driven/dispatcher.rb:24-27 | a listener registered once, under `p` (which defaults to 0), reports priority `p` |
| Listeners.DeliveredIsStoppedPrefix | lib/event_driven/dispatcher.rb:60-64 | a dispatch calls nothing when the event arrives stopped; otherwise it calls a prefix of the delivery order, in which no listener but the last stops the event, and which ends early only because its last listener stopped the event |
| Listeners.DeliveredStep | lib/event_driven/dispatcher.rb:61-62 | one iteration: a stopped event skips the listener, otherwise the listener is called and the rest sees whether it stopped the event |
| Dispatchers.RebuildAgrees | lib/event_driven/dispatcher.rb:91-95 | replacing one name's buckets and rebuilding that name's entry keeps every cached entry agreeing with the table |
| Dispatchers.CacheEntryAgrees | lib/event_driven/dispatcher.rb:72-74 | computing the entry of a name not yet cached keeps the cache agreeing |
| Dispatchers.NotAddedHasNoBuckets | lib/event_driven/dispatcher.rb:71-76 | a name never added to has no buckets and an empty delivery order |
| Dispatchers.RebuildCachedIsNoop | lib/event_driven/dispatcher.rb:71-76 | rebuilding an entry that is already cached stores the same value again, so `listeners_for` and `dispatch` leave a cached name's entry as it was |
| Dispatchers.ReplaceKeepsInvariant | lib/event_driven/dispatcher.rb:91-95 | replacing one name's buckets by buckets with unique priorities, then rebuilding its entry, keeps the object invariant |
| Dispatchers.AddKeepsInvariant | lib/event_driven/dispatcher.rb:24-27 | `add_listener` keeps the object invariant and makes the name one that has been added to |
| Dispatchers.RemoveKeepsInvariant | lib/event_driven/dispatcher.rb:84-89 | `remove_listener` keeps the object invariant and does not change which names count as added |
| Dispatchers.Dispatcher.constructor | lib/event_driven/dispatcher.rb:7-16 | starts with no registrations and nothing cached, and the invariant holds |
| Dispatchers.Dispatcher.UpdateSortedListeners | lib/event_driven/dispatcher.rb:91-95 | the entry of the name is replaced by the sort-and-flatten of its buckets, and nothing else changes |
| Dispatchers.Dispatcher.AddListener | lib/event_driven/dispatcher.rb:24-27 | only the buckets of `e` change, by `AppendTo` (priority 0 by default); the entry of `e` is rebuilt; `listeners_for?(e)` is now true; the invariant is kept |
| Dispatchers.Dispatcher.HasListeners | lib/event_driven/dispatcher.rb:35-39 | true exactly for the names ever added to, even after every listener of the name has been removed |
| Dispatchers.Dispatcher.Priority | lib/event_driven/dispatcher.rb:47-52 | the loop answers `FindPriority` of the buckets of `e`: the priority of the first bucket in creation order that holds the listener, or None |
| Dispatchers.Dispatcher.ListenersFor | lib/event_driven/dispatcher.rb:71-76 | answers the sort-and-flatten of the buckets of `e`, caching it if it was missing; a name never added to answers `[]`; the invariant is kept |
| Dispatchers.Dispatcher.RemoveListener | lib/event_driven/dispatcher.rb:84-89 | the in-place loop leaves the buckets of `e` as `Without` of the old ones, and no other name changes; the entry of `e` is rebuilt; the added names stay the same; the invariant is kept |
| Dispatchers.Dispatcher.Dispatch | lib/event_driven/dispatcher.rb:60-64 | the registration table is unchanged; the listeners called are `Delivered` of the delivery order; afterwards the event is stopped exactly when it was stopped before or the last listener called stopped it |
| Dispatchers.Dispatcher.DispatchNew | lib/event_driven/dispatcher.rb:60 | the default argument `Event.new` is a fresh, unstopped event, so the dispatch starts unstopped |
| Dispatchers.CallEach | lib/event_driven/dispatcher.rb:61-63 | the `each` loop calls exactly `Delivered(ls, stopped-on-entry, stops)`, all with the same event, and reports the event's final stop flag |
| Scenarios.TwoBucketOrder | spec/event_driven/dispatcher_spec.rb:119-132 | a priority-10 listener added after a priority-0 listener is delivered first |
| Scenarios.ThreeBucketOrder | spec/event_driven/dispatcher_spec.rb:71-75 | buckets created with priorities 0, 3 and 1 deliver in the order 3, 1, 0 |
| Scenarios.StoppedByMiddle | spec/event_driven/dispatcher_spec.rb:77-82 | when the priority-1 listener stops the event, the priority-0 listener is never called |
| Scenarios.NeverStopsTwo | spec/event_driven/dispatcher_spec.rb:35-38 | a dispatch in which no listener stops the event calls both listeners of a two-listener delivery order |
| Scenarios.AllDispatch | spec/event_driven/dispatcher_spec.rb:29-40 | two listeners added at the default priority are both called, oldest first |
| Scenarios.HigherFirst | spec/event_driven/dispatcher_spec.rb:47-50 | a priority-3 listener added after a priority-0 listener is delivered first |
| Scenarios.PriorityDispatch | spec/event_driven/dispatcher_spec.rb:47-56 | dispatching after adds at priorities 0 and 3 calls the priority-3 listener, then the priority-0 one |

## Left out

- Listener calls (dispatcher.rb:62) are calls into foreign code. They are represented only by `stops`, that is, whether the call stops the event. The arguments `(event, event_name)` are not modelled beyond passing the same `Event` object to every call.
- Exceptions raised by a listener are left out. They would abort a dispatch part-way, and the code holds no logic for them.
- Re-entrant changes are left out. A listener may add or remove listeners while a dispatch runs, but the model's `stops` cannot change the dispatcher.
- Ruby's auto-vivifying `Hash.new` default blocks (dispatcher.rb:8-15) are modelled as a lookup-or-default (`BucketsOf`). Reads in the model do not create empty entries, because an empty entry and a missing one answer the same to every operation. `add_listener` and `remove_listener` do store the entry of the name they touch.
- `flatten` (dispatcher.rb:94) flattens recursively, so a listener that is itself an array would be spliced in. Listeners are opaque values here, so flattening is one level.
- `listeners_for` returns the cached array itself, and a caller could mutate it. Aliasing of the returned array is left out: the model returns a value.
- Dispatchers.Dispatcher.Priority: a miss answers None, while the code as written returns the priority hash that `each_pair` yields. None is what the method's documentation promises.
- Dispatchers.Dispatcher.RemoveListener: its contract gives the new buckets and the rebuilt entry. That the rebuilt entry is the old delivery order with the listener deleted is stated apart, as `Listeners.RemoveFromDeliveryOrder`, and not repeated in the method's `ensures`.
- Integer width is not modelled. Priorities are unbounded integers, as Ruby's `Integer` is.
- The RSpec mocks and expectations of spec/event_driven/dispatcher_spec.rb are not modelled. The examples are replayed in `Scenarios` with integers standing for the test doubles. Each replay uses the contracts of `Dispatcher` together with lemmas about the `Listeners` functions on the example's literal buckets.
