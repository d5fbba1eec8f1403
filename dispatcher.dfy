/**
  The publish/subscribe dispatcher (lib/event_driven/dispatcher.rb). It keeps one source of
  truth, `events` (event name to priority buckets), and a derived cache, `sortedListeners`
  (event name to delivery order), which every mutation rebuilds for the name it touched.

  Listeners are opaque values compared by equality. What a listener does when called is
  outside the model except for one thing, given as the function `stops`: whether calling
  it stops the event's propagation.
*/
module Dispatchers {
  import opened Options
  import opened Listeners
  import opened Events

  /** Lookup-or-default on the registration table. */
  function BucketsOf<K, L>(events: map<K, seq<Bucket<L>>>, e: K): seq<Bucket<L>>
  {
    if e in events then events[e] else []
  }

  ghost predicate TableUnique<K, L>(events: map<K, seq<Bucket<L>>>)
  {
    forall e :: e in events ==> UniquePriorities(events[e])
  }

  /** Every cached entry is the sort-and-flatten of the buckets it was built from. */
  ghost predicate CacheAgrees<K, L>(events: map<K, seq<Bucket<L>>>, sorted: map<K, seq<L>>)
  {
    forall e :: e in sorted ==> sorted[e] == DeliveryOrder(BucketsOf(events, e))
  }

  /** The names ever added to are exactly those that have a bucket. */
  ghost predicate AddedNames<K, L>(events: map<K, seq<Bucket<L>>>, added: set<K>)
  {
    && (forall e :: e in added ==> e in events && events[e] != [])
    && (forall e :: e in events && events[e] != [] ==> e in added)
  }

  /** Replacing the buckets of `e` and rebuilding the cache of `e` keeps every cached entry agreeing. */
  lemma RebuildAgrees<K, L>(events: map<K, seq<Bucket<L>>>, sorted: map<K, seq<L>>, e: K, bs: seq<Bucket<L>>)
    requires CacheAgrees(events, sorted)
    ensures CacheAgrees(events[e := bs], sorted[e := DeliveryOrder(bs)])
  {
    var events', sorted' := events[e := bs], sorted[e := DeliveryOrder(bs)];
    forall k | k in sorted' ensures sorted'[k] == DeliveryOrder(BucketsOf(events', k)) {
      if k != e {
        assert BucketsOf(events', k) == BucketsOf(events, k);
      }
    }
  }

  /** Caching the delivery order of one more name keeps the cache agreeing. */
  lemma CacheEntryAgrees<K, L>(events: map<K, seq<Bucket<L>>>, sorted: map<K, seq<L>>, e: K)
    requires CacheAgrees(events, sorted)
    ensures CacheAgrees(events, sorted[e := DeliveryOrder(BucketsOf(events, e))])
  {
  }

  /** A name never added to has no buckets, hence an empty delivery order. */
  lemma NotAddedHasNoBuckets<K, L>(events: map<K, seq<Bucket<L>>>, added: set<K>, e: K)
    requires AddedNames(events, added) && e !in added
    ensures BucketsOf(events, e) == [] && DeliveryOrder(BucketsOf(events, e)) == []
  {
  }

  /**
    Rebuilding an entry that is already cached stores the same value again: `listeners_for`
    and `dispatch` leave the cache as they found it whenever the name was cached.
  */
  lemma RebuildCachedIsNoop<K, L>(events: map<K, seq<Bucket<L>>>, sorted: map<K, seq<L>>, e: K)
    requires CacheAgrees(events, sorted) && e in sorted
    ensures sorted[e := DeliveryOrder(BucketsOf(events, e))] == sorted
  {
  }

  /**
    Replacing the buckets of `e` by `bs` (with unique priorities) and rebuilding the cache of
    `e` keeps the invariant, `e` counting as added exactly when `bs` is not empty.
  */
  lemma ReplaceKeepsInvariant<K, L>(events: map<K, seq<Bucket<L>>>, sorted: map<K, seq<L>>,
                                    added: set<K>, e: K, bs: seq<Bucket<L>>)
    requires TableUnique(events) && CacheAgrees(events, sorted) && AddedNames(events, added)
    requires UniquePriorities(bs)
    ensures TableUnique(events[e := bs])
    ensures CacheAgrees(events[e := bs], sorted[e := DeliveryOrder(bs)])
    ensures AddedNames(events[e := bs], if bs == [] then added - {e} else added + {e})
  {
    var events' := events[e := bs];
    forall k | k in events' ensures UniquePriorities(events'[k]) {
      if k != e {
        assert events'[k] == events[k];
      }
    }
    RebuildAgrees(events, sorted, e, bs);
    var added' := if bs == [] then added - {e} else added + {e};
    forall k | k in added' ensures k in events' && events'[k] != [] {
      if k != e {
        assert k in added;
      }
    }
    forall k | k in events' && events'[k] != [] ensures k in added' {
      if k != e {
        assert k in events && events[k] != [];
      }
    }
  }

  /** `add_listener` keeps the invariant, and `e` is now among the added names. */
  lemma AddKeepsInvariant<K, L>(events: map<K, seq<Bucket<L>>>, sorted: map<K, seq<L>>, added: set<K>, e: K, l: L, p: int)
    requires TableUnique(events) && CacheAgrees(events, sorted) && AddedNames(events, added)
    ensures var bs := AppendTo(BucketsOf(events, e), l, p);
      && TableUnique(events[e := bs])
      && CacheAgrees(events[e := bs], sorted[e := DeliveryOrder(bs)])
      && AddedNames(events[e := bs], added + {e})
  {
    var bs := AppendTo(BucketsOf(events, e), l, p);
    AppendToKeepsUnique(BucketsOf(events, e), l, p);
    ReplaceKeepsInvariant(events, sorted, added, e, bs);
  }

  /** `remove_listener` keeps the invariant; the set of added names does not change. */
  lemma RemoveKeepsInvariant<K, L>(events: map<K, seq<Bucket<L>>>, sorted: map<K, seq<L>>, added: set<K>, e: K, l: L)
    requires TableUnique(events) && CacheAgrees(events, sorted) && AddedNames(events, added)
    ensures var bs := Without(BucketsOf(events, e), l);
      && TableUnique(events[e := bs])
      && CacheAgrees(events[e := bs], sorted[e := DeliveryOrder(bs)])
      && AddedNames(events[e := bs], added)
  {
    var bs := Without(BucketsOf(events, e), l);
    WithoutKeepsUnique(BucketsOf(events, e), l);
    ReplaceKeepsInvariant(events, sorted, added, e, bs);
    assert (if bs == [] then added - {e} else added + {e}) == added;
  }

  class Dispatcher<K(==), L(==)> {
    /** `@events`: event name to its priority buckets, in the order the buckets were created. */
    var events: map<K, seq<Bucket<L>>>
    /** `@sorted_listeners`: event name to its cached delivery order. */
    var sortedListeners: map<K, seq<L>>
    /** The event names ever passed to `add_listener`. */
    ghost var added: set<K>

    /**
      The object invariant: priorities are hash keys, so unique per name; every cached entry
      is the sort-and-flatten of the current buckets; and a name has a bucket exactly when a
      listener was once added to it (buckets are never dropped).
    */
    ghost predicate Valid()
      reads this
    {
      && TableUnique(events)
      && CacheAgrees(events, sortedListeners)
      && AddedNames(events, added)
    }

    /** The buckets of `e`; a name never looked up has none (Ruby's default block yields an empty hash). */
    function Buckets(e: K): seq<Bucket<L>>
      reads this
    {
      BucketsOf(events, e)
    }

    /** `initialize`: no registrations, nothing cached. */
    constructor ()
      ensures Valid()
      ensures events == map[] && sortedListeners == map[] && added == {}
    {
      events := map[];
      sortedListeners := map[];
      added := {};
    }

    /** `update_sorted_listeners` (private): drop the cached entry of `e`, then store a fresh one. */
    method UpdateSortedListeners(e: K)
      modifies this`sortedListeners
      ensures sortedListeners == old(sortedListeners)[e := DeliveryOrder(Buckets(e))]
    {
      sortedListeners := sortedListeners - {e};
      sortedListeners := sortedListeners[e := DeliveryOrder(Buckets(e))];
    }

    /**
      `add_listener`: append `l` to the bucket of priority `p` (default 0) of `e`, creating
      the bucket if needed, and rebuild the cache of `e`. Duplicates are kept.
    */
    method AddListener(e: K, l: L, p: int := 0)
      requires Valid()
      modifies this
      ensures Valid()
      ensures events == old(events)[e := AppendTo(old(Buckets(e)), l, p)]
      ensures sortedListeners == old(sortedListeners)[e := DeliveryOrder(Buckets(e))]
      ensures added == old(added) + {e}
      ensures HasListeners(e)
    {
      ghost var events0, sorted0, added0 := events, sortedListeners, added;
      // Looking up the name and then the priority creates the missing table and bucket on the way
      var bs := Buckets(e);
      events := events[e := AppendTo(bs, l, p)];
      added := added + {e};
      UpdateSortedListeners(e);
      AddKeepsInvariant(events0, sorted0, added0, e, l, p);
    }

    /**
      `listeners_for?`. The block handed to `Hash#any?` receives a `[priority, list]` pair,
      whose length is always 2, so the answer is whether any bucket exists for `e`, even one
      that `remove_listener` has emptied: it is true exactly for the names ever added to.
    */
    function HasListeners(e: K): (r: bool)
      reads this
      requires Valid()
      ensures r <==> e in added
    {
      e in events && events[e] != []
    }

    /**
      `priority`: walk the buckets of `e` in creation order and answer the priority of the
      first one holding `l`; None when no bucket holds it.
    */
    method Priority(e: K, l: L) returns (r: Option<int>)
      ensures r == FindPriority(Buckets(e), l)
    {
      var bs := Buckets(e);
      var i := 0;
      while i < |bs|
        invariant 0 <= i <= |bs|
        invariant FindPriority(bs[i..], l) == FindPriority(bs, l)
      {
        if l in bs[i].listeners {
          return Some(bs[i].priority);
        }
        assert bs[i..][1..] == bs[i + 1..];
        i := i + 1;
      }
      return None;
    }

    /** `listeners_for`: the cached delivery order of `e`, computed first when nothing is cached. */
    method ListenersFor(e: K) returns (r: seq<L>)
      requires Valid()
      modifies this`sortedListeners
      ensures Valid()
      ensures r == DeliveryOrder(Buckets(e))
      ensures sortedListeners == old(sortedListeners)[e := r]
      ensures !HasListeners(e) ==> r == []
    {
      if e !in sortedListeners {
        UpdateSortedListeners(e);
        CacheEntryAgrees(events, old(sortedListeners), e);
      }
      r := sortedListeners[e];
      if e !in added {
        NotAddedHasNoBuckets(events, added, e);
      }
    }

    /**
      `remove_listener`: delete every occurrence of `l` from every bucket of `e`, keeping the
      buckets themselves, then rebuild the cache of `e`.
    */
    method RemoveListener(e: K, l: L)
      requires Valid()
      modifies this
      ensures Valid()
      ensures events == old(events)[e := Without(old(Buckets(e)), l)]
      ensures sortedListeners == old(sortedListeners)[e := DeliveryOrder(Buckets(e))]
      ensures added == old(added)
    {
      ghost var events0, sorted0 := events, sortedListeners;
      // Looking up a name never seen creates an empty table for it
      if e !in events {
        events := events[e := []];
      }
      ghost var before := events[e];
      var i := 0;
      while i < |events[e]|
        invariant e in events && |events[e]| == |before|
        invariant 0 <= i <= |before|
        invariant forall k :: 0 <= k < i ==> events[e][k] == Strip(before[k], l)
        invariant forall k :: i <= k < |before| ==> events[e][k] == before[k]
        invariant events == events0[e := events[e]]
        invariant sortedListeners == sorted0 && added == old(added)
      {
        var bucket := events[e][i];
        events := events[e := events[e][i := Bucket(bucket.priority, Delete(bucket.listeners, l))]];
        i := i + 1;
      }
      assert events[e] == Without(before, l);
      UpdateSortedListeners(e);
      RemoveKeepsInvariant(events0, sorted0, added, e, l);
    }

    /**
      `dispatch`: walk the delivery order of `e` and call each listener with `ev` and `e`
      unless `ev` is stopped by then. Answers the listeners called, in order.
    */
    method Dispatch(e: K, ev: Event, stops: L -> bool) returns (invoked: seq<L>)
      requires Valid()
      modifies this`sortedListeners, ev
      ensures Valid()
      ensures events == old(events) && added == old(added)
      ensures sortedListeners == old(sortedListeners)[e := DeliveryOrder(Buckets(e))]
      ensures invoked == Delivered(DeliveryOrder(Buckets(e)), old(ev.IsStopped()), stops)
      ensures ev.IsStopped() <==> old(ev.IsStopped()) || (invoked != [] && stops(invoked[|invoked| - 1]))
    {
      var ls := ListenersFor(e);
      invoked := CallEach(ls, ev, stops);
    }

    /** `dispatch` without an event argument: a fresh, unstopped event is made for this call. */
    method DispatchNew(e: K, stops: L -> bool) returns (invoked: seq<L>, ev: Event)
      requires Valid()
      modifies this`sortedListeners
      ensures Valid() && fresh(ev)
      ensures events == old(events) && added == old(added)
      ensures sortedListeners == old(sortedListeners)[e := DeliveryOrder(Buckets(e))]
      ensures invoked == Delivered(DeliveryOrder(Buckets(e)), false, stops)
      ensures ev.IsStopped() <==> invoked != [] && stops(invoked[|invoked| - 1])
    {
      ev := new Event();
      invoked := Dispatch(e, ev, stops);
    }
  }

  /**
    The loop of `dispatch`: each listener in turn is called with the event and its name, as long as the event has not been stopped.
    Every call gets the same `ev`; answers the listeners called, in order.
  */
  method CallEach<L>(ls: seq<L>, ev: Event, stops: L -> bool) returns (invoked: seq<L>)
    modifies ev
    ensures invoked == Delivered(ls, old(ev.IsStopped()), stops)
    ensures ev.IsStopped() <==> old(ev.IsStopped()) || (invoked != [] && stops(invoked[|invoked| - 1]))
  {
    ghost var stopped0 := ev.IsStopped();
    invoked := [];
    var i := 0;
    assert ls[i..] == ls;
    while i < |ls|
      invariant 0 <= i <= |ls|
      invariant invoked + Delivered(ls[i..], ev.IsStopped(), stops) == Delivered(ls, stopped0, stops)
      invariant ev.IsStopped() <==> stopped0 || (invoked != [] && stops(invoked[|invoked| - 1]))
    {
      var l := ls[i];
      DeliveredStep(ls, i, ev.IsStopped(), stops);
      if !ev.IsStopped() {
        // listener.call(event, event_name): its one modelled effect is whether it stops the event
        invoked := invoked + [l];
        if stops(l) {
          ev.StopPropagation();
        }
      }
      i := i + 1;
    }
    assert ls[i..] == [];
  }
}
