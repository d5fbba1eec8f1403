/**
  The pure part of the dispatcher (lib/event_driven/dispatcher.rb): one event name's
  priority buckets, the sort-and-flatten that turns them into the delivery order, and
  the value-level effect of adding, deleting and looking up a listener.

  A Ruby `Hash` keeps its keys in insertion order, so the priority map of one event
  name is modelled as a sequence of buckets in the order they were created.
*/
module Listeners {
  import opened Options

  /** One priority bucket: the listeners registered under `priority`, oldest first. */
  datatype Bucket<L> = Bucket(priority: int, listeners: seq<L>)

  /** The priorities for which a bucket exists. */
  ghost function Priorities<L>(bs: seq<Bucket<L>>): set<int>
  {
    set b | b in bs :: b.priority
  }

  /** No two buckets share a priority: the keys of a Ruby hash are distinct. */
  ghost predicate UniquePriorities<L>(bs: seq<Bucket<L>>)
  {
    forall i, j :: 0 <= i < j < |bs| ==> bs[i].priority != bs[j].priority
  }

  /** Buckets ordered by strictly decreasing priority. */
  ghost predicate StrictlyDescending<L>(bs: seq<Bucket<L>>)
  {
    forall i, j :: 0 <= i < j < |bs| ==> bs[i].priority > bs[j].priority
  }

  // ---------------------------------------------------------------------------
  // Sorting and flattening (update_sorted_listeners)
  // ---------------------------------------------------------------------------

  /** Puts `b` in front of the first bucket of `s` whose priority is not higher. */
  function Insert<L>(b: Bucket<L>, s: seq<Bucket<L>>): (r: seq<Bucket<L>>)
    ensures multiset(r) == multiset(s) + multiset{b}
  {
    if s == [] || b.priority > s[0].priority then [b] + s
    else
      assert s == [s[0]] + s[1..];
      [s[0]] + Insert(b, s[1..])
  }

  /**
    The buckets sorted by descending priority (the comparator `-a <=> -b`).
    Ruby's sort is not stable, but ties cannot occur among hash keys.
  */
  function SortDescending<L>(bs: seq<Bucket<L>>): (r: seq<Bucket<L>>)
    ensures multiset(r) == multiset(bs)
    ensures UniquePriorities(bs) ==> StrictlyDescending(r)
  {
    if bs == [] then []
    else
      var rest := SortDescending(bs[1..]);
      SortStep(bs, rest);
      Insert(bs[0], rest)
  }

  /** Inserting the head into the sorted tail sorts the whole sequence. */
  lemma SortStep<L>(bs: seq<Bucket<L>>, rest: seq<Bucket<L>>)
    requires bs != [] && multiset(rest) == multiset(bs[1..])
    requires UniquePriorities(bs[1..]) ==> StrictlyDescending(rest)
    ensures multiset(Insert(bs[0], rest)) == multiset(bs)
    ensures UniquePriorities(bs) ==> StrictlyDescending(Insert(bs[0], rest))
  {
    assert bs == [bs[0]] + bs[1..];
    if UniquePriorities(bs) {
      UniqueTail(bs);
      PermutationPriorities(rest, bs[1..]);
      InsertKeepsDescending(bs[0], rest);
    }
  }

  /** The buckets' listener lists concatenated in order (one level of `flatten`). */
  function Flatten<L>(bs: seq<Bucket<L>>): seq<L>
  {
    if bs == [] then [] else bs[0].listeners + Flatten(bs[1..])
  }

  /** The cached delivery order of one event name: sort the buckets, then flatten. */
  function DeliveryOrder<L>(bs: seq<Bucket<L>>): seq<L>
  {
    Flatten(SortDescending(bs))
  }

  /** A single bucket delivers its listeners in the order they were added. */
  lemma SingleBucketOrder<L>(p: int, ls: seq<L>)
    ensures DeliveryOrder([Bucket(p, ls)]) == ls
  {
    assert [Bucket(p, ls)][1..] == [];
    assert SortDescending<L>([]) == [];
    assert Insert(Bucket(p, ls), []) == [Bucket(p, ls)];
    assert Flatten([Bucket(p, ls)]) == ls + Flatten<L>([]);
    assert ls + [] == ls;
  }

  /** The tail of a bucket sequence with unique priorities keeps them, and lacks the head's priority. */
  lemma UniqueTail<L>(bs: seq<Bucket<L>>)
    requires UniquePriorities(bs) && bs != []
    ensures UniquePriorities(bs[1..]) && bs[0].priority !in Priorities(bs[1..])
  {
    forall c | c in bs[1..] ensures c.priority != bs[0].priority {
      var k :| 0 <= k < |bs[1..]| && bs[1..][k] == c;
      assert bs[k + 1] == c;
    }
  }

  lemma PermutationPriorities<L>(s: seq<Bucket<L>>, t: seq<Bucket<L>>)
    requires multiset(s) == multiset(t)
    ensures Priorities(s) == Priorities(t)
  {
    forall p | p in Priorities(s) ensures p in Priorities(t) {
      var b :| b in s && b.priority == p;
      assert b in multiset(t);
    }
    forall p | p in Priorities(t) ensures p in Priorities(s) {
      var b :| b in t && b.priority == p;
      assert b in multiset(s);
    }
  }

  /** Inserting a bucket of a new priority into a strictly descending sequence keeps it so. */
  lemma {:induction false} InsertKeepsDescending<L>(b: Bucket<L>, s: seq<Bucket<L>>)
    requires StrictlyDescending(s) && b.priority !in Priorities(s)
    ensures StrictlyDescending(Insert(b, s))
  {
    if s == [] || b.priority > s[0].priority {
      forall c | c in s ensures c.priority < b.priority {
        HeadIsTop(s, c);
      }
      ConsDescending(b, s);
    } else {
      assert s[0] in s;
      assert b.priority < s[0].priority;
      TailPriorities(s);
      InsertKeepsDescending(b, s[1..]);
      var t := Insert(b, s[1..]);
      forall c | c in t ensures c.priority < s[0].priority {
        InsertMembers(b, s[1..], c);
        if c != b {
          TailBelowHead(s, c);
        }
      }
      ConsDescending(s[0], t);
    }
  }

  /** A bucket put in front of a strictly descending sequence of lower priorities keeps it so. */
  lemma ConsDescending<L>(h: Bucket<L>, t: seq<Bucket<L>>)
    requires StrictlyDescending(t)
    requires forall c :: c in t ==> c.priority < h.priority
    ensures StrictlyDescending([h] + t)
  {
    forall i, j | 0 <= i < j < |[h] + t| ensures ([h] + t)[i].priority > ([h] + t)[j].priority {
      if i == 0 {
        assert t[j - 1] in t;
      }
    }
  }

  lemma InsertMembers<L>(b: Bucket<L>, s: seq<Bucket<L>>, c: Bucket<L>)
    requires c in Insert(b, s)
    ensures c == b || c in s
  {
    assert c in multiset(Insert(b, s));
  }

  lemma TailPriorities<L>(s: seq<Bucket<L>>)
    requires s != []
    ensures Priorities(s[1..]) <= Priorities(s)
  {
    forall p | p in Priorities(s[1..]) ensures p in Priorities(s) {
      var c :| c in s[1..] && c.priority == p;
    }
  }

  lemma TailBelowHead<L>(s: seq<Bucket<L>>, c: Bucket<L>)
    requires StrictlyDescending(s) && s != [] && c in s[1..]
    ensures c.priority < s[0].priority
  {
    var k :| 0 <= k < |s[1..]| && s[1..][k] == c;
    assert s[k + 1] == c;
  }

  lemma MultisetTail<T>(s: seq<T>)
    requires s != []
    ensures multiset(s[1..]) == multiset(s) - multiset{s[0]}
  {
    assert s == [s[0]] + s[1..];
  }

  /** The head of a strictly descending sequence has the top priority, and is the only bucket with it. */
  lemma HeadIsTop<L>(s: seq<Bucket<L>>, b: Bucket<L>)
    requires StrictlyDescending(s) && b in s
    ensures s[0].priority >= b.priority
    ensures b.priority == s[0].priority ==> b == s[0]
  {
    var k :| 0 <= k < |s| && s[k] == b;
  }

  lemma DescendingDrop<L>(s: seq<Bucket<L>>)
    requires StrictlyDescending(s) && s != []
    ensures StrictlyDescending(s[1..])
  {
    forall i, j | 0 <= i < j < |s| - 1 ensures s[1..][i].priority > s[1..][j].priority {
      assert s[1..][i] == s[i + 1] && s[1..][j] == s[j + 1];
    }
  }

  /** Two strictly descending arrangements of the same buckets are the same sequence. */
  lemma {:induction false} DescendingArrangementUnique<L>(s: seq<Bucket<L>>, t: seq<Bucket<L>>)
    requires StrictlyDescending(s) && StrictlyDescending(t)
    requires multiset(s) == multiset(t)
    ensures s == t
  {
    if s == [] {
      assert |t| == |multiset(t)| == |multiset(s)| == 0;
    } else {
      SameHead(s, t);
      MultisetTail(s);
      MultisetTail(t);
      DescendingDrop(s);
      DescendingDrop(t);
      DescendingArrangementUnique(s[1..], t[1..]);
      assert s == [s[0]] + s[1..];
      assert t == [t[0]] + t[1..];
    }
  }

  /** Two strictly descending arrangements of the same buckets start with the same bucket. */
  lemma SameHead<L>(s: seq<Bucket<L>>, t: seq<Bucket<L>>)
    requires StrictlyDescending(s) && StrictlyDescending(t)
    requires multiset(s) == multiset(t) && s != []
    ensures t != [] && s[0] == t[0]
  {
    assert s[0] in multiset(t);
    assert t[0] in multiset(s);
    HeadIsTop(t, s[0]);
    HeadIsTop(s, t[0]);
  }

  /**
    The cache invariant stated without reference to the sort: the delivery order is the
    flattening of ANY strictly descending arrangement of the buckets.
  */
  lemma DeliveryOrderIsDescendingFlatten<L>(bs: seq<Bucket<L>>, s: seq<Bucket<L>>)
    requires UniquePriorities(bs)
    requires StrictlyDescending(s) && multiset(s) == multiset(bs)
    ensures DeliveryOrder(bs) == Flatten(s)
  {
    DescendingArrangementUnique(SortDescending(bs), s);
  }

  lemma {:induction false} FlattenConcat<L>(s: seq<Bucket<L>>, t: seq<Bucket<L>>)
    ensures Flatten(s + t) == Flatten(s) + Flatten(t)
  {
    if s != [] {
      assert (s + t)[0] == s[0] && (s + t)[1..] == s[1..] + t;
      FlattenConcat(s[1..], t);
    } else {
      assert s + t == t;
    }
  }

  lemma {:induction false} FlattenInsertMultiset<L>(b: Bucket<L>, s: seq<Bucket<L>>)
    ensures multiset(Flatten(Insert(b, s))) == multiset(b.listeners) + multiset(Flatten(s))
  {
    if !(s == [] || b.priority > s[0].priority) {
      FlattenInsertMultiset(b, s[1..]);
    }
  }

  /** Sorting moves whole buckets: every registration is delivered, as often as it is registered. */
  lemma {:induction false} DeliveryOrderMultiset<L>(bs: seq<Bucket<L>>)
    ensures multiset(DeliveryOrder(bs)) == multiset(Flatten(bs))
  {
    if bs != [] {
      DeliveryOrderMultiset(bs[1..]);
      FlattenInsertMultiset(bs[0], SortDescending(bs[1..]));
    }
  }

  lemma FlattenSplit<L>(s: seq<Bucket<L>>, k: int)
    requires 0 <= k < |s|
    ensures Flatten(s) == Flatten(s[..k]) + s[k].listeners + Flatten(s[k + 1..])
  {
    assert s == s[..k] + s[k..];
    FlattenConcat(s[..k], s[k..]);
    assert s[k..][0] == s[k] && s[k..][1..] == s[k + 1..];
  }

  /**
    Each bucket is delivered as one contiguous run in its own insertion order; only buckets
    of higher priority come before it and only buckets of lower priority after it.
  */
  lemma DeliveryOrderPlacesBucket<L>(bs: seq<Bucket<L>>, i: int) returns (hi: seq<Bucket<L>>, lo: seq<Bucket<L>>)
    requires UniquePriorities(bs) && 0 <= i < |bs|
    ensures DeliveryOrder(bs) == Flatten(hi) + bs[i].listeners + Flatten(lo)
    ensures forall c :: c in hi ==> c in bs && c.priority > bs[i].priority
    ensures forall c :: c in lo ==> c in bs && c.priority < bs[i].priority
  {
    var s := SortDescending(bs);
    assert bs[i] in multiset(s);
    var k :| 0 <= k < |s| && s[k] == bs[i];
    hi, lo := s[..k], s[k + 1..];
    FlattenSplit(s, k);
    DescendingAround(s, k);
    PermutationMembers(s, bs);
  }

  /** In a strictly descending sequence everything before position `k` ranks higher, everything after lower. */
  lemma DescendingAround<L>(s: seq<Bucket<L>>, k: int)
    requires StrictlyDescending(s) && 0 <= k < |s|
    ensures forall c :: c in s[..k] ==> c in s && c.priority > s[k].priority
    ensures forall c :: c in s[k + 1..] ==> c in s && c.priority < s[k].priority
  {
    forall c | c in s[..k] ensures c in s && c.priority > s[k].priority {
      var j :| 0 <= j < k && s[..k][j] == c;
    }
    forall c | c in s[k + 1..] ensures c in s && c.priority < s[k].priority {
      var j :| 0 <= j < |s| - k - 1 && s[k + 1..][j] == c;
      assert s[k + 1 + j] == c;
    }
  }

  lemma PermutationMembers<L>(s: seq<Bucket<L>>, t: seq<Bucket<L>>)
    requires multiset(s) == multiset(t)
    ensures forall c :: c in s ==> c in t
  {
    forall c | c in s ensures c in t {
      assert c in multiset(s);
    }
  }

  // ---------------------------------------------------------------------------
  // add_listener: the listener goes to the end of the bucket of its priority, which is created if missing
  // ---------------------------------------------------------------------------

  /**
    Appends `l` to the bucket of priority `p`, or creates that bucket at the end
    (a new hash key goes last) when there is none.
  */
  function AppendTo<L>(bs: seq<Bucket<L>>, l: L, p: int): (r: seq<Bucket<L>>)
    ensures r != [] && |bs| <= |r| <= |bs| + 1
    ensures forall i :: 0 <= i < |r| ==> r[i].priority == if i < |bs| then bs[i].priority else p
  {
    if bs == [] then [Bucket(p, [l])]
    else if bs[0].priority == p then [Bucket(p, bs[0].listeners + [l])] + bs[1..]
    else [bs[0]] + AppendTo(bs[1..], l, p)
  }

  lemma UniqueDrop<L>(bs: seq<Bucket<L>>)
    requires UniquePriorities(bs) && bs != []
    ensures UniquePriorities(bs[1..])
  {
    forall i, j | 0 <= i < j < |bs| - 1 ensures bs[1..][i].priority != bs[1..][j].priority {
      assert bs[1..][i] == bs[i + 1] && bs[1..][j] == bs[j + 1];
    }
  }

  lemma {:induction false} AppendToExisting<L>(bs: seq<Bucket<L>>, l: L, p: int, k: int)
    requires UniquePriorities(bs) && 0 <= k < |bs| && bs[k].priority == p
    ensures AppendTo(bs, l, p) == bs[k := Bucket(p, bs[k].listeners + [l])]
  {
    if k == 0 {
      assert [Bucket(p, bs[0].listeners + [l])] + bs[1..] == bs[0 := Bucket(p, bs[0].listeners + [l])];
    } else {
      var b' := Bucket(p, bs[k].listeners + [l]);
      assert bs[0].priority != p;
      UniqueDrop(bs);
      AppendToExisting(bs[1..], l, p, k - 1);
      assert AppendTo(bs, l, p) == [bs[0]] + AppendTo(bs[1..], l, p);
      var r := [bs[0]] + bs[1..][k - 1 := b'];
      forall i | 0 < i < |bs| ensures r[i] == bs[k := b'][i] {
        assert r[i] == bs[1..][k - 1 := b'][i - 1];
      }
      assert r == bs[k := b'];
    }
  }

  lemma {:induction false} AppendToNew<L>(bs: seq<Bucket<L>>, l: L, p: int)
    requires forall i :: 0 <= i < |bs| ==> bs[i].priority != p
    ensures AppendTo(bs, l, p) == bs + [Bucket(p, [l])]
  {
    if bs != [] {
      AppendToNew(bs[1..], l, p);
      assert [bs[0]] + (bs[1..] + [Bucket(p, [l])]) == bs + [Bucket(p, [l])];
    }
  }

  /**
    Bucket by bucket: the bucket of priority `p` gains `l` at its end, every other bucket
    is unchanged, a missing bucket is created last holding just `l`, and priorities stay unique.
  */
  lemma AppendToBuckets<L>(bs: seq<Bucket<L>>, l: L, p: int)
    requires UniquePriorities(bs)
    ensures var r := AppendTo(bs, l, p);
      && UniquePriorities(r)
      && (forall i :: 0 <= i < |bs| ==>
            r[i] == if bs[i].priority == p then Bucket(p, bs[i].listeners + [l]) else bs[i])
      && ((forall i :: 0 <= i < |bs| ==> bs[i].priority != p) ==> r == bs + [Bucket(p, [l])])
  {
    if k :| 0 <= k < |bs| && bs[k].priority == p {
      AppendToExisting(bs, l, p, k);
    } else {
      AppendToNew(bs, l, p);
    }
  }

  lemma AppendToKeepsUnique<L>(bs: seq<Bucket<L>>, l: L, p: int)
    requires UniquePriorities(bs)
    ensures UniquePriorities(AppendTo(bs, l, p))
  {
    AppendToBuckets(bs, l, p);
  }

  /** The new registration is delivered in addition to all earlier ones, duplicates included. */
  lemma AppendToDeliversOnceMore<L>(bs: seq<Bucket<L>>, l: L, p: int)
    requires UniquePriorities(bs)
    ensures multiset(DeliveryOrder(AppendTo(bs, l, p))) == multiset(DeliveryOrder(bs)) + multiset{l}
  {
    var r := AppendTo(bs, l, p);
    AppendToBuckets(bs, l, p);
    DeliveryOrderMultiset(bs);
    DeliveryOrderMultiset(r);
    FlattenAppendTo(bs, l, p);
  }

  lemma {:induction false} FlattenAppendTo<L>(bs: seq<Bucket<L>>, l: L, p: int)
    ensures multiset(Flatten(AppendTo(bs, l, p))) == multiset(Flatten(bs)) + multiset{l}
  {
    if bs != [] && bs[0].priority != p {
      FlattenAppendTo(bs[1..], l, p);
    }
  }

  // ---------------------------------------------------------------------------
  // remove_listener: every occurrence of the listener is deleted from every bucket
  // ---------------------------------------------------------------------------

  /** `Array#delete`: every occurrence of `l` removed, the rest kept in order. */
  function Delete<L(==)>(s: seq<L>, l: L): (r: seq<L>)
    ensures l !in r
  {
    if s == [] then [] else (if s[0] == l then [] else [s[0]]) + Delete(s[1..], l)
  }

  /** Deleting drops exactly the occurrences of `l`: every other listener keeps its count. */
  lemma {:induction false} DeleteMultiset<L>(s: seq<L>, l: L)
    ensures multiset(Delete(s, l)) == multiset(s)[l := 0]
  {
    if s != [] {
      assert s == [s[0]] + s[1..];
      DeleteMultiset(s[1..], l);
    }
  }

  /** Deleting works element by element, so the survivors keep their relative order. */
  lemma {:induction false} DeleteConcat<L>(s: seq<L>, t: seq<L>, l: L)
    ensures Delete(s + t, l) == Delete(s, l) + Delete(t, l)
  {
    if s != [] {
      assert (s + t)[0] == s[0] && (s + t)[1..] == s[1..] + t;
      DeleteConcat(s[1..], t, l);
    } else {
      assert s + t == t;
    }
  }

  /** Deleting an absent listener changes nothing. */
  lemma {:induction false} DeleteAbsent<L>(s: seq<L>, l: L)
    requires l !in s
    ensures Delete(s, l) == s
  {
    if s != [] {
      DeleteAbsent(s[1..], l);
    }
  }

  /** A bucket with every occurrence of `l` deleted. */
  function Strip<L(==)>(b: Bucket<L>, l: L): Bucket<L>
  {
    Bucket(b.priority, Delete(b.listeners, l))
  }

  /** Every bucket of one event name stripped of `l`; no bucket is dropped. */
  function Without<L(==)>(bs: seq<Bucket<L>>, l: L): (r: seq<Bucket<L>>)
    ensures |r| == |bs|
    ensures forall i :: 0 <= i < |bs| ==> r[i].priority == bs[i].priority && l !in r[i].listeners
  {
    seq(|bs|, i requires 0 <= i < |bs| => Strip(bs[i], l))
  }

  lemma WithoutKeepsUnique<L>(bs: seq<Bucket<L>>, l: L)
    requires UniquePriorities(bs)
    ensures UniquePriorities(Without(bs, l))
  {
  }

  lemma {:induction false} FlattenWithout<L>(bs: seq<Bucket<L>>, l: L)
    ensures Flatten(Without(bs, l)) == Delete(Flatten(bs), l)
  {
    if bs != [] {
      assert Without(bs, l)[1..] == Without(bs[1..], l);
      FlattenWithout(bs[1..], l);
      DeleteConcat(bs[0].listeners, Flatten(bs[1..]), l);
    }
  }

  lemma {:induction false} InsertStrip<L>(b: Bucket<L>, s: seq<Bucket<L>>, l: L)
    ensures Insert(Strip(b, l), Without(s, l)) == Without(Insert(b, s), l)
  {
    if s == [] || b.priority > s[0].priority {
      WithoutCons(b, s, l);
    } else {
      assert Without(s, l)[1..] == Without(s[1..], l);
      InsertStrip(b, s[1..], l);
      WithoutCons(s[0], Insert(b, s[1..]), l);
    }
  }

  lemma WithoutCons<L>(b: Bucket<L>, s: seq<Bucket<L>>, l: L)
    ensures Without([b] + s, l) == [Strip(b, l)] + Without(s, l)
  {
  }

  /** Sorting only compares priorities, which stripping leaves alone. */
  lemma {:induction false} SortWithout<L>(bs: seq<Bucket<L>>, l: L)
    ensures SortDescending(Without(bs, l)) == Without(SortDescending(bs), l)
  {
    if bs != [] {
      assert Without(bs, l)[1..] == Without(bs[1..], l);
      SortWithout(bs[1..], l);
      InsertStrip(bs[0], SortDescending(bs[1..]), l);
    }
  }

  /**
    Removing a listener from the table removes exactly its occurrences from the delivery
    order: none is left, and every other listener keeps its place relative to the rest.
  */
  lemma RemoveFromDeliveryOrder<L>(bs: seq<Bucket<L>>, l: L)
    ensures DeliveryOrder(Without(bs, l)) == Delete(DeliveryOrder(bs), l)
  {
    SortWithout(bs, l);
    FlattenWithout(SortDescending(bs), l);
  }

  /** Removing a listener that no bucket holds changes nothing. */
  lemma WithoutAbsent<L>(bs: seq<Bucket<L>>, l: L)
    requires forall i :: 0 <= i < |bs| ==> l !in bs[i].listeners
    ensures Without(bs, l) == bs
  {
    forall i | 0 <= i < |bs| ensures Without(bs, l)[i] == bs[i] {
      DeleteAbsent(bs[i].listeners, l);
    }
  }

  // ---------------------------------------------------------------------------
  // priority: the first bucket, in creation order, holding the listener
  // ---------------------------------------------------------------------------

  /**
    The priority of the first bucket that holds `l`, or None when none does. (The Ruby code
    falls out of `each_pair` on a miss and so returns the priority hash itself, where its
    documentation promises `nil`; None models the documented "not subscribed".)
  */
  function FindPriority<L(==)>(bs: seq<Bucket<L>>, l: L): (r: Option<int>)
    ensures r.None? <==> forall i :: 0 <= i < |bs| ==> l !in bs[i].listeners
    ensures r.Some? ==> exists i :: 0 <= i < |bs| && bs[i].priority == r.value && l in bs[i].listeners
                                    && forall j :: 0 <= j < i ==> l !in bs[j].listeners
  {
    if bs == [] then None
    else if l in bs[0].listeners then Some(bs[0].priority)
    else
      var r := FindPriority(bs[1..], l);
      assert forall i :: 0 < i < |bs| ==> bs[i] == bs[1..][i - 1];
      r
  }

  /** A listener registered once, under `p`, reports priority `p`. */
  lemma PriorityAfterAppend<L>(bs: seq<Bucket<L>>, l: L, p: int)
    requires UniquePriorities(bs)
    requires forall i :: 0 <= i < |bs| ==> l !in bs[i].listeners
    ensures FindPriority(AppendTo(bs, l, p), l) == Some(p)
  {
    if k :| 0 <= k < |bs| && bs[k].priority == p {
      AppendToExisting(bs, l, p, k);
      var r := bs[k := Bucket(p, bs[k].listeners + [l])];
      assert l in r[k].listeners;
      FoundOnlyAt(r, l, k);
    } else {
      AppendToNew(bs, l, p);
      var r := bs + [Bucket(p, [l])];
      assert l in r[|bs|].listeners;
      FoundOnlyAt(r, l, |bs|);
    }
  }

  /** When only bucket `k` holds `l`, its priority is the answer. */
  lemma FoundOnlyAt<L>(bs: seq<Bucket<L>>, l: L, k: int)
    requires 0 <= k < |bs| && l in bs[k].listeners
    requires forall i :: 0 <= i < |bs| && i != k ==> l !in bs[i].listeners
    ensures FindPriority(bs, l) == Some(bs[k].priority)
  {
  }

  // ---------------------------------------------------------------------------
  // dispatch: a listener is called only while the event is not stopped
  // ---------------------------------------------------------------------------

  /**
    The listeners of `ls` that a dispatch invokes when the event enters with flag `stopped`
    and `stops(x)` tells whether listener `x` calls `stop_propagation`: nothing if the event
    is already stopped, otherwise the prefix up to and including the first listener that stops it.
  */
  function Delivered<L>(ls: seq<L>, stopped: bool, stops: L -> bool): seq<L>
  {
    if stopped || ls == [] then []
    else [ls[0]] + Delivered(ls[1..], stops(ls[0]), stops)
  }

  /**
    What a dispatch invokes, stated outright: nothing when the event enters stopped; otherwise
    a prefix of the delivery order in which no listener but the last stops the event, and which
    ends early only because its last listener stopped it.
  */
  lemma {:induction false} DeliveredIsStoppedPrefix<L>(ls: seq<L>, stopped: bool, stops: L -> bool)
    ensures var r := Delivered(ls, stopped, stops);
      && (stopped ==> r == [])
      && |r| <= |ls| && r == ls[..|r|]
      && (forall i :: 0 <= i < |r| - 1 ==> !stops(r[i]))
      && (!stopped && |r| < |ls| ==> |r| > 0 && stops(r[|r| - 1]))
  {
    if !stopped && ls != [] {
      DeliveredIsStoppedPrefix(ls[1..], stops(ls[0]), stops);
      var t := Delivered(ls[1..], stops(ls[0]), stops);
      assert Delivered(ls, stopped, stops) == [ls[0]] + t;
      assert ls[..|t| + 1] == [ls[0]] + ls[1..][..|t|];
    }
  }

  /** One step of the dispatch loop: a stopped event skips `ls[i]`, otherwise `ls[i]` is called. */
  lemma DeliveredStep<L>(ls: seq<L>, i: int, stopped: bool, stops: L -> bool)
    requires 0 <= i < |ls|
    ensures Delivered(ls[i..], stopped, stops)
         == if stopped then [] else [ls[i]] + Delivered(ls[i + 1..], stops(ls[i]), stops)
  {
    assert ls[i..][1..] == ls[i + 1..];
  }
}
