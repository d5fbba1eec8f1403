/**
  Clients of the dispatcher that replay the examples of spec/event_driven/dispatcher_spec.rb,
  proved from the contracts of `Dispatcher` alone. Event names are strings, listeners are
  integers standing for the test doubles.
*/
module Scenarios {
  import opened Options
  import opened Listeners
  import opened Events
  import opened Dispatchers

  /** dispatcher_spec.rb:12-26: adding makes `listeners_for?` true, and the priority defaults to 0. */
  method AddListenerExamples()
  {
    var d := new Dispatcher<string, int>();
    assert !d.HasListeners("foo");
    d.AddListener("foo", 1);
    assert d.HasListeners("foo");
    var p := d.Priority("foo", 1);
    assert p == Some(0);

    var d2 := new Dispatcher<string, int>();
    d2.AddListener("foo", 1, 2);
    p := d2.Priority("foo", 1);
    assert p == Some(2);
    p := d2.Priority("foo", 7);
    assert p == None;
  }

  /** dispatcher_spec.rb:103-111: each name keeps its own list. */
  method ListenersPerNameExample()
  {
    var d := new Dispatcher<string, int>();
    d.AddListener("bar", 1);
    d.AddListener("foo", 2);
    assert d.Buckets("foo") == [Bucket(0, [2])];
    assert DeliveryOrder([Bucket(0, [2])]) == [2] by { SingleBucketOrder(0, [2]); }
    var ls := d.ListenersFor("foo");
    assert ls == [2];
  }

  /** dispatcher_spec.rb:95-99 and 113-117: a name nobody listens to has no listeners. */
  method UnknownNameExample()
  {
    var d := new Dispatcher<string, int>();
    d.AddListener("foo", 2);
    assert !d.HasListeners("baz");
    var ls := d.ListenersFor("baz");
    assert ls == [];
  }

  /** dispatcher_spec.rb:119-132: a listener of higher priority comes first, whenever it was added. */
  method DescendingPriorityExample()
  {
    var d := new Dispatcher<string, int>();
    d.AddListener("foo", 2);
    assert d.Buckets("foo") == [Bucket(0, [2])];
    d.AddListener("foo", 3, 10);
    NewBucketLast();
    assert d.Buckets("foo") == [Bucket(0, [2]), Bucket(10, [3])];
    TwoBucketOrder();
    var ls := d.ListenersFor("foo");
    assert ls == [3, 2];
  }

  lemma NewBucketLast()
    ensures AppendTo([Bucket(0, [2])], 3, 10) == [Bucket(0, [2]), Bucket(10, [3])]
  {
  }

  lemma TwoBucketOrder()
    ensures DeliveryOrder([Bucket(0, [2]), Bucket(10, [3])]) == [3, 2]
  {
  }

  /** A listener that never stops the event: the plain test doubles. */
  function Never(x: int): bool
  {
    false
  }

  /** dispatcher_spec.rb:29-40 (the `before` block and the first example): a dispatch with only an event name reaches every listener. */
  method DispatchAllExample()
  {
    var d := new Dispatcher<string, int>();
    d.AddListener("foo", 1);
    assert d.Buckets("foo") == [Bucket(0, [1])];
    d.AddListener("foo", 2);
    AppendToSameBucket();
    assert d.Buckets("foo") == [Bucket(0, [1, 2])];
    AllDispatch();
    var invoked, ev := d.DispatchNew("foo", Never);
    assert invoked == [1, 2];
    assert !ev.IsStopped();
  }

  /** dispatcher_spec.rb:42-57: the listener of priority 3 is called before the one of priority 0. */
  method DispatchPriorityExample()
  {
    var d := new Dispatcher<string, int>();
    d.AddListener("foo", 1);
    assert d.Buckets("foo") == [Bucket(0, [1])];
    d.AddListener("foo", 2, 3);
    SecondBucket();
    assert d.Buckets("foo") == [Bucket(0, [1]), Bucket(3, [2])];
    PriorityDispatch();
    var invoked, ev := d.DispatchNew("foo", Never);
    assert invoked == [2, 1];
  }

  lemma HigherFirst()
    ensures DeliveryOrder([Bucket(0, [1]), Bucket(3, [2])]) == [2, 1]
  {
  }

  /** The whole dispatch of dispatcher_spec.rb:34-40, on the one bucket the two adds create. */
  lemma AllDispatch()
    ensures Delivered(DeliveryOrder([Bucket(0, [1, 2])]), false, Never) == [1, 2]
  {
    SingleBucketOrder(0, [1, 2]);
    NeverStopsTwo([1, 2]);
  }

  /** The whole dispatch of dispatcher_spec.rb:42-57, on the buckets the two adds create. */
  lemma PriorityDispatch()
    ensures Delivered(DeliveryOrder([Bucket(0, [1]), Bucket(3, [2])]), false, Never) == [2, 1]
  {
    HigherFirst();
    NeverStopsTwo([2, 1]);
  }

  /** With no listener stopping it, a dispatch calls both listeners of a two-listener order. */
  lemma NeverStopsTwo(ls: seq<int>)
    requires |ls| == 2
    ensures Delivered(ls, false, Never) == ls
  {
    assert ls[1..][1..] == [];
    assert Delivered(ls[1..][1..], Never(ls[1]), Never) == [];
    assert Delivered(ls[1..], Never(ls[0]), Never) == [ls[1]];
    assert ls == [ls[0]] + [ls[1]];
  }

  /** The three buckets of the stop-propagation example, in creation order and in descending order. */
  const Created: seq<Bucket<int>> := [Bucket(0, [1]), Bucket(3, [2]), Bucket(1, [3])]
  const Ranked: seq<Bucket<int>> := [Bucket(3, [2]), Bucket(1, [3]), Bucket(0, [1])]

  /** dispatcher_spec.rb:59-83: the listener of priority 1 stops the event, so the one of priority 0 is never called. */
  method StopPropagationExample()
  {
    var d := new Dispatcher<string, int>();
    d.AddListener("foo", 1);
    assert d.Buckets("foo") == [Bucket(0, [1])];
    d.AddListener("foo", 2, 3);
    SecondBucket();
    assert d.Buckets("foo") == [Bucket(0, [1]), Bucket(3, [2])];
    d.AddListener("foo", 3, 1);
    ThirdBucket();
    assert d.Buckets("foo") == Created;
    ThreeBucketOrder();
    StoppedByMiddle();
    var invoked, ev := d.DispatchNew("foo", IsThree);
    assert invoked == [2, 3];
    assert ev.IsStopped();
  }

  lemma SecondBucket()
    ensures AppendTo([Bucket(0, [1])], 2, 3) == [Bucket(0, [1]), Bucket(3, [2])]
  {
  }

  lemma ThirdBucket()
    ensures AppendTo([Bucket(0, [1]), Bucket(3, [2])], 3, 1) == Created
  {
  }

  lemma ThreeBucketOrder()
    ensures DeliveryOrder(Created) == [2, 3, 1]
  {
    RankedIsPermutation();
    CreatedUnique();
    RankedDescending();
    RankedFlatten();
    DeliveryOrderIsDescendingFlatten(Created, Ranked);
  }

  lemma RankedIsPermutation()
    ensures multiset(Ranked) == multiset(Created)
  {
  }

  lemma CreatedUnique()
    ensures UniquePriorities(Created)
  {
  }

  lemma RankedDescending()
    ensures StrictlyDescending(Ranked)
  {
  }

  lemma RankedFlatten()
    ensures Flatten(Ranked) == [2, 3, 1]
  {
  }

  /** The listener standing for the one that calls `stop_propagation`. */
  function IsThree(x: int): bool
  {
    x == 3
  }

  lemma StoppedByMiddle()
    ensures Delivered([2, 3, 1], false, IsThree) == [2, 3]
  {
  }

  /** dispatcher_spec.rb:135-145: the removed listener is no longer delivered to. */
  method RemoveListenerExample()
  {
    var d := new Dispatcher<string, int>();
    d.AddListener("foo", 1);
    assert d.Buckets("foo") == [Bucket(0, [1])];
    d.AddListener("foo", 2);
    AppendToSameBucket();
    assert d.Buckets("foo") == [Bucket(0, [1, 2])];
    assert DeliveryOrder([Bucket(0, [1, 2])]) == [1, 2] by { SingleBucketOrder(0, [1, 2]); }
    var ls := d.ListenersFor("foo");
    assert ls == [1, 2];
    d.RemoveListener("foo", 2);
    RemoveSecond();
    assert d.Buckets("foo") == [Bucket(0, [1])];
    assert DeliveryOrder([Bucket(0, [1])]) == [1] by { SingleBucketOrder(0, [1]); }
    ls := d.ListenersFor("foo");
    assert ls == [1];
  }

  lemma AppendToSameBucket()
    ensures AppendTo([Bucket(0, [1])], 2, 0) == [Bucket(0, [1, 2])]
  {
    assert [1] + [2] == [1, 2];
  }

  /** Removing the last listener of a name empties its bucket but keeps it, so `listeners_for?` stays true. */
  method RemoveLastListenerExample()
  {
    var d := new Dispatcher<string, int>();
    d.AddListener("foo", 1);
    assert d.Buckets("foo") == [Bucket(0, [1])];
    d.RemoveListener("foo", 1);
    RemoveOnly();
    assert d.Buckets("foo") == [Bucket(0, [])];
    assert DeliveryOrder<int>([Bucket(0, [])]) == [] by { SingleBucketOrder<int>(0, []); }
    var ls := d.ListenersFor("foo");
    assert ls == [] && d.HasListeners("foo");
  }

  lemma RemoveSecond()
    ensures Without([Bucket(0, [1, 2])], 2) == [Bucket(0, [1])]
  {
    assert Delete([1, 2], 2) == [1];
  }

  lemma RemoveOnly()
    ensures Without([Bucket(0, [1])], 1) == [Bucket(0, [])]
  {
    assert Delete([1], 1) == [];
  }
}
