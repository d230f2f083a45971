/** What GetMessages hands out: redelivery, draining a topic, and messages of the wrong topic. */
module Claims {
  import opened Wrappers
  import opened Division
  import opened MessageStore

  // ----- one batch -----

  /** The messages of a topic a consumer may still get. */
  ghost function Unclaimed(s: State, topic: string, consumer: string): set<string> {
    set id <- At(s.topics, topic) |
      id in s.messages && (consumer == "" || id !in s.acks || s.acks[id] != consumer)
  }

  ghost function Elements<T(!new)>(a: seq<T>): set<T> {
    set x <- a
  }

  ghost function Enumerated(ids: set<string>): (order: seq<string>)
    ensures IsOrder(order, ids)
  {
    if ids == {} then []
    else
      var id :| id in ids;
      [id] + Enumerated(ids - {id})
  }

  ghost predicate Distinct<T(!new)>(a: seq<T>) {
    forall i, j :: 0 <= i < j < |a| ==> a[i] != a[j]
  }

  ghost function Live(s: State, order: seq<string>, consumer: string): set<string> {
    set id <- order | Deliverable(s, id, consumer)
  }

  lemma LiveFirst(s: State, order: seq<string>, consumer: string)
    requires order != [] && Distinct(order)
    ensures Distinct(order[1..]) && order[0] !in order[1..]
    ensures Live(s, order, consumer)
         == Live(s, order[1..], consumer) + if Deliverable(s, order[0], consumer) then {order[0]} else {}
  {
    assert order == [order[0]] + order[1..];
  }

  /** A batch is full or takes everything the order still offers. */
  lemma {:induction false} PickTakes(s: State, order: seq<string>, consumer: string, room: int)
    requires Distinct(order)
    ensures var ids := Pick(s, order, consumer, room);
            && Distinct(ids) && Elements(ids) <= Live(s, order, consumer)
            && |ids| == if room < 0 then 0 else Min(room, |Live(s, order, consumer)|)
  {
    if order == [] || room <= 0 {
    } else {
      LiveFirst(s, order, consumer);
      var taken := Deliverable(s, order[0], consumer);
      var rest := Pick(s, order[1..], consumer, if taken then room - 1 else room);
      PickTakes(s, order[1..], consumer, if taken then room - 1 else room);
      if taken {
        assert forall i :: 0 <= i < |rest| ==> rest[i] in Elements(rest);
        assert order[0] !in Live(s, order[1..], consumer);
      }
    }
  }

  /** One call of GetMessages, for whatever order the map iteration takes. */
  lemma {:induction false} BatchTakes(s: State, topic: string, consumer: string, batchSize: int, order: seq<string>)
    requires IsOrder(order, At(s.topics, topic))
    ensures var ids := Pick(s, order, consumer, batchSize);
            var unclaimed := Unclaimed(s, topic, consumer);
            && Distinct(ids) && Elements(ids) <= unclaimed
            && |ids| == (if batchSize < 0 then 0 else Min(batchSize, |unclaimed|))
            && (consumer != "" ==>
                  Unclaimed(GetMessages(s, consumer, batchSize, order), topic, consumer) == unclaimed - Elements(ids))
            && (consumer == "" ==> GetMessages(s, consumer, batchSize, order) == s)
  {
    PickTakes(s, order, consumer, batchSize);
    LiveIsUnclaimed(s, topic, consumer, order);
    ClaimsTaken(s, topic, consumer, batchSize, order);
    hide Pick, Live, Unclaimed, IsOrder, Distinct;
  }

  lemma LiveIsUnclaimed(s: State, topic: string, consumer: string, order: seq<string>)
    requires IsOrder(order, At(s.topics, topic))
    ensures Live(s, order, consumer) == Unclaimed(s, topic, consumer)
  {
  }

  lemma {:induction false} ClaimsTaken(s: State, topic: string, consumer: string, batchSize: int, order: seq<string>)
    requires IsOrder(order, At(s.topics, topic))
    ensures var ids, d := Pick(s, order, consumer, batchSize), GetMessages(s, consumer, batchSize, order);
            && (consumer != "" ==> Unclaimed(d, topic, consumer) == Unclaimed(s, topic, consumer) - Elements(ids))
            && (consumer == "" ==> d == s)
  {
    hide Pick, IsOrder;
  }

  /** Deleted ids stay in the topic index, but no batch returns them. */
  lemma BatchIsStored(s: State, topic: string, consumer: string, batchSize: int, order: seq<string>)
    requires Sound(s) && IsOrder(order, At(s.topics, topic))
    ensures forall m <- Batch(s, consumer, batchSize, order) ::
              m.id in s.messages && s.messages[m.id] == m && m.id in At(s.topics, topic)
  {
    var ids, batch := Pick(s, order, consumer, batchSize), Batch(s, consumer, batchSize, order);
    forall m | m in batch
      ensures m.id in s.messages && s.messages[m.id] == m && m.id in At(s.topics, topic)
    {
      var i :| 0 <= i < |batch| && batch[i] == m;
      assert ids[i] in order;
    }
  }

  // ----- draining a topic -----

  /** The batches of successive calls, one per iteration order. */
  ghost function Batches(s: State, consumer: string, b: int, orders: seq<seq<string>>): (r: seq<seq<string>>)
    ensures |r| == |orders|
    decreases |orders|
  {
    if orders == [] then []
    else
      var later := GetMessages(s, consumer, b, orders[0]);
      [Pick(s, orders[0], consumer, b)] + Batches(later, consumer, b, orders[1..])
  }

  ghost function Union(batches: seq<seq<string>>): set<string> {
    if batches == [] then {} else Elements(batches[0]) + Union(batches[1..])
  }

  lemma {:induction false} UnionHolds(batches: seq<seq<string>>, k: nat)
    requires k < |batches|
    ensures Elements(batches[k]) <= Union(batches)
  {
    if k == 0 {
    } else {
      UnionHolds(batches[1..], k - 1);
    }
  }

  /** The first call, and the others from the state it leaves. */
  lemma {:induction false} FirstBatch(s: State, topic: string, consumer: string, b: nat, orders: seq<seq<string>>)
    requires consumer != "" && orders != []
    requires forall order <- orders :: IsOrder(order, At(s.topics, topic))
    ensures var later := GetMessages(s, consumer, b, orders[0]);
            var r, unclaimed := Batches(s, consumer, b, orders), Unclaimed(s, topic, consumer);
            && (forall order <- orders[1..] :: IsOrder(order, At(later.topics, topic)))
            && r[1..] == Batches(later, consumer, b, orders[1..])
            && Distinct(r[0]) && Elements(r[0]) <= unclaimed && |r[0]| == Min(b, |unclaimed|)
            && Unclaimed(later, topic, consumer) == unclaimed - Elements(r[0])
  {
    hide IsOrder, Unclaimed, Pick, Distinct, Elements;
    assert orders[0] in orders;
    BatchTakes(s, topic, consumer, b, orders[0]);
  }

  lemma {:induction false} DrainDisjoint(s: State, topic: string, consumer: string, b: nat, orders: seq<seq<string>>)
    requires consumer != ""
    requires forall order <- orders :: IsOrder(order, At(s.topics, topic))
    ensures var r := Batches(s, consumer, b, orders);
            && Union(r) <= Unclaimed(s, topic, consumer)
            && (forall k, l :: 0 <= k < l < |r| ==> Elements(r[k]) !! Elements(r[l]))
    decreases |orders|
  {
    if orders == [] {
    } else {
      FirstBatch(s, topic, consumer, b, orders);
      var later := GetMessages(s, consumer, b, orders[0]);
      var r, r' := Batches(s, consumer, b, orders), Batches(later, consumer, b, orders[1..]);
      DrainDisjoint(later, topic, consumer, b, orders[1..]);
      forall k, l | 0 <= k < l < |r|
        ensures Elements(r[k]) !! Elements(r[l])
      {
        UnionHolds(r', l - 1);
      }
    }
  }

  /** How many messages are left after k calls. */
  function Left(n: nat, b: nat, k: nat): nat
    decreases k
  {
    if k == 0 then n else Left(if n > b then n - b else 0, b, k - 1)
  }

  lemma {:induction false} LeftIs(n: nat, b: nat, k: nat)
    ensures Left(n, b, k) == if k * b < n then n - k * b else 0
    decreases k
  {
    if k == 0 {
    } else {
      LeftIs(if n > b then n - b else 0, b, k - 1);
      assert k * b == (k - 1) * b + b;
    }
  }

  lemma {:induction false} DrainSizes(s: State, topic: string, consumer: string, b: nat, orders: seq<seq<string>>)
    requires consumer != ""
    requires forall order <- orders :: IsOrder(order, At(s.topics, topic))
    ensures var n, r := |Unclaimed(s, topic, consumer)|, Batches(s, consumer, b, orders);
            && |Union(r)| == n - Left(n, b, |r|)
            && (forall k :: 0 <= k < |r| ==> |r[k]| == Min(b, Left(n, b, k)))
    decreases |orders|
  {
    hide Unclaimed, Elements, IsOrder, GetMessages, Pick, Distinct;
    if orders == [] {
    } else {
      hide Batches, Union, Left;
      FirstBatch(s, topic, consumer, b, orders);
      var later, r := GetMessages(s, consumer, b, orders[0]), Batches(s, consumer, b, orders);
      DrainSizes(later, topic, consumer, b, orders[1..]);
      DrainDisjoint(later, topic, consumer, b, orders[1..]);
      ElementsCount(r[0]);
      SizesStep(Unclaimed(s, topic, consumer), b, r);
    }
  }

  lemma {:induction false} SizesStep(unclaimed: set<string>, b: nat, r: seq<seq<string>>)
    requires r != [] && Elements(r[0]) <= unclaimed && Union(r[1..]) <= unclaimed - Elements(r[0])
    requires |Elements(r[0])| == |r[0]| == Min(b, |unclaimed|)
    requires var n := |unclaimed - Elements(r[0])|;
             && |Union(r[1..])| == n - Left(n, b, |r| - 1)
             && forall k :: 0 <= k < |r| - 1 ==> |r[1..][k]| == Min(b, Left(n, b, k))
    ensures var n := |unclaimed|;
            && |Union(r)| == n - Left(n, b, |r|)
            && forall k :: 0 <= k < |r| ==> |r[k]| == Min(b, Left(n, b, k))
  {
    hide Left, Union, Elements;
    var n, m := |unclaimed|, |unclaimed - Elements(r[0])|;
    UnionFirst(r, unclaimed);
    LeftNext(n, b, |r|);
    forall k | 0 <= k < |r|
      ensures |r[k]| == Min(b, Left(n, b, k))
    {
      LeftNext(n, b, k);
      if k > 0 { assert r[k] == r[1..][k - 1]; }
    }
  }

  lemma LeftNext(n: nat, b: nat, k: nat)
    ensures Left(n, b, k) == if k == 0 then n else Left(n - Min(b, n), b, k - 1)
  {
  }

  lemma {:induction false} UnionFirst(r: seq<seq<string>>, unclaimed: set<string>)
    requires r != [] && Elements(r[0]) <= unclaimed && Union(r[1..]) <= unclaimed - Elements(r[0])
    ensures |Union(r)| == |Elements(r[0])| + |Union(r[1..])|
    ensures |unclaimed - Elements(r[0])| == |unclaimed| - |Elements(r[0])|
  {
    assert Elements(r[0]) !! Union(r[1..]);
  }

  lemma {:induction false} ElementsCount<T(!new)>(a: seq<T>)
    requires Distinct(a)
    ensures |Elements(a)| == |a|
  {
    if a == [] {
    } else {
      ElementsCount(a[1..]);
      assert a == [a[0]] + a[1..];
      assert Elements(a) == {a[0]} + Elements(a[1..]);
    }
  }

  /** A named consumer working alone gets pairwise disjoint batches of size min(b, remaining), and
      after ceil(n / b) calls has got exactly the n messages, for any map iteration orders. */
  lemma {:induction false} Drain(s: State, topic: string, consumer: string, b: nat, orders: seq<seq<string>>)
    requires consumer != "" && b > 0
    requires forall order <- orders :: IsOrder(order, At(s.topics, topic))
    ensures var n, r := |Unclaimed(s, topic, consumer)|, Batches(s, consumer, b, orders);
            && (forall k :: 0 <= k < |r| ==> |r[k]| == if k * b < n then Min(b, n - k * b) else 0)
            && (forall k, l :: 0 <= k < l < |r| ==> Elements(r[k]) !! Elements(r[l]))
            && (Union(r) == Unclaimed(s, topic, consumer) <==> |r| >= (n + b - 1) / b)
  {
    hide Unclaimed, Batches, Union, Left, Elements, IsOrder;
    var unclaimed, r := Unclaimed(s, topic, consumer), Batches(s, consumer, b, orders);
    DrainSizes(s, topic, consumer, b, orders);
    DrainDisjoint(s, topic, consumer, b, orders);
    forall k | 0 <= k < |r|
      ensures |r[k]| == if k * b < |unclaimed| then Min(b, |unclaimed| - k * b) else 0
    {
      LeftIs(|unclaimed|, b, k);
    }
    CoveredIff(unclaimed, Union(r), b, |r|);
  }

  /** A subset that leaves out as many elements as k calls do is everything after ceil(n / b) calls. */
  lemma {:induction false} CoveredIff(unclaimed: set<string>, got: set<string>, b: nat, k: nat)
    requires b > 0 && got <= unclaimed && |got| == |unclaimed| - Left(|unclaimed|, b, k)
    ensures got == unclaimed <==> k >= (|unclaimed| + b - 1) / b
  {
    hide Left;
    LeftIs(|unclaimed|, b, k);
    CeilingCovers(|unclaimed|, b, k);
    assert |unclaimed - got| == |unclaimed| - |got|;
    assert got == unclaimed <==> unclaimed - got == {};
  }

  lemma CeilingCovers(n: nat, b: nat, k: nat)
    requires b > 0
    ensures k * b >= n <==> k >= (n + b - 1) / b
  {
    var q := (n + b - 1) / b;
    assert n + b - 1 == b * q + (n + b - 1) % b;
    if k >= q { AtLeast(b, q, k); } else { AtLeast(b, k, q - 1); }
    assert b * (q - 1) == b * q - b;
  }

  // ----- redelivery -----

  /** Event e hands message id to the consumer. */
  predicate Delivers(s: State, e: Event, id: string, consumer: string) {
    e.Gets? && e.consumer == consumer && id in Pick(s, e.order, consumer, e.batchSize)
  }

  /** Event e takes a message away from the consumer that claimed it. */
  predicate Releases(s: State, e: Event, id: string, consumer: string) {
    match e
    case Deletes(x) => x == id
    case Closes => true
    case Acknowledges(x, other) => x == id && other != consumer && id in s.messages
    case Gets(_, other, _, _) => other != "" && other != consumer && Delivers(s, e, id, other)
    case _ => false
  }

  /** Event e gives a message to the consumer, by handing it out or by an acknowledgment. */
  predicate Grants(s: State, e: Event, id: string, consumer: string) {
    match e
    case Acknowledges(x, other) => x == id && other == consumer && id in s.messages
    case Gets(_, other, _, _) => other != "" && Delivers(s, e, id, consumer)
    case _ => false
  }

  lemma ClaimStep(s: State, e: Event, id: string, consumer: string)
    requires Enabled(s, e)
    ensures ClaimedBy(Step(s, e), id, consumer)
       <==> Grants(s, e, id, consumer) || (ClaimedBy(s, id, consumer) && !Releases(s, e, id, consumer))
    ensures !(Grants(s, e, id, consumer) && Releases(s, e, id, consumer))
  {
  }

  /** One of the events from i up to j takes the message away, and none of those after it gives it back. */
  ghost predicate Lost(states: seq<State>, events: seq<Event>, i: nat, j: nat, id: string, consumer: string)
    requires j <= |events| <= |states|
  {
    exists k ::
      && i <= k < j && Releases(states[k], events[k], id, consumer)
      && forall l :: k < l < j ==> !Grants(states[l], events[l], id, consumer)
  }

  /** A claim is still there later exactly if it is not lost in between. */
  lemma {:induction false} ClaimedUnlessLost(states: seq<State>, events: seq<Event>, i: nat, j: nat,
                                             id: string, consumer: string)
    requires Path(states, events) && i <= j < |states| && ClaimedBy(states[i], id, consumer)
    ensures j <= |events| <= |states|
    ensures ClaimedBy(states[j], id, consumer) <==> !Lost(states, events, i, j, id, consumer)
  {
    hide Path, Step, Enabled, Lost, ClaimedBy, Grants, Releases;
    PathLength(states, events);
    if j == i {
      NeverLost(states, events, i, id, consumer);
    } else {
      ClaimedUnlessLost(states, events, i, j - 1, id, consumer);
      PathStep(states, events, j - 1);
      ClaimStep(states[j - 1], events[j - 1], id, consumer);
      LostNext(states, events, i, j, id, consumer);
    }
  }

  lemma NeverLost(states: seq<State>, events: seq<Event>, i: nat, id: string, consumer: string)
    requires i <= |events| <= |states|
    ensures !Lost(states, events, i, i, id, consumer)
  {
  }

  lemma {:induction false} LostNext(states: seq<State>, events: seq<Event>, i: nat, j: nat,
                                    id: string, consumer: string)
    requires i < j <= |events| <= |states|
    requires var s, e := states[j - 1], events[j - 1]; !(Grants(s, e, id, consumer) && Releases(s, e, id, consumer))
    ensures var s, e := states[j - 1], events[j - 1];
            Lost(states, events, i, j, id, consumer)
            <==> Releases(s, e, id, consumer)
                 || (Lost(states, events, i, j - 1, id, consumer) && !Grants(s, e, id, consumer))
  {
    hide Releases, Grants;
    if Releases(states[j - 1], events[j - 1], id, consumer) {
    } else if Lost(states, events, i, j, id, consumer) {
      var k :| i <= k < j && Releases(states[k], events[k], id, consumer)
               && forall l :: k < l < j ==> !Grants(states[l], events[l], id, consumer);
      assert k < j - 1;
    } else if Lost(states, events, i, j - 1, id, consumer) {
      var k :| i <= k < j - 1 && Releases(states[k], events[k], id, consumer)
               && forall l :: k < l < j - 1 ==> !Grants(states[l], events[l], id, consumer);
    }
  }

  lemma DeliveredIsUnclaimed(s: State, e: Event, id: string, consumer: string)
    requires consumer != "" && Delivers(s, e, id, consumer)
    ensures !ClaimedBy(s, id, consumer)
  {
    var ids := Pick(s, e.order, consumer, e.batchSize);
    var i :| 0 <= i < |ids| && ids[i] == id;
    assert Deliverable(s, ids[i], consumer);
  }

  /** A named consumer is handed the same message twice only if in between another consumer claimed
      or acknowledged it, or it was deleted, or the store was closed.  Storing it again is not
      enough. */
  lemma RedeliveryNeedsRelease(states: seq<State>, events: seq<Event>, i: nat, j: nat, id: string, consumer: string)
    requires Behaviour(states, events) && i < j < |events| && consumer != ""
    requires Delivers(states[i], events[i], id, consumer) && Delivers(states[j], events[j], id, consumer)
    ensures exists k :: i < k < j && Releases(states[k], events[k], id, consumer)
  {
    assert ClaimedBy(states[i + 1], id, consumer);
    DeliveredIsUnclaimed(states[j], events[j], id, consumer);
    ClaimedUnlessLost(states, events, i + 1, j, id, consumer);
  }

  /** Right after a release the consumer may be handed the message again exactly if the store still
      has it, which a deletion and a close rule out. */
  lemma ReleasedIsDeliverable(s: State, e: Event, id: string, consumer: string)
    requires Enabled(s, e) && Indexed(s) && consumer != "" && ClaimedBy(s, id, consumer)
    requires Releases(s, e, id, consumer)
    ensures Deliverable(Step(s, e), id, consumer) <==> e.Acknowledges? || e.Gets?
  {
  }

  // ----- one topic per id -----

  /** Every stored message is listed under its own topic only. */
  ghost predicate Pure(s: State) {
    forall t, id :: id in At(s.topics, t) && id in s.messages ==> s.messages[id].topic == t
  }

  /** The event stores a message whose id another topic lists. */
  ghost predicate Misfiles(s: State, e: Event) {
    e.Stores? && exists t :: t != e.message.topic && Stamped(e.message, e.freshId, e.now).id in At(s.topics, t)
  }

  lemma StorePure(s: State, m: Message)
    requires Pure(s)
    ensures Pure(Store(s, m)) <==> forall t :: m.id in At(s.topics, t) ==> t == m.topic
  {
    var d := Store(s, m);
    if t :| m.id in At(s.topics, t) && t != m.topic {
      assert m.id in At(d.topics, t) && d.messages[m.id] == m;
    } else {
      forall t, id | id in At(d.topics, t) && id in d.messages
        ensures d.messages[id].topic == t
      {
        if id == m.id { assert t == m.topic || m.id in At(s.topics, t); }
        else { assert id in At(s.topics, t); }
      }
    }
  }

  lemma PureStep(s: State, e: Event)
    requires Enabled(s, e) && Pure(s)
    ensures Pure(Step(s, e)) <==> !Misfiles(s, e)
  {
    hide Store, Pure, Stamped;
    if e.Stores? {
      StorePure(s, Stamped(e.message, e.freshId, e.now));
      StampedTopic(e);
    } else {
      OtherPure(s, e);
    }
  }

  lemma StampedTopic(e: Event)
    requires e.Stores?
    ensures Stamped(e.message, e.freshId, e.now).topic == e.message.topic
  {
  }

  lemma OtherPure(s: State, e: Event)
    requires Enabled(s, e) && Pure(s) && !e.Stores?
    ensures Pure(Step(s, e))
  {
    OtherKeeps(s, e);
    hide Step, Enabled;
    var d := Step(s, e);
    forall t, id | id in At(d.topics, t) && id in d.messages
      ensures d.messages[id].topic == t
    {
      assert id in At(s.topics, t);
    }
  }

  lemma OtherKeeps(s: State, e: Event)
    requires Enabled(s, e) && !e.Stores?
    ensures var d := Step(s, e);
            && (d.topics == s.topics || d.topics == map[])
            && forall id :: id in d.messages ==> id in s.messages && d.messages[id] == s.messages[id]
  {
    hide Store;
  }

  /** A store keeps every message under one topic throughout a run exactly if no Store of the run
      uses an id that another topic lists. */
  lemma PureRun(states: seq<State>, events: seq<Event>)
    requires Behaviour(states, events)
    ensures (forall i :: 0 <= i < |states| ==> Pure(states[i]))
       <==> (forall i :: 0 <= i < |events| ==> !Misfiles(states[i], events[i]))
  {
    PureUpTo(states, events, |events|);
  }

  lemma InitPure()
    ensures Pure(INIT)
  {
  }

  lemma {:induction false} PureUpTo(states: seq<State>, events: seq<Event>, n: nat)
    requires Behaviour(states, events) && n <= |events|
    ensures (forall i :: 0 <= i <= n ==> Pure(states[i]))
       <==> (forall i :: 0 <= i < n ==> !Misfiles(states[i], events[i]))
  {
    hide Path, Step, Enabled, Pure, Misfiles;
    PathLength(states, events);
    if n == 0 {
      InitPure();
    } else {
      PureUpTo(states, events, n - 1);
      PathStep(states, events, n - 1);
      if Pure(states[n - 1]) { PureStep(states[n - 1], events[n - 1]); }
    }
  }

  /** Then GetMessages returns only messages of the requested topic, and only then. */
  lemma PureIffBatchesAre(s: State)
    ensures Pure(s) <==> forall topic, order, consumer, batchSize: int ::
                           IsOrder(order, At(s.topics, topic)) ==> OfTopic(Batch(s, consumer, batchSize, order), topic)
  {
    forall topic, order, consumer, batchSize: int | Pure(s) && IsOrder(order, At(s.topics, topic))
      ensures OfTopic(Batch(s, consumer, batchSize, order), topic)
    {
      var ids := Pick(s, order, consumer, batchSize);
      assert forall i :: 0 <= i < |ids| ==> ids[i] in order;
    }
    if topic, id :| id in At(s.topics, topic) && id in s.messages && s.messages[id].topic != topic {
      var order := [id] + Enumerated(At(s.topics, topic) - {id});
      assert IsOrder(order, At(s.topics, topic));
      assert Pick(s, order, "", 1)[0] == id;
      assert Batch(s, "", 1, order)[0] == s.messages[id];
      assert !OfTopic(Batch(s, "", 1, order), topic);
    }
  }

  predicate OfTopic(batch: seq<Message>, topic: string) {
    forall i :: 0 <= i < |batch| ==> batch[i].topic == topic
  }

  /** Storing one id under two topics makes the first topic return the second one's message. */
  lemma MisfiledExample() returns (states: seq<State>, events: seq<Event>)
    ensures Behaviour(states, events) && |events| == 2
    ensures Enabled(states[2], Gets("a", "c", 1, ["x"]))
    ensures exists m :: Batch(states[2], "c", 1, ["x"]) == [m] && m.topic == "b"
  {
    var m, n := Message("x", "a", [], Some(0)), Message("x", "b", [], Some(0));
    var s := Store(INIT, m);
    var d := Store(s, n);
    states, events := [INIT, s, d], [Stores(m, "", 0), Stores(n, "", 0)];
    assert At(d.topics, "a") == {"x"};
    assert Pick(d, ["x"], "c", 1) == ["x"] + Pick(d, [], "c", 0);
    assert Batch(d, "c", 1, ["x"]) == [n];
  }
}
