/** The message store with its maps and channels updated in place.  Every method is proved to be
    the step of MessageStore it implements; loops over Go maps visit their keys in any order. */
module InMemoryStores {
  import opened Wrappers
  import opened MessageStore
  import Claims

  lemma SubscribersAreOpen(s: State, topic: string)
    requires Sound(s)
    ensures forall ch <- At(s.subscribers, topic) :: ch < |s.channels| && s.channels[ch].open
    ensures !HitsClosed(s, At(s.subscribers, topic))
  {
    forall ch | ch in At(s.subscribers, topic)
      ensures ch < |s.channels| && s.channels[ch].open
    {
      assert Listed(s.subscribers, topic, ch);
      ListedIffOpen(s, topic, ch);
    }
  }

  lemma StampedIs(message: Message, freshId: string, now: int, msg: Message)
    requires var m := if message.id == "" then message.(id := freshId) else message;
             msg == if m.time.None? then m.(time := Some(now)) else m
    ensures msg == Stamped(message, freshId, now)
  {
  }

  /** The state after a store, field by field. */
  lemma StoredState(s: State, m: Message)
    requires !s.panicked && !HitsClosed(s, At(s.subscribers, m.topic))
    ensures MessageStore.Store(s, m)
         == State(s.messages[m.id := m], s.topics[m.topic := At(s.topics, m.topic) + {m.id}], s.acks, s.subscribers,
                  s.info, SendAll(s.channels, At(s.subscribers, m.topic), m, |s.published|), s.published + [m], false)
  {
  }

  lemma FreshIs(topic: string, now: nat)
    ensures var c := Fresh(topic, now); c.open && c.topic == topic && c.buffer == []
  {
  }

  lemma SendNone(channels: seq<Channel>, m: Message, index: nat)
    ensures SendAll(channels, {}, m, index) == channels
  {
  }

  lemma SendNext(channels: seq<Channel>, all: set<nat>, rest: set<nat>, ch: nat, m: Message, index: nat)
    requires rest <= all && ch in rest && ch < |channels|
    ensures var sent := SendAll(channels, all - rest, m, index);
            && |sent| == |channels| && sent[ch] == channels[ch]
            && SendAll(channels, all - (rest - {ch}), m, index) == sent[ch := Send(channels[ch], m, index)]
  {
    hide Send;
  }

  lemma ShutNone(channels: seq<Channel>, now: nat)
    ensures ShutAll(channels, {}, now) == channels
  {
  }

  lemma ShutNext(channels: seq<Channel>, all: set<nat>, rest: set<nat>, ch: nat, now: nat)
    requires rest <= all && ch in rest && ch < |channels|
    ensures var done := ShutAll(channels, all - rest, now);
            && |done| == |channels| && done[ch] == channels[ch]
            && ShutAll(channels, all - (rest - {ch}), now) == done[ch := Shut(channels[ch], now)]
  {
    hide Shut;
  }

  lemma StoreIsSound(s: State, message: Message, freshId: string, now: int)
    requires Sound(s) && Enabled(s, Stores(message, freshId, now))
    ensures Sound(MessageStore.Store(s, Stamped(message, freshId, now)))
  {
    SoundStep(s, Stores(message, freshId, now));
  }

  /** A batch grows by an id that is visited next if it has room and the id is deliverable. */
  lemma {:induction false} PickNext(s: State, order: seq<string>, id: string, consumer: string, room: int)
    ensures var ids := Pick(s, order, consumer, room);
            Pick(s, order + [id], consumer, room)
            == if |ids| < room && Deliverable(s, id, consumer) then ids + [id] else ids
  {
    if order == [] {
      assert Pick(s, [id][1..], consumer, room) == [];
    } else {
      assert (order + [id])[1..] == order[1..] + [id];
      PickNext(s, order[1..], id, consumer, if Deliverable(s, order[0], consumer) then room - 1 else room);
    }
  }

  lemma {:induction false} PickDone(s: State, order: seq<string>, unvisited: seq<string>, consumer: string, room: int)
    requires |Pick(s, order, consumer, room)| >= room || unvisited == []
    ensures Pick(s, order + unvisited, consumer, room) == Pick(s, order, consumer, room)
  {
    if unvisited == [] {
      assert order + unvisited == order;
    } else if order != [] && room > 0 {
      assert (order + unvisited)[1..] == order[1..] + unvisited;
      PickDone(s, order[1..], unvisited, consumer, if Deliverable(s, order[0], consumer) then room - 1 else room);
    }
  }

  lemma {:induction false} NothingVisited(s: State, topic: string, consumer: string)
    ensures IsOrder([], At(s.topics, topic) - At(s.topics, topic)) && Assigned(s.acks, [], consumer) == s.acks
    ensures forall room: int :: Pick(s, [], consumer, room) == []
  {
  }

  lemma OrderNext(order: seq<string>, all: set<string>, rest: set<string>, id: string)
    requires IsOrder(order, all - rest) && rest <= all && id in rest
    ensures id !in order && IsOrder(order + [id], all - (rest - {id}))
  {
  }

  lemma OrderDone(order: seq<string>, unvisited: seq<string>, all: set<string>, rest: set<string>)
    requires IsOrder(order, all - rest) && rest <= all && IsOrder(unvisited, rest)
    ensures IsOrder(order + unvisited, all)
  {
    forall i, j | 0 <= i < j < |order + unvisited|
      ensures (order + unvisited)[i] != (order + unvisited)[j]
    {
      if i < |order| <= j { assert order[i] in order && unvisited[j - |order|] in unvisited; }
    }
    assert forall id :: id in order + unvisited <==> id in order || id in unvisited;
  }

  lemma AssignedNext(acks: map<string, string>, ids: seq<string>, id: string, consumer: string)
    ensures Assigned(acks, ids + [id], consumer)
         == if consumer == "" then Assigned(acks, ids, consumer) else Assigned(acks, ids, consumer)[id := consumer]
  {
    assert forall x :: x in ids + [id] <==> x in ids || x == id;
  }

  /** Claims made earlier in a call do not touch an id that is visited for the first time. */
  lemma {:induction false} AssignedLater(s: State, order: seq<string>, id: string, consumer: string, batchSize: int)
    requires id !in order
    ensures var acks := Assigned(s.acks, Pick(s, order, consumer, batchSize), consumer);
            (id in acks <==> id in s.acks) && (id in acks ==> acks[id] == s.acks[id])
  {
    var ids := Pick(s, order, consumer, batchSize);
    assert forall i :: 0 <= i < |ids| ==> ids[i] in order;
  }

  /** Some topic that is not in rest lists the channel. */
  ghost predicate ListedOutside(s: State, ch: nat, rest: set<string>) {
    exists t :: t !in rest && Listed(s.subscribers, t, ch)
  }

  /** The channels of the next topic are open and belong to no topic closed before. */
  lemma RegisteredApart(s: State, topic: string, done: set<nat>, rest: set<string>)
    requires Connected(s) && topic in rest && rest <= s.subscribers.Keys
    requires forall ch: nat :: ch in done <==> ListedOutside(s, ch, rest)
    ensures forall ch <- s.subscribers[topic] :: ch < |s.channels| && s.channels[ch].open && ch !in done
    ensures forall ch: nat :: ch in done + s.subscribers[topic] <==> ListedOutside(s, ch, rest - {topic})
  {
    forall ch | ch in s.subscribers[topic]
      ensures ch < |s.channels| && s.channels[ch].open && ch !in done
    {
      assert Listed(s.subscribers, topic, ch);
      ListedIffOpen(s, topic, ch);
    }
    forall ch: nat
      ensures ch in s.subscribers[topic] || ListedOutside(s, ch, rest) <==> ListedOutside(s, ch, rest - {topic})
    {
      assert Listed(s.subscribers, topic, ch) <==> ch in s.subscribers[topic];
    }
  }

  lemma AllListed(s: State, done: set<nat>)
    requires forall ch: nat :: ch in done <==> ListedOutside(s, ch, {})
    ensures done == Registered(s)
  {
    forall ch: nat
      ensures ch in done <==> ch in Registered(s)
    {
      RegisteredIffListed(s, ch);
    }
  }

  lemma ShutTwice(channels: seq<Channel>, done: set<nat>, more: set<nat>, now: nat)
    requires done !! more
    ensures ShutAll(ShutAll(channels, done, now), more, now) == ShutAll(channels, done + more, now)
  {
  }

  class InMemoryStore {
    var messages: map<string, Message>
    var topics: map<string, set<string>>
    var ackTracker: map<string, string>
    var subscribers: map<string, set<nat>>
    var subscriberInfo: map<string, Subscriber>
    /** Every channel made so far with its history, and the history of publishes. */
    var channels: seq<Channel>
    var published: seq<Message>

    ghost function View(): State
      reads this
    {
      State(messages, topics, ackTracker, subscribers, subscriberInfo, channels, published, false)
    }

    constructor ()
      ensures View() == INIT && Sound(View())
    {
      messages, topics, ackTracker, subscribers, subscriberInfo := map[], map[], map[], map[], map[];
      channels, published := [], [];
    }

    /** Sends to every subscriber of the topic that has room; the id and the time fill in what the
        message lacks. */
    method Store(message: Message, freshId: string, now: int)
      requires Sound(View()) && Enabled(View(), Stores(message, freshId, now))
      modifies this
      ensures View() == MessageStore.Store(old(View()), Stamped(message, freshId, now))
      ensures Sound(View())
    {
      hide Sound, Stamped, Enabled, MessageStore.Store, SendAll, HitsClosed, At;
      ghost var s := View();
      StoreIsSound(s, message, freshId, now);
      var msg := message;
      if msg.id == "" { msg := msg.(id := freshId); }
      if msg.time.None? { msg := msg.(time := Some(now)); }
      StampedIs(message, freshId, now, msg);
      SubscribersAreOpen(s, msg.topic);
      StoredState(s, msg);
      Index(msg);
      Notify(msg);
      published := published + [msg];
    }

    method Index(msg: Message)
      modifies this`messages, this`topics
      ensures messages == old(messages)[msg.id := msg]
      ensures topics == old(topics)[msg.topic := At(old(topics), msg.topic) + {msg.id}]
    {
      messages := messages[msg.id := msg];
      if msg.topic !in topics { topics := topics[msg.topic := {}]; }
      topics := topics[msg.topic := topics[msg.topic] + {msg.id}];
    }

    method Notify(msg: Message)
      requires forall ch <- At(subscribers, msg.topic) :: ch < |channels| && channels[ch].open
      modifies this`channels
      ensures channels == SendAll(old(channels), At(subscribers, msg.topic), msg, |published|)
    {
      hide Send;
      SendNone(channels, msg, |published|);
      if msg.topic in subscribers {
        var rest := subscribers[msg.topic];
        while rest != {}
          invariant rest <= subscribers[msg.topic]
          invariant channels == SendAll(old(channels), subscribers[msg.topic] - rest, msg, |published|)
          decreases |rest|
        {
          var ch :| ch in rest;
          SendNext(old(channels), subscribers[msg.topic], rest, ch, msg, |published|);
          assert channels[ch].open;
          channels := channels[ch := Send(channels[ch], msg, |published|)];
          rest := rest - {ch};
        }
      }
    }

    method Get(id: string) returns (message: Option<Message>)
      ensures message == if id in messages then Some(messages[id]) else None
    {
      if id in messages { message := Some(messages[id]); } else { message := None; }
    }

    method Delete(id: string)
      requires Sound(View())
      modifies this
      ensures View() == MessageStore.Delete(old(View()), id)
      ensures Sound(View())
    {
      SoundStep(View(), Deletes(id));
      messages := messages - {id};
      ackTracker := ackTracker - {id};
    }

    method Subscribe(topic: string) returns (ch: nat)
      requires Sound(View())
      modifies this
      ensures View() == MessageStore.Subscribe(old(View()), topic) && ch == |old(channels)|
      ensures |channels| == ch + 1 && channels[ch].open && channels[ch].topic == topic && channels[ch].buffer == []
      ensures topic in subscribers && ch in subscribers[topic]
      ensures Sound(View())
    {
      hide Sound, Fresh;
      SoundStep(View(), Subscribes(topic));
      FreshIs(topic, |published|);
      ch := |channels|;
      channels := channels + [Fresh(topic, |published|)];
      if topic !in subscribers { subscribers := subscribers[topic := {}]; }
      subscribers := subscribers[topic := subscribers[topic] + {ch}];
    }

    /** The goroutine that Subscribe leaves behind, when its context is done. */
    method Cleanup(ch: nat, topic: string)
      requires Sound(View()) && ch < |channels| && topic == channels[ch].topic
      modifies this
      ensures View() == MessageStore.Cleanup(old(View()), ch)
      ensures Sound(View())
    {
      SoundStep(View(), Cleans(ch));
      ListedIffOpen(View(), topic, ch);
      hide Sound;
      if topic in subscribers {
        if ch in subscribers[topic] {
          subscribers := subscribers[topic := subscribers[topic] - {ch}];
          assert channels[ch].open;
          channels := channels[ch := Shut(channels[ch], |published|)];
        }
      }
    }

    /** A receive by the subscriber; None is the zero value a closed empty channel yields. */
    method Receive(ch: nat) returns (message: Option<Message>)
      requires Sound(View()) && Enabled(View(), Receives(ch))
      modifies this
      ensures View() == Step(old(View()), Receives(ch))
      ensures message == if old(channels)[ch].buffer == [] then None else Some(old(channels)[ch].buffer[0])
      ensures Sound(View())
    {
      SoundStep(View(), Receives(ch));
      hide Sound;
      if channels[ch].buffer == [] {
        message := None;
      } else {
        message := Some(channels[ch].buffer[0]);
        channels := channels[ch := Take(channels[ch])];
      }
    }

    method Acknowledge(id: string, consumer: string) returns (found: bool)
      requires Sound(View())
      modifies this
      ensures View() == MessageStore.Acknowledge(old(View()), id, consumer)
      ensures found <==> id in old(messages)
      ensures Sound(View())
    {
      SoundStep(View(), Acknowledges(id, consumer));
      hide Sound;
      if id !in messages { return false; }
      ackTracker := ackTracker[id := consumer];
      return true;
    }

    method AddSubscriber(subscriber: Subscriber)
      requires Sound(View())
      modifies this
      ensures View() == Step(old(View()), Adds(subscriber))
      ensures Sound(View())
    {
      SoundStep(View(), Adds(subscriber));
      subscriberInfo := subscriberInfo[subscriber.id := subscriber];
    }

    method RemoveSubscriber(consumer: string)
      requires Sound(View())
      modifies this
      ensures View() == Step(old(View()), Removes(consumer))
      ensures Sound(View())
    {
      SoundStep(View(), Removes(consumer));
      subscriberInfo := subscriberInfo - {consumer};
    }

    /** order is the order in which the map iteration happened to visit the topic's ids. */
    method GetMessages(topic: string, consumer: string, batchSize: int)
        returns (batch: seq<Message>, ghost order: seq<string>)
      requires Sound(View())
      modifies this
      ensures IsOrder(order, At(old(topics), topic))
      ensures View() == MessageStore.GetMessages(old(View()), consumer, batchSize, order)
      ensures batch == Batch(old(View()), consumer, batchSize, order)
      ensures Sound(View())
    {
      ghost var s := View();
      NothingVisited(s, topic, consumer);
      hide Sound, IsOrder, Assigned, Pick;
      batch, order := [], [];
      var count := 0;
      var rest := At(topics, topic);
      while rest != {}
        invariant rest <= At(s.topics, topic) && IsOrder(order, At(s.topics, topic) - rest)
        invariant batch == Batch(s, consumer, batchSize, order) && count == |batch|
        invariant View() == MessageStore.GetMessages(s, consumer, batchSize, order)
        decreases |rest|
      {
        if count >= batchSize { break; }
        var id :| id in rest;
        OrderNext(order, At(s.topics, topic), rest, id);
        PickNext(s, order, id, consumer, batchSize);
        AssignedLater(s, order, id, consumer, batchSize);
        AssignedNext(s.acks, Pick(s, order, consumer, batchSize), id, consumer);
        rest := rest - {id};
        order := order + [id];
        if consumer != "" && id in ackTracker && ackTracker[id] == consumer { continue; }
        if id in messages {
          batch := batch + [messages[id]];
          count := count + 1;
          if consumer != "" { ackTracker := ackTracker[id := consumer]; }
        }
      }
      ghost var unvisited := Claims.Enumerated(rest);
      PickDone(s, order, unvisited, consumer, batchSize);
      OrderDone(order, unvisited, At(s.topics, topic), rest);
      order := order + unvisited;
      SoundStep(s, Gets(topic, consumer, batchSize, order));
    }

    method Close()
      requires Sound(View())
      modifies this
      ensures View() == MessageStore.Close(old(View()))
      ensures Sound(View())
    {
      ghost var s := View();
      SoundStep(s, Closes);
      CloseKeepsConnected(s);
      CloseChannels();
      hide Sound, Connected, HitsClosed, Shared;
      messages, topics, ackTracker, subscribers, subscriberInfo := map[], map[], map[], map[], map[];
      assert View() == MessageStore.Close(s);
    }

    method CloseChannels()
      requires Connected(View())
      modifies this`channels
      ensures channels == ShutAll(old(channels), Registered(old(View())), |published|)
    {
      ghost var s := View();
      ghost var done: set<nat> := {};
      var rest := subscribers.Keys;
      while rest != {}
        invariant rest <= subscribers.Keys
        invariant channels == ShutAll(s.channels, done, |published|)
        invariant forall ch: nat :: ch in done <==> ListedOutside(s, ch, rest)
        decreases |rest|
      {
        var topic :| topic in rest;
        RegisteredApart(s, topic, done, rest);
        CloseTopic(subscribers[topic]);
        ShutTwice(s.channels, done, subscribers[topic], |published|);
        done := done + subscribers[topic];
        rest := rest - {topic};
      }
      AllListed(s, done);
    }

    method CloseTopic(subs: set<nat>)
      requires forall ch <- subs :: ch < |channels| && channels[ch].open
      modifies this`channels
      ensures channels == ShutAll(old(channels), subs, |published|)
    {
      hide Shut;
      ShutNone(channels, |published|);
      var rest := subs;
      while rest != {}
        invariant rest <= subs && channels == ShutAll(old(channels), subs - rest, |published|)
        decreases |rest|
      {
        var ch :| ch in rest;
        ShutNext(old(channels), subs, rest, ch, |published|);
        assert channels[ch].open;
        channels := channels[ch := Shut(channels[ch], |published|)];
        rest := rest - {ch};
      }
    }
  }
}
