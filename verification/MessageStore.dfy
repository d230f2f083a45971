/** The in-memory message store as a machine over its atomic steps: every method body runs under
    one lock, so a run is a sequence of method calls, channel receives and cleanup goroutines. */
module MessageStore {
  import opened Wrappers

  const CAPACITY: nat := 100

  /** time is None while the timestamp is unset. */
  datatype Message = Message(id: string, topic: string, payload: seq<Byte>, time: Option<int>)

  datatype Subscriber = Subscriber(id: string, topic: string, batchSize: int)

  /** One attempt to send a published message, named by its position in the publish history,
      with the number of messages the buffer held at that moment. */
  datatype Offer = Offer(index: nat, taken: bool, held: nat)

  /** A subscription channel.  The topic is the one its cleanup goroutine captured.
      closes, born, died, offers and consumed are the channel's history: how often it was
      closed, between which publishes it was open, what was offered and what was received. */
  datatype Channel = Channel(topic: string, open: bool, buffer: seq<Message>,
                             closes: nat, born: nat, died: nat,
                             offers: seq<Offer>, consumed: seq<Message>)

  /** Channels are named by their creation order.  panicked latches a send on a closed channel
      or a second close; published is the history of stored messages. */
  datatype State = State(messages: map<string, Message>,
                         topics: map<string, set<string>>,
                         acks: map<string, string>,
                         subscribers: map<string, set<nat>>,
                         info: map<string, Subscriber>,
                         channels: seq<Channel>,
                         published: seq<Message>,
                         panicked: bool)

  const INIT: State := State(map[], map[], map[], map[], map[], [], [], false)

  /** A Go map of sets read at a missing key. */
  function At<T>(index: map<string, set<T>>, key: string): set<T> {
    if key in index then index[key] else {}
  }

  // ----- channels -----

  function Fresh(topic: string, now: nat): Channel {
    Channel(topic, true, [], 0, now, now, [], [])
  }

  /** A non-blocking send. */
  function Send(c: Channel, m: Message, index: nat): Channel {
    var held := |c.buffer|;
    if held < CAPACITY
    then c.(buffer := c.buffer + [m], offers := c.offers + [Offer(index, true, held)])
    else c.(offers := c.offers + [Offer(index, false, held)])
  }

  function Shut(c: Channel, now: nat): Channel {
    c.(open := false, closes := c.closes + 1, died := now)
  }

  function Take(c: Channel): Channel
    requires c.buffer != []
  {
    c.(buffer := c.buffer[1..], consumed := c.consumed + [c.buffer[0]])
  }

  function SendAll(channels: seq<Channel>, to: set<nat>, m: Message, index: nat): (r: seq<Channel>)
    ensures |r| == |channels|
    ensures forall k :: 0 <= k < |r| ==> r[k] == if k in to then Send(channels[k], m, index) else channels[k]
  {
    seq(|channels|, k requires 0 <= k < |channels| =>
      if k in to then Send(channels[k], m, index) else channels[k])
  }

  function ShutAll(channels: seq<Channel>, which: set<nat>, now: nat): (r: seq<Channel>)
    ensures |r| == |channels|
    ensures forall k :: 0 <= k < |r| ==> r[k] == if k in which then Shut(channels[k], now) else channels[k]
  {
    seq(|channels|, k requires 0 <= k < |channels| =>
      if k in which then Shut(channels[k], now) else channels[k])
  }

  // ----- the steps -----

  /** The message as stored: a missing id or timestamp is filled in. */
  function Stamped(m: Message, freshId: string, now: int): Message {
    var m := if m.id == "" then m.(id := freshId) else m;
    if m.time.None? then m.(time := Some(now)) else m
  }

  predicate Listed(subscribers: map<string, set<nat>>, topic: string, ch: nat) {
    ch in At(subscribers, topic)
  }

  ghost predicate HitsClosed(s: State, channels: set<nat>) {
    exists ch <- channels :: ch < |s.channels| && !s.channels[ch].open
  }

  ghost function Store(s: State, m: Message): State {
    var subscribed := At(s.subscribers, m.topic);
    s.(messages := s.messages[m.id := m],
       topics := s.topics[m.topic := At(s.topics, m.topic) + {m.id}],
       channels := SendAll(s.channels, subscribed, m, |s.published|),
       published := s.published + [m],
       panicked := s.panicked || HitsClosed(s, subscribed))
  }

  ghost function Delete(s: State, id: string): State {
    s.(messages := s.messages - {id}, acks := s.acks - {id})
  }

  ghost function Subscribe(s: State, topic: string): State {
    s.(channels := s.channels + [Fresh(topic, |s.published|)],
       subscribers := s.subscribers[topic := At(s.subscribers, topic) + {|s.channels|}])
  }

  /** The goroutine started by Subscribe, once its context is done. */
  ghost function Cleanup(s: State, ch: nat): State
    requires ch < |s.channels|
  {
    var c := s.channels[ch];
    if Listed(s.subscribers, c.topic, ch) then
      s.(subscribers := s.subscribers[c.topic := s.subscribers[c.topic] - {ch}],
         channels := s.channels[ch := Shut(c, |s.published|)],
         panicked := s.panicked || !c.open)
    else s
  }

  ghost function Acknowledge(s: State, id: string, consumer: string): State {
    if id in s.messages then s.(acks := s.acks[id := consumer]) else s
  }

  predicate ClaimedBy(s: State, id: string, consumer: string) {
    id in s.acks && s.acks[id] == consumer
  }

  predicate Deliverable(s: State, id: string, consumer: string) {
    id in s.messages && (consumer == "" || !ClaimedBy(s, id, consumer))
  }

  /** The ids a batch of at most room messages takes, walking the topic's ids in a given order. */
  function Pick(s: State, order: seq<string>, consumer: string, room: int): (ids: seq<string>)
    ensures forall i :: 0 <= i < |ids| ==> ids[i] in order && Deliverable(s, ids[i], consumer)
  {
    if order == [] || room <= 0 then []
    else if Deliverable(s, order[0], consumer) then
      [order[0]] + Pick(s, order[1..], consumer, room - 1)
    else Pick(s, order[1..], consumer, room)
  }

  function Assigned(acks: map<string, string>, ids: seq<string>, consumer: string): map<string, string> {
    if consumer == "" then acks
    else map id | id in acks.Keys + (set id <- ids) :: if id in ids then consumer else acks[id]
  }

  /** Any order in which a map iteration may visit a set. */
  ghost predicate IsOrder(order: seq<string>, ids: set<string>) {
    && (forall i, j :: 0 <= i < j < |order| ==> order[i] != order[j])
    && (forall id :: id in order <==> id in ids)
  }

  function Batch(s: State, consumer: string, batchSize: int, order: seq<string>): (batch: seq<Message>)
    ensures var ids := Pick(s, order, consumer, batchSize);
            |batch| == |ids| && forall i :: 0 <= i < |ids| ==> batch[i] == s.messages[ids[i]]
  {
    var ids := Pick(s, order, consumer, batchSize);
    seq(|ids|, i requires 0 <= i < |ids| => s.messages[ids[i]])
  }

  ghost function GetMessages(s: State, consumer: string, batchSize: int, order: seq<string>): State {
    s.(acks := Assigned(s.acks, Pick(s, order, consumer, batchSize), consumer))
  }

  function Registered(s: State): set<nat> {
    set topic <- s.subscribers, ch <- s.subscribers[topic] :: ch
  }

  ghost predicate Shared(s: State) {
    exists t, u :: t in s.subscribers && u in s.subscribers && t != u && s.subscribers[t] * s.subscribers[u] != {}
  }

  ghost function Close(s: State): State {
    INIT.(channels := ShutAll(s.channels, Registered(s), |s.published|),
          published := s.published,
          panicked := s.panicked || HitsClosed(s, Registered(s)) || Shared(s))
  }

  // ----- runs -----

  /** A call, a cleanup goroutine firing, or a consumer receiving from its channel.  The id and
      time that Store may need, and the map order GetMessages happens to see, are inputs. */
  datatype Event =
    | Stores(message: Message, freshId: string, now: int)
    | Deletes(id: string)
    | Subscribes(topic: string)
    | Cleans(channel: nat)
    | Receives(channel: nat)
    | Acknowledges(id: string, consumer: string)
    | Gets(topic: string, consumer: string, batchSize: int, order: seq<string>)
    | Adds(subscriber: Subscriber)
    | Removes(consumer: string)
    | Closes

  /** A generated id is new and not empty; a receive blocks while an open channel is empty. */
  ghost predicate Enabled(s: State, e: Event) {
    match e
    case Stores(m, freshId, _) =>
      m.id == "" ==> freshId != "" && forall t <- s.topics :: freshId !in s.topics[t]
    case Cleans(ch) => ch < |s.channels|
    case Receives(ch) => ch < |s.channels| && (s.channels[ch].buffer != [] || !s.channels[ch].open)
    case Gets(topic, _, _, order) => IsOrder(order, At(s.topics, topic))
    case _ => true
  }

  ghost function Step(s: State, e: Event): State
    requires Enabled(s, e)
  {
    match e
    case Stores(m, freshId, now) => Store(s, Stamped(m, freshId, now))
    case Deletes(id) => Delete(s, id)
    case Subscribes(topic) => Subscribe(s, topic)
    case Cleans(ch) => Cleanup(s, ch)
    case Receives(ch) =>
      if s.channels[ch].buffer == [] then s
      else s.(channels := s.channels[ch := Take(s.channels[ch])])
    case Acknowledges(id, consumer) => Acknowledge(s, id, consumer)
    case Gets(_, consumer, batchSize, order) => GetMessages(s, consumer, batchSize, order)
    case Adds(subscriber) => s.(info := s.info[subscriber.id := subscriber])
    case Removes(consumer) => s.(info := s.info - {consumer})
    case Closes => Close(s)
  }

  /** states is what a store goes through while the events happen one after the other. */
  ghost predicate Path(states: seq<State>, events: seq<Event>) {
    && |states| == |events| + 1
    && forall i :: 0 <= i < |events| ==> Enabled(states[i], events[i]) && states[i + 1] == Step(states[i], events[i])
  }

  /** The same for a new store. */
  ghost predicate Behaviour(states: seq<State>, events: seq<Event>) {
    Path(states, events) && states[0] == INIT
  }

  // ----- what a channel has been offered -----

  /** The positions lo <= i < hi of the publishes to a topic. */
  function Publishes(published: seq<Message>, topic: string, lo: nat, hi: nat): seq<nat>
    requires hi <= |published|
  {
    if hi <= lo then []
    else Publishes(published, topic, lo, hi - 1) + if published[hi - 1].topic == topic then [hi - 1] else []
  }

  predicate Increasing(a: seq<nat>) {
    forall i, j :: 0 <= i < j < |a| ==> a[i] < a[j]
  }

  lemma {:induction false} PublishesAreAll(published: seq<Message>, topic: string, lo: nat, hi: nat)
    requires hi <= |published|
    ensures Increasing(Publishes(published, topic, lo, hi))
    ensures forall i: nat :: i in Publishes(published, topic, lo, hi) <==> lo <= i < hi && published[i].topic == topic
  {
    forall i: nat
      ensures i in Publishes(published, topic, lo, hi) <==> lo <= i < hi && published[i].topic == topic
    {
      PublishListed(published, topic, lo, hi, i);
    }
    hide Publishes;
    PublishesIncrease(published, topic, lo, hi);
  }

  lemma {:induction false} PublishListed(published: seq<Message>, topic: string, lo: nat, hi: nat, i: nat)
    requires hi <= |published|
    ensures i in Publishes(published, topic, lo, hi) <==> lo <= i < hi && published[i].topic == topic
  {
    if hi <= lo {
    } else {
      PublishListed(published, topic, lo, hi - 1, i);
      var before := Publishes(published, topic, lo, hi - 1);
      var last := if published[hi - 1].topic == topic then [hi - 1] else [];
      assert i in before + last <==> i in before || i in last;
    }
  }

  lemma {:induction false} PublishesIncrease(published: seq<Message>, topic: string, lo: nat, hi: nat)
    requires hi <= |published|
    ensures Increasing(Publishes(published, topic, lo, hi))
  {
    if hi <= lo {
    } else {
      PublishesIncrease(published, topic, lo, hi - 1);
      var before := Publishes(published, topic, lo, hi - 1);
      forall i | 0 <= i < |before|
        ensures before[i] < hi - 1
      {
        PublishListed(published, topic, lo, hi - 1, before[i]);
      }
    }
  }

  function Indices(offers: seq<Offer>): (r: seq<nat>)
    ensures |r| == |offers| && forall i :: 0 <= i < |r| ==> r[i] == offers[i].index
  {
    seq(|offers|, i requires 0 <= i < |offers| => offers[i].index)
  }

  /** The positions of the offers that did, or did not, enter the buffer. */
  function Sent(offers: seq<Offer>, taken: bool): (r: seq<nat>)
    ensures |r| <= |offers|
  {
    if offers == [] then []
    else
      var last := offers[|offers| - 1];
      Sent(offers[..|offers| - 1], taken) + if last.taken == taken then [last.index] else []
  }

  predicate Within(indices: seq<nat>, bound: nat) {
    forall i :: 0 <= i < |indices| ==> indices[i] < bound
  }

  function MessagesAt(published: seq<Message>, indices: seq<nat>): (r: seq<Message>)
    requires Within(indices, |published|)
    ensures |r| == |indices| && forall i :: 0 <= i < |r| ==> r[i] == published[indices[i]]
  {
    seq(|indices|, i requires 0 <= i < |indices| => published[indices[i]])
  }

  /** Received and waiting messages, in order, are those sent. */
  ghost predicate Delivered(c: Channel, published: seq<Message>) {
    && Within(Sent(c.offers, true), |published|)
    && c.consumed + c.buffer == MessagesAt(published, Sent(c.offers, true))
  }

  function End(c: Channel, now: nat): nat {
    if c.open then now else c.died
  }

  /** The bookkeeping of one channel against the publish history. */
  ghost predicate Accounted(c: Channel, published: seq<Message>) {
    && c.born <= End(c, |published|) <= |published|
    && Indices(c.offers) == Publishes(published, c.topic, c.born, End(c, |published|))
    && Delivered(c, published)
    && |c.buffer| <= CAPACITY
    && (forall i :: 0 <= i < |c.offers| ==>
          && c.offers[i].held <= CAPACITY
          && c.offers[i].held <= i
          && (c.offers[i].taken <==> c.offers[i].held < CAPACITY))
  }

  /** Messages sit under their own id and in their topic's index, and only stored ids are tracked. */
  ghost predicate Indexed(s: State) {
    && s.acks.Keys <= s.messages.Keys
    && forall id <- s.messages :: s.messages[id].id == id && id in At(s.topics, s.messages[id].topic)
  }

  /** A channel is open exactly while it is registered, and then it was never closed. */
  ghost predicate Linked(c: Channel, ch: nat, subscribers: map<string, set<nat>>) {
    && (c.open <==> Listed(subscribers, c.topic, ch))
    && c.closes == if c.open then 0 else 1
  }

  ghost predicate Connected(s: State) {
    && (forall t: string, ch: nat :: Listed(s.subscribers, t, ch) ==> ch < |s.channels| && s.channels[ch].topic == t)
    && (forall ch :: 0 <= ch < |s.channels| ==> Linked(s.channels[ch], ch, s.subscribers))
  }

  ghost predicate AllAccounted(s: State) {
    forall ch :: 0 <= ch < |s.channels| ==> Accounted(s.channels[ch], s.published)
  }

  /** What every reachable state satisfies. */
  ghost predicate Sound(s: State) {
    !s.panicked && Indexed(s) && Connected(s) && AllAccounted(s)
  }

  // ----- every step keeps it -----

  lemma IndexedStep(s: State, e: Event)
    requires Indexed(s) && Enabled(s, e)
    ensures Indexed(Step(s, e))
  {
  }

  lemma StoreKeepsConnected(s: State, m: Message)
    requires Connected(s)
    ensures Connected(Store(s, m)) && Store(s, m).panicked == s.panicked
  {
    var d := Store(s, m);
    forall ch | 0 <= ch < |d.channels|
      ensures Linked(d.channels[ch], ch, d.subscribers) && d.channels[ch].topic == s.channels[ch].topic
    {
      assert Linked(s.channels[ch], ch, s.subscribers);
    }
    forall ch: nat | Listed(s.subscribers, m.topic, ch)
      ensures s.channels[ch].open
    {
      assert Linked(s.channels[ch], ch, s.subscribers);
    }
  }

  lemma SubscribeKeepsConnected(s: State, topic: string)
    requires Connected(s)
    ensures Connected(Subscribe(s, topic))
  {
    var d, n := Subscribe(s, topic), |s.channels|;
    forall ch | 0 <= ch < |d.channels|
      ensures Linked(d.channels[ch], ch, d.subscribers)
    {
      if ch < n { assert Linked(s.channels[ch], ch, s.subscribers); }
    }
    forall t: string, ch: nat | Listed(d.subscribers, t, ch)
      ensures ch < |d.channels| && d.channels[ch].topic == t
    {
      if t != topic || ch != n { assert Listed(s.subscribers, t, ch); }
    }
  }

  lemma CleanupKeepsConnected(s: State, ch: nat)
    requires Connected(s) && ch < |s.channels|
    ensures Connected(Cleanup(s, ch)) && Cleanup(s, ch).panicked == s.panicked
  {
    var d := Cleanup(s, ch);
    assert Linked(s.channels[ch], ch, s.subscribers);
    forall k | 0 <= k < |d.channels|
      ensures Linked(d.channels[k], k, d.subscribers)
    {
      assert Linked(s.channels[k], k, s.subscribers);
    }
    forall t: string, k: nat | Listed(d.subscribers, t, k)
      ensures k < |d.channels| && d.channels[k].topic == t
    {
      assert Listed(s.subscribers, t, k);
    }
  }

  lemma ReceiveKeepsConnected(s: State, ch: nat)
    requires Connected(s) && ch < |s.channels| && s.channels[ch].buffer != []
    ensures Connected(s.(channels := s.channels[ch := Take(s.channels[ch])]))
  {
    var d := s.(channels := s.channels[ch := Take(s.channels[ch])]);
    forall k | 0 <= k < |d.channels|
      ensures Linked(d.channels[k], k, d.subscribers)
    {
      assert Linked(s.channels[k], k, s.subscribers);
    }
  }

  lemma RegisteredIffListed(s: State, ch: nat)
    ensures ch in Registered(s) <==> exists t :: Listed(s.subscribers, t, ch)
  {
    if t :| Listed(s.subscribers, t, ch) {
      assert t in s.subscribers && ch in s.subscribers[t];
    }
    if ch in Registered(s) {
      var t :| t in s.subscribers && ch in s.subscribers[t];
      assert Listed(s.subscribers, t, ch);
    }
  }

  lemma CloseKeepsConnected(s: State)
    requires Connected(s)
    ensures Connected(Close(s)) && Close(s).panicked == s.panicked
  {
    var d := Close(s);
    forall ch | 0 <= ch < |d.channels|
      ensures Linked(d.channels[ch], ch, d.subscribers)
    {
      assert Linked(s.channels[ch], ch, s.subscribers);
      RegisteredIffListed(s, ch);
    }
    forall ch: nat | ch in Registered(s)
      ensures ch < |s.channels| && s.channels[ch].open
    {
      RegisteredIffListed(s, ch);
      var t :| Listed(s.subscribers, t, ch);
      assert Linked(s.channels[ch], ch, s.subscribers);
    }
    if Shared(s) {
      var t, u :| t in s.subscribers && u in s.subscribers && t != u && s.subscribers[t] * s.subscribers[u] != {};
      var ch :| ch in s.subscribers[t] * s.subscribers[u];
      assert Listed(s.subscribers, t, ch) && Listed(s.subscribers, u, ch);
      assert false;
    }
  }

  lemma ConnectedStep(s: State, e: Event)
    requires Connected(s) && Enabled(s, e)
    ensures Connected(Step(s, e)) && Step(s, e).panicked == s.panicked
  {
    match e
    case Stores(m, freshId, now) => StoreKeepsConnected(s, Stamped(m, freshId, now));
    case Subscribes(topic) => SubscribeKeepsConnected(s, topic);
    case Cleans(ch) => CleanupKeepsConnected(s, ch);
    case Receives(ch) => if s.channels[ch].buffer != [] { ReceiveKeepsConnected(s, ch); }
    case Closes => CloseKeepsConnected(s);
    case _ =>
  }

  /** Later publishes do not change the positions below them. */
  lemma {:induction false} PublishesPrefix(published: seq<Message>, more: seq<Message>, topic: string, lo: nat, hi: nat)
    requires hi <= |published|
    ensures Publishes(published + more, topic, lo, hi) == Publishes(published, topic, lo, hi)
  {
    if hi <= lo {
    } else {
      PublishesPrefix(published, more, topic, lo, hi - 1);
    }
  }

  lemma {:induction false} SentSnoc(offers: seq<Offer>, o: Offer, taken: bool)
    ensures Sent(offers + [o], taken) == Sent(offers, taken) + if o.taken == taken then [o.index] else []
  {
    assert (offers + [o])[..|offers|] == offers;
  }

  lemma DeliveredPrefix(c: Channel, published: seq<Message>, m: Message)
    requires Delivered(c, published)
    ensures Delivered(c, published + [m])
  {
    assert MessagesAt(published + [m], Sent(c.offers, true)) == MessagesAt(published, Sent(c.offers, true));
  }

  lemma DeliveredSend(c: Channel, published: seq<Message>, m: Message)
    requires Delivered(c, published)
    ensures Delivered(Send(c, m, |published|), published + [m])
  {
    hide Sent, Indices;
    var n, d := |published|, Send(c, m, |published|);
    DeliveredPrefix(c, published, m);
    SentSnoc(c.offers, d.offers[|c.offers|], true);
    if |c.buffer| < CAPACITY {
      assert MessagesAt(published + [m], Sent(c.offers, true) + [n])
          == MessagesAt(published + [m], Sent(c.offers, true)) + [m];
      Assoc(c.consumed, c.buffer, [m]);
    }
  }

  /** An offer waits behind the messages sent before it. */
  lemma AccountedSend(c: Channel, published: seq<Message>, m: Message)
    requires c.open && Accounted(c, published) && m.topic == c.topic
    ensures Accounted(Send(c, m, |published|), published + [m])
  {
    hide Sent, Delivered;
    var n, d := |published|, Send(c, m, |published|);
    PublishesPrefix(published, [m], c.topic, c.born, n);
    SentBehind(c, published);
    assert Indices(d.offers) == Indices(c.offers) + [n];
    DeliveredSend(c, published, m);
  }

  lemma SentBehind(c: Channel, published: seq<Message>)
    requires Delivered(c, published)
    ensures |c.buffer| <= |Sent(c.offers, true)| <= |c.offers|
  {
    assert |c.consumed + c.buffer| == |Sent(c.offers, true)|;
  }

  lemma AccountedOther(c: Channel, published: seq<Message>, m: Message)
    requires Accounted(c, published) && (c.open ==> m.topic != c.topic)
    ensures Accounted(c, published + [m])
  {
    PublishesPrefix(published, [m], c.topic, c.born, End(c, |published|));
    DeliveredPrefix(c, published, m);
  }

  lemma AccountedTake(c: Channel, published: seq<Message>)
    requires Accounted(c, published) && c.buffer != []
    ensures Accounted(Take(c), published)
  {
    assert Take(c).consumed + Take(c).buffer == c.consumed + c.buffer;
  }

  lemma AccountedShut(c: Channel, published: seq<Message>)
    requires Accounted(c, published) && c.open
    ensures Accounted(Shut(c, |published|), published)
  {
  }

  /** How an event acts on a channel that exists already. */
  function Next(s: State, e: Event, ch: nat): Channel
    requires ch < |s.channels|
  {
    var c, now := s.channels[ch], |s.published|;
    match e
    case Stores(m, freshId, time) =>
      var m := Stamped(m, freshId, time);
      if c.open && m.topic == c.topic then Send(c, m, now) else c
    case Cleans(k) => if k == ch && c.open then Shut(c, now) else c
    case Receives(k) => if k == ch && c.buffer != [] then Take(c) else c
    case Closes => if c.open then Shut(c, now) else c
    case _ => c
  }

  lemma ListedIffOpen(s: State, t: string, ch: nat)
    requires Connected(s) && ch < |s.channels|
    ensures Listed(s.subscribers, t, ch) <==> s.channels[ch].open && s.channels[ch].topic == t
    ensures ch in Registered(s) <==> s.channels[ch].open
  {
    assert Linked(s.channels[ch], ch, s.subscribers);
    RegisteredIffListed(s, ch);
  }

  lemma StoreReaches(s: State, m: Message, ch: nat)
    requires Connected(s) && ch < |s.channels|
    ensures var c := s.channels[ch];
            Store(s, m).channels[ch] == if c.open && c.topic == m.topic then Send(c, m, |s.published|) else c
  {
    ListedIffOpen(s, m.topic, ch);
  }

  lemma CloseReaches(s: State, ch: nat)
    requires Connected(s) && ch < |s.channels|
    ensures var c := s.channels[ch];
            Close(s).channels[ch] == if c.open then Shut(c, |s.published|) else c
  {
    ListedIffOpen(s, s.channels[ch].topic, ch);
  }

  lemma HistoryStep(s: State, e: Event)
    requires Enabled(s, e)
    ensures |Step(s, e).channels| == |s.channels| + if e.Subscribes? then 1 else 0
    ensures Step(s, e).published == s.published + News(e)
  {
  }

  lemma ChannelStep(s: State, e: Event, ch: nat)
    requires Connected(s) && Enabled(s, e) && ch < |s.channels|
    ensures ch < |Step(s, e).channels| && Step(s, e).channels[ch] == Next(s, e, ch)
  {
    hide Store, Close, Cleanup, Send, Shut, Take, Connected;
    HistoryStep(s, e);
    if e.Stores? {
      StoreReaches(s, Stamped(e.message, e.freshId, e.now), ch);
    } else if e.Cleans? {
      CleanupReaches(s, e.channel, ch);
    } else if e.Closes? {
      CloseReaches(s, ch);
    }
  }

  lemma CleanupReaches(s: State, k: nat, ch: nat)
    requires Connected(s) && k < |s.channels| && ch < |s.channels|
    ensures |Cleanup(s, k).channels| == |s.channels|
    ensures var c := s.channels[ch];
            Cleanup(s, k).channels[ch] == if k == ch && c.open then Shut(c, |s.published|) else c
  {
    ListedIffOpen(s, s.channels[k].topic, k);
    hide Shut;
  }

  lemma AccountedStep(s: State, e: Event)
    requires Connected(s) && AllAccounted(s) && Enabled(s, e)
    ensures AllAccounted(Step(s, e))
  {
    var d := Step(s, e);
    HistoryStep(s, e);
    forall ch | 0 <= ch < |d.channels|
      ensures Accounted(d.channels[ch], d.published)
    {
      if ch < |s.channels| {
        ChannelStep(s, e, ch);
        AccountedNext(s, e, ch);
      }
    }
  }

  /** The messages an event publishes. */
  function News(e: Event): seq<Message> {
    if e.Stores? then [Stamped(e.message, e.freshId, e.now)] else []
  }

  lemma AccountedNext(s: State, e: Event, ch: nat)
    requires ch < |s.channels| && Accounted(s.channels[ch], s.published)
    ensures Accounted(Next(s, e, ch), s.published + News(e))
  {
    hide Accounted, Send, Take, Shut;
    var c := s.channels[ch];
    assert s.published + [] == s.published;
    if e.Stores? {
      var m := Stamped(e.message, e.freshId, e.now);
      if c.open && m.topic == c.topic { AccountedSend(c, s.published, m); }
      else { AccountedOther(c, s.published, m); }
    } else if e.Receives? {
      if c.buffer != [] { AccountedTake(c, s.published); }
    } else if c.open {
      AccountedShut(c, s.published);
    }
  }

  lemma SoundStep(s: State, e: Event)
    requires Sound(s) && Enabled(s, e)
    ensures Sound(Step(s, e))
  {
    IndexedStep(s, e);
    ConnectedStep(s, e);
    AccountedStep(s, e);
  }

  lemma PathStep(states: seq<State>, events: seq<Event>, i: nat)
    requires Path(states, events) && i < |events|
    ensures |states| == |events| + 1
    ensures Enabled(states[i], events[i]) && states[i + 1] == Step(states[i], events[i])
  {
  }

  lemma {:induction false} PathSound(states: seq<State>, events: seq<Event>, i: nat)
    requires Path(states, events) && Sound(states[0]) && i < |states|
    ensures Sound(states[i])
  {
    hide Path, Sound, Step, Enabled;
    if i == 0 {
    } else {
      PathLength(states, events);
      PathSound(states, events, i - 1);
      PathStep(states, events, i - 1);
      SoundStep(states[i - 1], events[i - 1]);
    }
  }

  lemma PathLength(states: seq<State>, events: seq<Event>)
    requires Path(states, events)
    ensures |states| == |events| + 1
  {
  }

  /** Over every interleaving of calls, receives and cleanups: no send reaches a closed channel,
      none is closed twice, and all bookkeeping holds. */
  lemma AlwaysSound(states: seq<State>, events: seq<Event>, i: nat)
    requires Behaviour(states, events) && i < |states|
    ensures Sound(states[i])
  {
    PathSound(states, events, i);
  }

  /** The publish history only grows. */
  lemma {:induction false} HistoryLater(states: seq<State>, events: seq<Event>, i: nat, j: nat)
    requires Path(states, events) && i <= j < |states|
    ensures states[i].published <= states[j].published
  {
    hide Path, Step, Enabled;
    if i == j {
    } else {
      PathLength(states, events);
      HistoryLater(states, events, i, j - 1);
      PathStep(states, events, j - 1);
      HistoryStep(states[j - 1], events[j - 1]);
    }
  }

  // ----- registration over whole runs -----

  lemma RegisteredOnce(s: State, ch: nat)
    requires Sound(s) && ch in Registered(s)
    ensures ch < |s.channels| && s.channels[ch].open && s.channels[ch].closes == 0
    ensures exists t :: Listed(s.subscribers, t, ch) && forall u :: Listed(s.subscribers, u, ch) ==> u == t
  {
    RegisteredIffListed(s, ch);
    var t :| Listed(s.subscribers, t, ch);
    assert Linked(s.channels[ch], ch, s.subscribers);
  }

  /** Only its own cleanup or a Close of the store closes a channel. */
  lemma ClosedOnlyBy(s: State, e: Event, ch: nat)
    requires Sound(s) && Enabled(s, e) && ch < |s.channels| && s.channels[ch].open
    ensures ch < |Step(s, e).channels|
    ensures !Step(s, e).channels[ch].open <==> e == Cleans(ch) || e == Closes
  {
    ChannelStep(s, e, ch);
  }

  /** What a later state of a run remembers of a channel. */
  predicate Extends(c: Channel, d: Channel) {
    && d.topic == c.topic && d.born == c.born
    && c.offers <= d.offers && c.consumed <= d.consumed
    && (!c.open ==> !d.open && d.closes == c.closes && d.died == c.died && d.offers == c.offers)
  }

  lemma ExtendsNext(c: Channel, s: State, e: Event, ch: nat)
    requires Connected(s) && ch < |s.channels| && Extends(c, s.channels[ch])
    ensures Extends(c, Next(s, e, ch))
  {
    assert Linked(s.channels[ch], ch, s.subscribers);
  }

  lemma ExtendsStep(c: Channel, s: State, e: Event, ch: nat)
    requires Sound(s) && Enabled(s, e) && ch < |s.channels| && Extends(c, s.channels[ch])
    ensures ch < |Step(s, e).channels| && Extends(c, Step(s, e).channels[ch])
  {
    hide Extends, Next, Step, Enabled;
    ChannelStep(s, e, ch);
    ExtendsNext(c, s, e, ch);
  }

  lemma ExtendsItself(c: Channel)
    ensures Extends(c, c)
  {
  }

  lemma {:induction false} ChannelLater(states: seq<State>, events: seq<Event>, i: nat, j: nat, ch: nat)
    requires Path(states, events) && Sound(states[0]) && i <= j < |states| && ch < |states[i].channels|
    ensures ch < |states[j].channels| && Extends(states[i].channels[ch], states[j].channels[ch])
  {
    hide Path, Extends, Step, Sound, Enabled;
    ExtendsItself(states[i].channels[ch]);
    if i == j {
    } else {
      PathLength(states, events);
      ChannelLater(states, events, i, j - 1, ch);
      PathSound(states, events, j - 1);
      PathStep(states, events, j - 1);
      ExtendsStep(states[i].channels[ch], states[j - 1], events[j - 1], ch);
    }
  }

  /** A cleanup that finds its channel closed changes nothing; one that finds it open closes and
      unregisters that channel and touches no other. */
  lemma CleanupIsLocal(s: State, ch: nat)
    requires Sound(s) && ch < |s.channels|
    ensures !s.channels[ch].open ==> Cleanup(s, ch) == s
    ensures s.channels[ch].open ==>
              var d := Cleanup(s, ch);
              && !d.channels[ch].open && Registered(d) == Registered(s) - {ch}
              && (forall k :: 0 <= k < |s.channels| && k != ch ==> d.channels[k] == s.channels[k])
              && d == s.(subscribers := d.subscribers, channels := d.channels)
  {
    ListedIffOpen(s, s.channels[ch].topic, ch);
    var d := Cleanup(s, ch);
    if s.channels[ch].open {
      forall k: nat
        ensures k in Registered(d) <==> k in Registered(s) && k != ch
      {
        CleanupKeepsConnected(s, ch);
        RegisteredIffListed(s, k);
        RegisteredIffListed(d, k);
        if k < |s.channels| {
          ListedIffOpen(s, s.channels[k].topic, k);
          ListedIffOpen(d, s.channels[k].topic, k);
        }
      }
      assert Registered(d) == Registered(s) - {ch};
    }
  }

  /** A cleanup that fires after a Close of the store, whatever was subscribed in between, is a
      step that changes nothing. */
  lemma CleanupAfterClose(states: seq<State>, events: seq<Event>, i: nat, j: nat, ch: nat)
    requires Behaviour(states, events) && i < j < |events|
    requires events[i] == Closes && ch < |states[i].channels| && events[j] == Cleans(ch)
    ensures states[j + 1] == states[j]
  {
    hide Path, Sound, Enabled, Close, Cleanup;
    PathLength(states, events);
    AlwaysSound(states, events, 0);
    AlwaysSound(states, events, i);
    PathStep(states, events, i);
    ClosedByClose(states[i], ch);
    ChannelLater(states, events, i + 1, j, ch);
    AlwaysSound(states, events, j);
    PathStep(states, events, j);
    CleanupIsLocal(states[j], ch);
  }

  lemma ClosedByClose(s: State, ch: nat)
    requires Sound(s) && ch < |s.channels|
    ensures ch < |Close(s).channels| && !Close(s).channels[ch].open
  {
    CloseReaches(s, ch);
  }

  // ----- conservation: published = received + waiting + dropped -----

  lemma {:induction false} SentCounts(offers: seq<Offer>)
    ensures |Sent(offers, true)| + |Sent(offers, false)| == |offers|
  {
    if offers == [] {
    } else {
      SentCounts(offers[..|offers| - 1]);
    }
  }

  lemma {:induction false} SentOrdered(offers: seq<Offer>, taken: bool)
    requires Increasing(Indices(offers))
    ensures Increasing(Sent(offers, taken))
    ensures forall i :: 0 <= i < |Sent(offers, taken)| ==> Sent(offers, taken)[i] in Indices(offers)
  {
    if offers == [] {
    } else {
      var n := |offers| - 1;
      var before, a := offers[..n], Sent(offers[..n], taken);
      assert Indices(offers) == Indices(before) + [offers[n].index];
      assert Increasing(Indices(before));
      SentOrdered(before, taken);
      forall i | 0 <= i < |a|
        ensures a[i] in Indices(offers) && a[i] < offers[n].index
      {
        var k :| 0 <= k < n && Indices(before)[k] == a[i];
        assert Indices(offers)[k] < Indices(offers)[n];
      }
    }
  }

  /** An offered publish counts as sent or as dropped according to its own offer. */
  lemma {:induction false} SentDecides(offers: seq<Offer>, taken: bool, k: nat)
    requires Increasing(Indices(offers)) && k < |offers|
    ensures offers[k].index in Sent(offers, taken) <==> offers[k].taken == taken
  {
    var n := |offers| - 1;
    var before, a := offers[..n], Sent(offers[..n], taken);
    assert Indices(offers) == Indices(before) + [offers[n].index];
    assert Increasing(Indices(before));
    var tail := if offers[n].taken == taken then [offers[n].index] else [];
    assert Sent(offers, taken) == a + tail;
    assert offers[k].index in a + tail <==> offers[k].index in a || offers[k].index in tail;
    assert Indices(offers)[k] < Indices(offers)[n] || k == n;
    if k < n {
      SentDecides(before, taken, k);
    } else {
      SentOrdered(before, taken);
      forall i | 0 <= i < |a|
        ensures a[i] < offers[n].index
      {
        var j :| 0 <= j < n && Indices(before)[j] == a[i];
        assert Indices(offers)[j] < Indices(offers)[n];
      }
    }
  }

  /** a is b with some elements left out. */
  ghost predicate Subsequence<T(!new)>(a: seq<T>, b: seq<T>) {
    exists f: seq<nat> :: Embeds(f, a, b)
  }

  ghost predicate Embeds<T(!new)>(f: seq<nat>, a: seq<T>, b: seq<T>) {
    |f| == |a| && Increasing(f) && forall i :: 0 <= i < |a| ==> f[i] < |b| && a[i] == b[f[i]]
  }

  lemma {:induction false} SentEmbeds(offers: seq<Offer>) returns (f: seq<nat>)
    ensures Embeds(f, Sent(offers, true), Indices(offers))
  {
    f := [];
    if offers == [] {
    } else {
      var n := |offers| - 1;
      f := SentEmbeds(offers[..n]);
      assert Indices(offers) == Indices(offers[..n]) + [offers[n].index];
      if offers[n].taken { f := f + [n]; }
    }
  }

  /** The positions of the topic's publishes while the channel was open. */
  function Due(c: Channel, published: seq<Message>): seq<nat>
    requires End(c, |published|) <= |published|
  {
    Publishes(published, c.topic, c.born, End(c, |published|))
  }

  /** What the subscriber received, followed by what waits for it, is the topic's publishes since
      the subscription in order, with the dropped ones left out. */
  ghost predicate Conserved(c: Channel, published: seq<Message>) {
    && c.born <= End(c, |published|) <= |published|
    && Within(Due(c, published), |published|)
    && Subsequence(c.consumed + c.buffer, MessagesAt(published, Due(c, published)))
    && |Due(c, published)| == |c.consumed| + |c.buffer| + |Sent(c.offers, false)|
    && |c.buffer| <= 100
    && (forall i :: 0 <= i < |Due(c, published)| && i < 100 ==> Due(c, published)[i] !in Sent(c.offers, false))
    && (|Due(c, published)| <= 100 ==> Sent(c.offers, false) == [])
    && (Sent(c.offers, false) == [] ==> c.consumed + c.buffer == MessagesAt(published, Due(c, published)))
  }

  lemma Conservation(states: seq<State>, events: seq<Event>, i: nat, ch: nat)
    requires Behaviour(states, events) && i < |states| && ch < |states[i].channels|
    ensures Conserved(states[i].channels[ch], states[i].published)
  {
    AlwaysSound(states, events, i);
    AccountedConserves(states[i].channels[ch], states[i].published);
  }

  lemma AccountedConserves(c: Channel, published: seq<Message>)
    requires Accounted(c, published)
    ensures Conserved(c, published)
  {
    hide Publishes, Sent, Subsequence, Within;
    DueWithin(c, published);
    SentCounts(c.offers);
    SentInOrder(c, published);
    FirstAreSent(c, published);
    if |c.offers| <= CAPACITY { NothingDropped(c.offers); }
    assert |c.consumed + c.buffer| == |Sent(c.offers, true)|;
  }

  /** A publish that finds fewer than 100 before it finds room in the buffer. */
  lemma FirstAreSent(c: Channel, published: seq<Message>)
    requires Accounted(c, published)
    ensures var due := Due(c, published);
            forall i :: 0 <= i < |due| && i < CAPACITY ==> due[i] !in Sent(c.offers, false)
  {
    PublishesAreAll(published, c.topic, c.born, End(c, |published|));
    hide Publishes, Sent;
    forall i | 0 <= i < |Due(c, published)| && i < CAPACITY
      ensures Due(c, published)[i] !in Sent(c.offers, false)
    {
      SentDecides(c.offers, false, i);
    }
  }

  /** Each publish due is either among the sent or among the dropped. */
  lemma SentOrDropped(states: seq<State>, events: seq<Event>, i: nat, ch: nat, k: nat)
    requires Behaviour(states, events) && i < |states| && ch < |states[i].channels|
    ensures var published, c := states[i].published, states[i].channels[ch];
            && End(c, |published|) <= |published|
            && (k in Due(c, published) ==> (k in Sent(c.offers, true) <==> k !in Sent(c.offers, false)))
  {
    AlwaysSound(states, events, i);
    var published, c := states[i].published, states[i].channels[ch];
    if k in Due(c, published) {
      PublishesAreAll(published, c.topic, c.born, End(c, |published|));
      var j :| 0 <= j < |c.offers| && Indices(c.offers)[j] == k;
      SentDecides(c.offers, true, j);
      SentDecides(c.offers, false, j);
    }
  }

  lemma DueWithin(c: Channel, published: seq<Message>)
    requires End(c, |published|) <= |published|
    ensures Within(Due(c, published), |published|)
  {
    var due := Due(c, published);
    PublishesAreAll(published, c.topic, c.born, End(c, |published|));
    assert forall k :: 0 <= k < |due| ==> due[k] in due;
  }

  lemma SentInOrder(c: Channel, published: seq<Message>)
    requires Accounted(c, published) && Within(Due(c, published), |published|)
    ensures Subsequence(c.consumed + c.buffer, MessagesAt(published, Due(c, published)))
    ensures Sent(c.offers, false) == [] ==> c.consumed + c.buffer == MessagesAt(published, Due(c, published))
  {
    var due, sent := Due(c, published), Sent(c.offers, true);
    var f := SentEmbeds(c.offers);
    assert Embeds(f, MessagesAt(published, sent), MessagesAt(published, due));
    if Sent(c.offers, false) == [] {
      SentCounts(c.offers);
      AllSent(f, MessagesAt(published, sent), MessagesAt(published, due));
    }
  }

  lemma {:induction false} NothingDropped(offers: seq<Offer>)
    requires forall i :: 0 <= i < |offers| ==> offers[i].held <= i && (offers[i].taken <==> offers[i].held < CAPACITY)
    requires |offers| <= CAPACITY
    ensures Sent(offers, false) == []
  {
    if offers == [] {
    } else {
      NothingDropped(offers[..|offers| - 1]);
    }
  }

  lemma AllSent<T(!new)>(f: seq<nat>, a: seq<T>, b: seq<T>)
    requires Embeds(f, a, b) && |a| == |b|
    ensures a == b
  {
    assert Within(f, |b|);
    forall i | 0 <= i < |f|
      ensures f[i] == i
    {
      IncreasingAtLeast(f, i);
      IncreasingAtMost(f, i, |b|);
    }
  }

  lemma {:induction false} IncreasingAtLeast(f: seq<nat>, i: nat)
    requires Increasing(f) && i < |f|
    ensures i <= f[i]
  {
    if i == 0 {
    } else {
      IncreasingAtLeast(f, i - 1);
    }
  }

  lemma {:induction false} IncreasingAtMost(f: seq<nat>, i: nat, bound: nat)
    requires Increasing(f) && i < |f| && Within(f, bound)
    ensures f[i] <= bound - (|f| - i)
    decreases |f| - i
  {
    if i + 1 == |f| {
    } else {
      IncreasingAtMost(f, i + 1, bound);
    }
  }

  /** A publish is lost to an open channel of its topic exactly if the channel's buffer holds 100
      messages at that moment, and stays lost or sent from then on. */
  lemma LostIffFull(states: seq<State>, events: seq<Event>, i: nat, j: nat, ch: nat)
    requires Behaviour(states, events) && i < j < |states| && events[i].Stores?
    requires ch < |states[i].channels| && states[i].channels[ch].open
    requires states[i].channels[ch].topic == events[i].message.topic
    ensures ch < |states[j].channels|
    ensures var n, c := |states[i].published|, states[j].channels[ch];
      && (n in Sent(c.offers, false) <==> |states[i].channels[ch].buffer| == 100)
      && (n in Sent(c.offers, true) <==> |states[i].channels[ch].buffer| < 100)
  {
    hide Path, Sound, Step, Enabled, Accounted, Sent, Send;
    PathLength(states, events);
    AlwaysSound(states, events, 0);
    AlwaysSound(states, events, i);
    AlwaysSound(states, events, j);
    PathStep(states, events, i);
    OfferedNow(states[i], events[i], ch);
    ChannelLater(states, events, i + 1, j, ch);
    SoundAccounts(states[j], ch);
    OfferDecides(states[j].channels[ch], states[j].published, |states[i].channels[ch].offers|);
    SoundAccounts(states[i], ch);
    AtMostFull(states[i].channels[ch], states[i].published);
  }

  lemma SoundAccounts(s: State, ch: nat)
    requires Sound(s) && ch < |s.channels|
    ensures Accounted(s.channels[ch], s.published)
  {
  }

  lemma AtMostFull(c: Channel, published: seq<Message>)
    requires Accounted(c, published)
    ensures |c.buffer| <= CAPACITY
  {
  }

  lemma OfferedNow(s: State, e: Event, ch: nat)
    requires Sound(s) && Enabled(s, e) && e.Stores? && ch < |s.channels|
    requires s.channels[ch].open && s.channels[ch].topic == e.message.topic
    ensures ch < |Step(s, e).channels|
    ensures var c, held := s.channels[ch], |s.channels[ch].buffer|;
            Step(s, e).channels[ch].offers == c.offers + [Offer(|s.published|, held < CAPACITY, held)]
  {
    ChannelStep(s, e, ch);
    hide Step, Sound, Enabled;
  }

  lemma OfferDecides(c: Channel, published: seq<Message>, k: nat)
    requires Accounted(c, published) && k < |c.offers|
    ensures c.offers[k].index in Sent(c.offers, true) <==> c.offers[k].taken
    ensures c.offers[k].index in Sent(c.offers, false) <==> !c.offers[k].taken
  {
    hide Sent;
    PublishesAreAll(published, c.topic, c.born, End(c, |published|));
    SentDecides(c.offers, true, k);
    SentDecides(c.offers, false, k);
  }
}
