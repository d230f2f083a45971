/** What the calls of the message store do to its fields, and what a subscription gets over a run. */
module StoreCalls {
  import opened Wrappers
  import opened MessageStore

  // ----- one call -----

  predicate Registers(subscribers: map<string, set<nat>>, topic: string, ch: nat) {
    topic in subscribers && ch in subscribers[topic]
  }

  predicate Lists(topics: map<string, set<string>>, topic: string, id: string) {
    topic in topics && id in topics[topic]
  }

  /** A message with what it lacked filled in. */
  predicate Completes(msg: Message, m: Message, freshId: string, now: int) {
    && msg.topic == m.topic && msg.payload == m.payload
    && msg.id == (if m.id == "" then freshId else m.id)
    && msg.time == (if m.time.None? then Some(now) else m.time)
  }

  /** Where msg was offered, it entered the buffer if fewer than 100 waited, and else was dropped. */
  predicate Reached(c: Channel, d: Channel, msg: Message, offered: bool) {
    && d == c.(buffer := d.buffer, offers := d.offers)
    && d.buffer == (if offered && |c.buffer| < 100 then c.buffer + [msg] else c.buffer)
    && |d.offers| == |c.offers| + (if offered then 1 else 0)
  }

  ghost predicate Stored(s: State, d: State, m: Message, freshId: string, now: int) {
    exists msg ::
      && Completes(msg, m, freshId, now)
      && d.messages == s.messages[msg.id := msg]
      && d.published == s.published + [msg]
      && (forall t: string, id: string ::
            Lists(d.topics, t, id) <==> Lists(s.topics, t, id) || (t == msg.topic && id == msg.id))
      && d == s.(messages := d.messages, topics := d.topics, channels := d.channels, published := d.published)
      && |d.channels| == |s.channels|
      && forall ch: nat :: ch < |s.channels| ==>
           Reached(s.channels[ch], d.channels[ch], msg, Registers(s.subscribers, msg.topic, ch))
  }

  /** The store gained an open, empty channel, registered under the topic. */
  ghost predicate Subscribed(s: State, d: State, topic: string) {
    var now := |s.published|;
    && d.channels == s.channels + [Channel(topic, true, [], 0, now, now, [], [])]
    && (forall t: string, ch: nat ::
          Registers(d.subscribers, t, ch) <==> Registers(s.subscribers, t, ch) || (t == topic && ch == |s.channels|))
    && d == s.(channels := d.channels, subscribers := d.subscribers)
  }

  /** The channel is closed and registered nowhere, and nothing else changed. */
  ghost predicate Cleaned(s: State, d: State, ch: nat) {
    && |d.channels| == |s.channels| && ch < |d.channels|
    && var c := s.channels[ch];
       && d.channels == s.channels[ch := if c.open then c.(open := false, closes := 1, died := |s.published|) else c]
       && (forall t: string, k: nat :: Registers(d.subscribers, t, k) <==> Registers(s.subscribers, t, k) && k != ch)
       && d == s.(channels := d.channels, subscribers := d.subscribers)
  }

  ghost predicate Received(s: State, d: State, ch: nat) {
    && ch < |s.channels|
    && var c := s.channels[ch];
       d == if c.buffer == [] then s
            else s.(channels := s.channels[ch := c.(buffer := c.buffer[1..], consumed := c.consumed + [c.buffer[0]])])
  }

  /** The consumer has a claim on each message handed out, unless it has no name. */
  ghost predicate HandedOut(s: State, d: State, consumer: string, batch: set<string>) {
    && d == s.(acks := d.acks)
    && (forall id: string :: id in d.acks <==> id in s.acks || (consumer != "" && id in batch))
    && forall id <- d.acks :: d.acks[id] == if consumer != "" && id in batch then consumer else s.acks[id]
  }

  /** The maps are empty and every channel is closed; the history stays. */
  ghost predicate Closed(s: State, d: State) {
    && d.messages == map[] && d.topics == map[] && d.acks == map[] && d.subscribers == map[] && d.info == map[]
    && d.published == s.published && d.panicked == s.panicked
    && |d.channels| == |s.channels|
    && forall ch :: 0 <= ch < |s.channels| ==>
         var c := s.channels[ch];
         d.channels[ch] == if c.open then c.(open := false, closes := 1, died := |s.published|) else c
  }

  /** What an event does, as a relation between the fields before and after it. */
  ghost predicate Does(s: State, e: Event, d: State) {
    match e
    case Stores(m, freshId, now) => Stored(s, d, m, freshId, now)
    case Deletes(id) => d == s.(messages := s.messages - {id}, acks := s.acks - {id})
    case Subscribes(topic) => Subscribed(s, d, topic)
    case Cleans(ch) => Cleaned(s, d, ch)
    case Receives(ch) => Received(s, d, ch)
    case Acknowledges(id, consumer) => d == if id in s.messages then s.(acks := s.acks[id := consumer]) else s
    case Gets(_, consumer, batchSize, order) =>
      HandedOut(s, d, consumer, set id <- Pick(s, order, consumer, batchSize))
    case Adds(subscriber) => d == s.(info := s.info[subscriber.id := subscriber])
    case Removes(consumer) => d == s.(info := s.info - {consumer})
    case Closes => Closed(s, d)
  }

  lemma StepDoes(s: State, e: Event)
    requires Sound(s) && Enabled(s, e)
    ensures Does(s, e, Step(s, e))
  {
    match e
    case Stores(m, freshId, now) => StoreDoes(s, m, freshId, now);
    case Subscribes(topic) => SubscribeDoes(s, topic);
    case Cleans(ch) => CleanDoes(s, ch);
    case Closes => CloseDoes(s);
    case _ =>
  }

  lemma StoreDoes(s: State, m: Message, freshId: string, now: int)
    requires Sound(s)
    ensures Stored(s, Store(s, Stamped(m, freshId, now)), m, freshId, now)
  {
    var msg := Stamped(m, freshId, now);
    var d := Store(s, msg);
    assert Completes(msg, m, freshId, now);
    hide Completes, Stamped, Reached, Sound;
    SoundConnected(s);
    StoreFields(s, msg);
    forall ch: nat | ch < |s.channels|
      ensures Reached(s.channels[ch], d.channels[ch], msg, Registers(s.subscribers, msg.topic, ch))
    {
      StoreReached(s, msg, ch);
    }
  }

  lemma SoundConnected(s: State)
    requires Sound(s)
    ensures Connected(s)
  {
  }

  lemma StoreFields(s: State, msg: Message)
    requires Connected(s)
    ensures var d := Store(s, msg);
            && d.messages == s.messages[msg.id := msg] && d.published == s.published + [msg]
            && (forall t: string, id: string ::
                  Lists(d.topics, t, id) <==> Lists(s.topics, t, id) || (t == msg.topic && id == msg.id))
            && d == s.(messages := d.messages, topics := d.topics, channels := d.channels, published := d.published)
            && |d.channels| == |s.channels|
  {
    StoreKeepsConnected(s, msg);
  }

  lemma StoreReached(s: State, msg: Message, ch: nat)
    requires Connected(s) && ch < |s.channels|
    ensures Reached(s.channels[ch], Store(s, msg).channels[ch], msg, Registers(s.subscribers, msg.topic, ch))
  {
    assert Listed(s.subscribers, msg.topic, ch) <==> Registers(s.subscribers, msg.topic, ch);
    StoreReaches(s, msg, ch);
    ListedIffOpen(s, msg.topic, ch);
  }

  lemma SubscribeDoes(s: State, topic: string)
    ensures Subscribed(s, Subscribe(s, topic), topic)
  {
  }

  lemma CleanDoes(s: State, ch: nat)
    requires Sound(s) && ch < |s.channels|
    ensures Cleaned(s, Cleanup(s, ch), ch)
  {
    var d := Cleanup(s, ch);
    CleanupKeepsConnected(s, ch);
    ListedIffOpen(s, s.channels[ch].topic, ch);
    assert Linked(s.channels[ch], ch, s.subscribers);
    forall t: string, k: nat
      ensures Registers(d.subscribers, t, k) <==> Registers(s.subscribers, t, k) && k != ch
    {
      assert Registers(s.subscribers, t, k) <==> Listed(s.subscribers, t, k);
    }
  }

  lemma CloseDoes(s: State)
    requires Sound(s)
    ensures Closed(s, Close(s))
  {
    CloseKeepsConnected(s);
    forall ch | 0 <= ch < |s.channels|
      ensures var c := s.channels[ch];
              Close(s).channels[ch] == if c.open then c.(open := false, closes := 1, died := |s.published|) else c
    {
      CloseReaches(s, ch);
      assert Linked(s.channels[ch], ch, s.subscribers);
    }
  }

  /** When an event can happen: only a receive ever waits. */
  lemma MayHappen(s: State, e: Event)
    requires match e
             case Stores(m, freshId, _) =>
               m.id != "" || (freshId != "" && forall t: string :: !Lists(s.topics, t, freshId))
             case Cleans(ch) => ch < |s.channels|
             case Receives(ch) => ch < |s.channels| && !(s.channels[ch].open && s.channels[ch].buffer == [])
             case Gets(topic, _, _, order) =>
               && (forall id :: id in order <==> Lists(s.topics, topic, id))
               && (forall i, j :: 0 <= i < j < |order| ==> order[i] != order[j])
             case _ => true
    ensures Enabled(s, e)
  {
    if e.Stores? && e.message.id == "" {
      forall t | t in s.topics
        ensures e.freshId !in s.topics[t]
      {
        assert !Lists(s.topics, t, e.freshId);
      }
    }
  }

  // ----- panics -----

  /** Go panics at a send on a closed channel and at a second close: the flag is set by exactly these. */
  lemma {:induction false} PanicsExactlyIf(s: State, e: Event)
    requires Enabled(s, e)
    ensures Step(s, e).panicked <==>
              || s.panicked
              || (e.Stores? && exists ch: nat :: Registers(s.subscribers, e.message.topic, ch) && IsClosed(s, ch))
              || (e.Cleans? && Registers(s.subscribers, s.channels[e.channel].topic, e.channel)
                  && IsClosed(s, e.channel))
              || (e.Closes? && exists t, ch: nat :: Registers(s.subscribers, t, ch) && IsClosed(s, ch))
              || (e.Closes? && exists t, u, ch: nat ::
                    t != u && Registers(s.subscribers, t, ch) && Registers(s.subscribers, u, ch))
  {
    match e
    case Stores(m, _, _) => StoreHits(s, m.topic);
    case Closes => CloseHits(s);
    case _ =>
  }

  predicate IsClosed(s: State, ch: nat) {
    ch < |s.channels| && !s.channels[ch].open
  }

  lemma CloseHits(s: State)
    ensures HitsClosed(s, Registered(s)) <==> exists t, ch: nat :: Registers(s.subscribers, t, ch) && IsClosed(s, ch)
    ensures Shared(s) <==> exists t, u, ch: nat ::
              t != u && Registers(s.subscribers, t, ch) && Registers(s.subscribers, u, ch)
  {
    if Shared(s) {
      var t, u :| t in s.subscribers && u in s.subscribers && t != u && s.subscribers[t] * s.subscribers[u] != {};
      var ch :| ch in s.subscribers[t] * s.subscribers[u];
      assert Registers(s.subscribers, t, ch) && Registers(s.subscribers, u, ch);
    }
    if t, u, ch: nat :| t != u && Registers(s.subscribers, t, ch) && Registers(s.subscribers, u, ch) {
      assert ch in s.subscribers[t] * s.subscribers[u];
    }
    ClosedAmong(s);
  }

  lemma ClosedAmong(s: State)
    ensures HitsClosed(s, Registered(s)) <==> exists t, ch: nat :: Registers(s.subscribers, t, ch) && IsClosed(s, ch)
  {
    forall t, ch: nat | Registers(s.subscribers, t, ch) && IsClosed(s, ch)
      ensures HitsClosed(s, Registered(s))
    {
      assert Listed(s.subscribers, t, ch);
      RegisteredIffListed(s, ch);
    }
    if HitsClosed(s, Registered(s)) {
      var ch :| ch in Registered(s) && ch < |s.channels| && !s.channels[ch].open;
      RegisteredIffListed(s, ch);
      var t :| Listed(s.subscribers, t, ch);
      assert Registers(s.subscribers, t, ch) && IsClosed(s, ch);
    }
  }

  lemma StoreHits(s: State, topic: string)
    ensures HitsClosed(s, At(s.subscribers, topic))
       <==> exists ch: nat :: Registers(s.subscribers, topic, ch) && IsClosed(s, ch)
  {
    if HitsClosed(s, At(s.subscribers, topic)) {
      var ch :| ch in At(s.subscribers, topic) && ch < |s.channels| && !s.channels[ch].open;
      assert Registers(s.subscribers, topic, ch) && IsClosed(s, ch);
    }
    if ch: nat :| Registers(s.subscribers, topic, ch) && IsClosed(s, ch) {
      assert ch in At(s.subscribers, topic) && ch < |s.channels| && !s.channels[ch].open;
    }
  }

  // ----- a subscription -----

  /** A subscription starts with an open, empty channel of its topic, registered under it alone. */
  lemma SubscriptionStarts(states: seq<State>, events: seq<Event>, i: nat)
    requires Path(states, events) && i < |events| && events[i].Subscribes?
    ensures var s, d, ch, topic := states[i], states[i + 1], |states[i].channels|, events[i].topic;
            && |d.channels| == ch + 1
            && d.channels[ch] == Channel(topic, true, [], 0, |s.published|, |s.published|, [], [])
            && topic in d.subscribers && ch in d.subscribers[topic]
  {
    PathStep(states, events, i);
  }

  /** The channel is closed by its own cleanup or a Close of the store, and by nothing else. */
  ghost predicate StaysOpen(events: seq<Event>, ch: nat, i: nat, j: nat)
    requires j <= |events|
  {
    forall k :: i < k < j ==> events[k] != Cleans(ch) && events[k] != Closes
  }

  lemma {:induction false} SubscriptionLasts(states: seq<State>, events: seq<Event>, i: nat, j: nat)
    requires Path(states, events) && Sound(states[0]) && i < j < |states| && events[i].Subscribes?
    ensures j <= |events|
    ensures var ch, topic := |states[i].channels|, events[i].topic;
            && ch < |states[j].channels| && states[j].channels[ch].topic == topic
            && states[j].channels[ch].born == |states[i].published|
            && (states[j].channels[ch].open <==> StaysOpen(events, ch, i, j))
            && (Registers(states[j].subscribers, topic, ch) <==> StaysOpen(events, ch, i, j))
  {
    hide Path, Step, Enabled, Sound;
    PathLength(states, events);
    var ch := |states[i].channels|;
    if j == i + 1 {
      SubscriptionStarts(states, events, i);
    } else {
      SubscriptionLasts(states, events, i, j - 1);
      PathSound(states, events, j - 1);
      PathStep(states, events, j - 1);
      OpenStep(states[j - 1], events[j - 1], ch);
    }
    PathSound(states, events, j);
    OpenIsRegistered(states[j], ch);
  }

  lemma OpenStep(s: State, e: Event, ch: nat)
    requires Sound(s) && Enabled(s, e) && ch < |s.channels|
    ensures ch < |Step(s, e).channels|
    ensures var c, d := s.channels[ch], Step(s, e).channels[ch];
            d.topic == c.topic && d.born == c.born && (d.open <==> c.open && e != Cleans(ch) && e != Closes)
  {
    ChannelStep(s, e, ch);
  }

  lemma OpenIsRegistered(s: State, ch: nat)
    requires Sound(s) && ch < |s.channels|
    ensures Registers(s.subscribers, s.channels[ch].topic, ch) <==> s.channels[ch].open
  {
    ListedIffOpen(s, s.channels[ch].topic, ch);
  }

  /** While it lasts, every publish to its topic enters the buffer, unless 100 messages wait there,
      and is counted as sent or as dropped from then on. */
  lemma SubscriptionGets(states: seq<State>, events: seq<Event>, i: nat, k: nat, j: nat)
    requires Path(states, events) && Sound(states[0]) && i < k < j < |states| && events[i].Subscribes?
    requires k < |events| && events[k].Stores? && events[k].message.topic == events[i].topic
    requires StaysOpen(events, |states[i].channels|, i, k)
    ensures var ch, n := |states[i].channels|, |states[k].published|;
            && ch < |states[k].channels| && ch < |states[k + 1].channels| && ch < |states[j].channels|
            && n < |states[k + 1].published| && n < |states[j].published|
            && var c, d, later := states[k].channels[ch], states[k + 1].channels[ch], states[j].channels[ch];
               var msg := states[j].published[n];
               && Completes(msg, events[k].message, events[k].freshId, events[k].now)
               && d.buffer == (if |c.buffer| < 100 then c.buffer + [msg] else c.buffer)
               && (n in Sent(later.offers, true) <==> |c.buffer| < 100)
               && (n in Sent(later.offers, false) <==> |c.buffer| == 100)
  {
    hide Path, Step, Enabled, Sound, Accounted, Sent, Send;
    PathLength(states, events);
    SubscriptionLasts(states, events, i, k);
    PathSound(states, events, k);
    PathSound(states, events, j);
    PathStep(states, events, k);
    var ch := |states[i].channels|;
    StoreReachesOpen(states[k], events[k], ch);
    ChannelLater(states, events, k + 1, j, ch);
    HistoryLater(states, events, k + 1, j);
    OfferedNow(states[k], events[k], ch);
    SoundAccounts(states[j], ch);
    OfferDecides(states[j].channels[ch], states[j].published, |states[k].channels[ch].offers|);
    SoundAccounts(states[k], ch);
    AtMostFull(states[k].channels[ch], states[k].published);
  }

  lemma StoreReachesOpen(s: State, e: Event, ch: nat)
    requires Sound(s) && Enabled(s, e) && e.Stores? && ch < |s.channels|
    requires s.channels[ch].open && s.channels[ch].topic == e.message.topic
    ensures ch < |Step(s, e).channels| && |Step(s, e).published| == |s.published| + 1
    ensures var c, d, msg := s.channels[ch], Step(s, e).channels[ch], Step(s, e).published[|s.published|];
            && Completes(msg, e.message, e.freshId, e.now)
            && d.buffer == (if |c.buffer| < 100 then c.buffer + [msg] else c.buffer)
  {
    ChannelStep(s, e, ch);
    HistoryStep(s, e);
  }
}
