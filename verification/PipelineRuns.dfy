/** Runs of the pipeline told by their actions: what the store holds, and what reaches the sink. */
module PipelineRuns {
  import opened Wrappers
  import opened Models
  import opened MessageStore
  import opened Pipeline

  // ----- the store follows the actions -----

  /** The messages that the actions publish, with missing ids and times filled in. */
  function Published(actions: seq<Action>): seq<Message> {
    if actions == [] then []
    else
      var n := |actions| - 1;
      Published(actions[..n])
      + match actions[n] {
          case Elsewhere(Stores(m, freshId, now)) =>
            [Message(if m.id == "" then freshId else m.id, m.topic, m.payload,
                     if m.time.None? then Some(now) else m.time)]
          case _ => []
        }
  }

  /** The call that an action makes at the store, if any. */
  function CallOf(u: Setup, sys: System, a: Action): Option<Event> {
    match a
    case Elsewhere(e) => Some(e)
    case Attaches(_) => Some(Subscribes(u.topic))
    case Forwards(k, _) =>
      if k < |sys.sessions| && sys.sessions[k].channel.Some? then Some(Receives(sys.sessions[k].channel.value))
      else None
    case Acks(arrives) =>
      if arrives && sys.unacked.Some? && sys.unacked.value < |sys.store.published|
      then Some(Acknowledges(sys.store.published[sys.unacked.value].id, u.consumer)) else None
    case _ => None
  }

  function CallsOf(u: Setup, run: seq<System>, actions: seq<Action>, i: nat): seq<Event>
    requires i <= |actions| && i <= |run|
  {
    if i == 0 then []
    else
      CallsOf(u, run, actions, i - 1)
      + match CallOf(u, run[i - 1], actions[i - 1]) { case Some(e) => [e] case None => [] }
  }

  lemma ActCalls(u: Setup, sys: System, a: Action)
    requires Possible(sys, a)
    ensures var e := CallOf(u, sys, a);
            if e.Some? then Enabled(sys.store, e.value) && Act(u, sys, a).store == Step(sys.store, e.value)
            else Act(u, sys, a).store == sys.store
  {
  }

  /** What the store goes through in a run of the pipeline is a run of the store, by the calls that
      the actions make. */
  lemma {:induction false} StoreRuns(u: Setup, run: seq<System>, actions: seq<Action>, i: nat)
    requires Run(u, run, actions) && i < |run|
    ensures i <= |actions|
    ensures exists states: seq<State> :: Reaches(states, CallsOf(u, run, actions, i), run[i].store)
  {
    hide Run, Possible, Act, Enabled, Step, Reaches;
    if i == 0 {
      RunStarts(u, run, actions);
    } else {
      RunStarts(u, run, actions);
      StoreRuns(u, run, actions, i - 1);
      var events := CallsOf(u, run, actions, i - 1);
      var states: seq<State> :| Reaches(states, events, run[i - 1].store);
      RunStep(u, run, actions, i - 1);
      ActCalls(u, run[i - 1], actions[i - 1]);
      var e := CallOf(u, run[i - 1], actions[i - 1]);
      if e.Some? {
        ReachesNext(states, events, run[i - 1].store, e.value);
        assert Reaches(states + [run[i].store], CallsOf(u, run, actions, i), run[i].store);
      } else {
        assert events + [] == events;
        assert Reaches(states, CallsOf(u, run, actions, i), run[i].store);
      }
    }
  }

  /** A new store gets to s by the events. */
  ghost predicate Reaches(states: seq<State>, events: seq<Event>, s: State) {
    Behaviour(states, events) && states[|states| - 1] == s
  }

  lemma {:induction false} RunStarts(u: Setup, run: seq<System>, actions: seq<Action>)
    requires Run(u, run, actions)
    ensures |run| == |actions| + 1 && CallsOf(u, run, actions, 0) == [] && Reaches([INIT], [], run[0].store)
  {
  }

  lemma ReachesNext(states: seq<State>, events: seq<Event>, s: State, e: Event)
    requires Reaches(states, events, s) && Enabled(s, e)
    ensures Reaches(states + [Step(s, e)], events + [e], Step(s, e))
  {
    hide Step, Enabled;
    var longer, calls := states + [Step(s, e)], events + [e];
    forall i | 0 <= i < |calls|
      ensures Enabled(longer[i], calls[i]) && longer[i + 1] == Step(longer[i], calls[i])
    {
      if i < |events| { PathStep(states, events, i); }
    }
  }

  /** Over any stretch of a run the store publishes exactly what the actions publish, in order. */
  lemma {:induction false} PublishedByActions(u: Setup, run: seq<System>, actions: seq<Action>, i: nat, j: nat)
    requires Run(u, run, actions) && i <= j < |run|
    ensures j <= |actions| && run[j].store.published == run[i].store.published + Published(actions[i..j])
  {
    hide Run, Possible, Act, Enabled, Step, Published;
    RunStarts(u, run, actions);
    if i == j {
      NoActions(run[i].store, actions, i);
    } else {
      PublishedByActions(u, run, actions, i, j - 1);
      RunStep(u, run, actions, j - 1);
      ActPublishes(u, run[j - 1], actions[j - 1]);
      PublishedNext(actions, i, j - 1);
      var a := actions[j - 1];
      Assoc(run[i].store.published, Published(actions[i..j - 1]), if a.Elsewhere? then News(a.event) else []);
    }
  }

  lemma NoActions(s: State, actions: seq<Action>, i: nat)
    requires i <= |actions|
    ensures s.published + Published(actions[i..i]) == s.published
  {
  }

  lemma ActPublishes(u: Setup, sys: System, a: Action)
    requires Possible(sys, a)
    ensures Act(u, sys, a).store.published == sys.store.published + if a.Elsewhere? then News(a.event) else []
  {
    ActCalls(u, sys, a);
    var e := CallOf(u, sys, a);
    if e.Some? { HistoryStep(sys.store, e.value); }
    hide Act, Step;
  }

  lemma PublishedNext(actions: seq<Action>, i: nat, j: nat)
    requires i <= j < |actions|
    ensures Published(actions[i..j + 1])
         == Published(actions[i..j])
            + if actions[j].Elsewhere? then News(actions[j].event) else []
  {
    assert actions[i..j + 1][..j - i] == actions[i..j];
  }

  lemma FromTheStart(u: Setup, run: seq<System>, actions: seq<Action>, i: nat)
    requires Run(u, run, actions) && i < |run|
    ensures i <= |actions| && run[i].store.published == Published(actions[..i])
  {
    PublishedByActions(u, run, actions, 0, i);
    assert actions[0..i] == actions[..i];
  }

  // ----- what reaches the sink -----

  /** Record and message agree: the message is of the topic and decodes to the record. */
  predicate Reads(u: Setup, m: Message, record: Telemetry) {
    m.topic == u.topic && u.decode(m.payload) == Some(record)
  }

  /** In every run, whatever fails, the sink holds records of messages that the actions published to
      the topic, in their order and each message at most once. */
  lemma SinkFollowsActions(u: Setup, run: seq<System>, actions: seq<Action>, i: nat)
    requires Run(u, run, actions) && i < |run|
    ensures i <= |actions|
    ensures exists at: seq<nat> ::
              && Increasing(at) && |at| == |run[i].sink| && Within(at, |Published(actions[..i])|)
              && forall j :: 0 <= j < |at| ==> Reads(u, Published(actions[..i])[at[j]], run[i].sink[j])
  {
    FromTheStart(u, run, actions, i);
    SinkInOrderAtMostOnce(u, run, actions, i);
    hide Act, Possible, Published;
    var sys := run[i];
    var at: seq<nat> :| Increasing(at) && DecodesAll(u, sys.store.published, at, sys.sink);
    forall j | 0 <= j < |at|
      ensures at[j] < |sys.store.published| && Reads(u, sys.store.published[at[j]], sys.sink[j])
    {
      assert Decodes(u, sys.store.published, at[j], sys.sink[j]);
    }
  }

  /** The records of the messages to the topic that decode. */
  function Recorded(u: Setup, messages: seq<Message>): seq<Telemetry> {
    if messages == [] then []
    else
      var m := messages[|messages| - 1];
      Recorded(u, messages[..|messages| - 1]) + RecordedOne(u, m)
  }

  /** No action from a up to d closes the channel. */
  predicate Lasts(actions: seq<Action>, ch: nat, a: nat, d: nat) {
    d <= |actions|
    && forall k :: a < k < d ==> actions[k] != Elsewhere(Cleans(ch)) && actions[k] != Elsewhere(Closes)
  }

  predicate ClosedAt(actions: seq<Action>, ch: nat, d: nat) {
    d < |actions| && (actions[d] == Elsewhere(Cleans(ch)) || actions[d] == Elsewhere(Closes))
  }

  /** Fewer than 100 messages wait in the channel. */
  predicate Room(s: State, ch: nat) {
    ch < |s.channels| && |s.channels[ch].buffer| < 100
  }

  predicate PublishesTo(a: Action, topic: string) {
    a.Elsewhere? && a.event.Stores? && a.event.message.topic == topic
  }

  /** The channel that Attaches registered after a actions, once i actions are done: it lasted for the
      first d of them, and nothing offered to it was dropped. */
  ghost predicate Attached(c: Channel, u: Setup, run: seq<System>, a: nat, d: nat, i: nat) {
    && a < |run| && d < |run| && i < |run|
    && c.topic == u.topic && c.born == |run[a].store.published|
    && (if i <= d then c.open else !c.open && c.died == |run[d].store.published|)
    && Sent(c.offers, false) == []
  }

  lemma AttachedStarts(u: Setup, run: seq<System>, actions: seq<Action>, a: nat, k: nat, d: nat)
    requires Run(u, run, actions) && a < |actions| && actions[a] == Attaches(k) && a < d < |run|
    ensures var ch, sys := |run[a].store.channels|, run[a + 1];
            && ch < |sys.store.channels| && Attached(sys.store.channels[ch], u, run, a, d, a + 1)
            && k < |sys.sessions| && sys.sessions[k].channel == Some(ch)
  {
    RunStep(u, run, actions, a);
  }

  lemma {:induction false} StaysAttached(u: Setup, run: seq<System>, actions: seq<Action>, a: nat, k: nat,
                                         d: nat, i: nat)
    requires Run(u, run, actions) && a < |actions| && actions[a] == Attaches(k) && a < d < |run| && a < i < |run|
    requires Lasts(actions, |run[a].store.channels|, a, d)
    requires d < i ==> ClosedAt(actions, |run[a].store.channels|, d)
    requires forall j :: a < j < d && j < |actions| && j < |run| && PublishesTo(actions[j], u.topic) ==>
               Room(run[j].store, |run[a].store.channels|)
    ensures var ch, sys := |run[a].store.channels|, run[i];
            && ch < |sys.store.channels| && Attached(sys.store.channels[ch], u, run, a, d, i)
            && k < |sys.sessions| && sys.sessions[k].channel == Some(ch)
    decreases i
  {
    hide Possible, Act, Enabled, Step, Attached, Good;
    if i == a + 1 {
      AttachedStarts(u, run, actions, a, k, d);
    } else {
      StaysAttached(u, run, actions, a, k, d, i - 1);
      RunStep(u, run, actions, i - 1);
      AlwaysGood(u, run, actions, i - 1);
      AttachedNext(u, run, actions, a, d, i - 1, |run[a].store.channels|);
      ChannelKept(u, run[i - 1], actions[i - 1], k);
    }
  }

  lemma ChannelKept(u: Setup, sys: System, a: Action, k: nat)
    requires Possible(sys, a) && k < |sys.sessions| && sys.sessions[k].channel.Some?
    ensures k < |Act(u, sys, a).sessions| && Act(u, sys, a).sessions[k].channel == sys.sessions[k].channel
  {
    hide Step;
  }

  lemma AttachedNext(u: Setup, run: seq<System>, actions: seq<Action>, a: nat, d: nat, i: nat, ch: nat)
    requires a < d < |run| && a < i && i + 1 < |run| == |actions| + 1
    requires Possible(run[i], actions[i]) && run[i + 1] == Act(u, run[i], actions[i]) && Good(u, run[i])
    requires ch < |run[i].store.channels| && Attached(run[i].store.channels[ch], u, run, a, d, i)
    requires Lasts(actions, ch, a, d) && (d <= i ==> ClosedAt(actions, ch, d))
    requires i < d && PublishesTo(actions[i], u.topic) ==> Room(run[i].store, ch)
    ensures ch < |run[i + 1].store.channels| && Attached(run[i + 1].store.channels[ch], u, run, a, d, i + 1)
  {
    hide Act, Possible, Good, Step, Enabled, Sent, Sound;
    ActCalls(u, run[i], actions[i]);
    GoodIsSound(u, run[i]);
    var e := CallOf(u, run[i], actions[i]);
    if e.Some? { AttachedStep(run[i].store, e.value, ch); }
  }

  lemma GoodIsSound(u: Setup, sys: System)
    requires Good(u, sys)
    ensures Sound(sys.store)
  {
  }

  lemma AttachedStep(s: State, e: Event, ch: nat)
    requires Sound(s) && Enabled(s, e) && ch < |s.channels| && Sent(s.channels[ch].offers, false) == []
    requires e.Stores? && e.message.topic == s.channels[ch].topic && s.channels[ch].open ==> Room(s, ch)
    ensures ch < |Step(s, e).channels|
    ensures var c, d := s.channels[ch], Step(s, e).channels[ch];
            && d.topic == c.topic && d.born == c.born && Sent(d.offers, false) == []
            && (d.open <==> c.open && e != Cleans(ch) && e != Closes)
            && (!d.open ==> d.died == if c.open then |s.published| else c.died)
  {
    ChannelStep(s, e, ch);
    hide Step, Sound, Enabled, Sent;
    var c := s.channels[ch];
    if e.Stores? {
      SentSnoc(c.offers, Send(c, News(e)[0], |s.published|).offers[|c.offers|], false);
    }
  }

  lemma {:induction false} RecordedConcat(u: Setup, a: seq<Message>, m: Message)
    ensures Recorded(u, a + [m]) == Recorded(u, a) + RecordedOne(u, m)
  {
    assert (a + [m])[..|a|] == a;
  }

  /** The records that decode the publishes from lo up to hi are those of these messages. */
  lemma {:induction false} RecordedIs(u: Setup, published: seq<Message>, lo: nat, hi: nat, sink: seq<Telemetry>)
    requires lo <= hi <= |published|
    requires DecodesAll(u, published, Decodable(u, published, Publishes(published, u.topic, lo, hi)), sink)
    ensures sink == Recorded(u, published[lo..hi])
  {
    hide Decodable, Publishes, Recorded, DecodesAll, Decodes, RecordedOne;
    if hi == lo {
      NothingRecorded(u, published, lo, sink);
    } else {
      var k := |Decodable(u, published, Publishes(published, u.topic, lo, hi - 1))|;
      var last := RecordedOne(u, published[hi - 1]);
      DecodableNext(u, published, lo, hi);
      DecodesNext(u, published, lo, hi, sink);
      RecordedIs(u, published, lo, hi - 1, sink[..k]);
      assert published[lo..hi] == published[lo..hi - 1] + [published[hi - 1]];
      RecordedConcat(u, published[lo..hi - 1], published[hi - 1]);
      assert sink == sink[..k] + last;
    }
  }

  lemma {:induction false} NothingRecorded(u: Setup, published: seq<Message>, lo: nat, sink: seq<Telemetry>)
    requires lo <= |published|
    requires DecodesAll(u, published, Decodable(u, published, Publishes(published, u.topic, lo, lo)), sink)
    ensures sink == Recorded(u, published[lo..lo])
  {
  }

  function RecordedOne(u: Setup, m: Message): seq<Telemetry> {
    if m.topic == u.topic && u.decode(m.payload).Some? then [u.decode(m.payload).value] else []
  }

  lemma DecodableNext(u: Setup, published: seq<Message>, lo: nat, hi: nat)
    requires lo < hi <= |published|
    ensures Decodable(u, published, Publishes(published, u.topic, lo, hi))
         == Decodable(u, published, Publishes(published, u.topic, lo, hi - 1))
            + if RecordedOne(u, published[hi - 1]) != [] then [hi - 1] else []
  {
    var before, m := Publishes(published, u.topic, lo, hi - 1), published[hi - 1];
    var last := if m.topic == u.topic then [hi - 1] else [];
    assert Publishes(published, u.topic, lo, hi) == before + last;
    DecodableConcat(u, published, before, last);
    DecodableOne(u, published, hi - 1);
    hide Decodable, Publishes;
  }

  lemma DecodesNext(u: Setup, published: seq<Message>, lo: nat, hi: nat, sink: seq<Telemetry>)
    requires lo < hi <= |published|
    requires DecodesAll(u, published, Decodable(u, published, Publishes(published, u.topic, lo, hi)), sink)
    ensures var at := Decodable(u, published, Publishes(published, u.topic, lo, hi - 1));
            && |at| <= |sink| && DecodesAll(u, published, at, sink[..|at|])
            && sink[|at|..] == RecordedOne(u, published[hi - 1])
  {
    DecodableNext(u, published, lo, hi);
    var at := Decodable(u, published, Publishes(published, u.topic, lo, hi - 1));
    var all := Decodable(u, published, Publishes(published, u.topic, lo, hi));
    hide Decodable, Publishes;
    assert forall j :: 0 <= j < |at| ==> all[j] == at[j] && Decodes(u, published, all[j], sink[j]);
    if |all| > |at| { assert Decodes(u, published, all[|at|], sink[|at|]); }
  }

  lemma {:induction false} DecodableOne(u: Setup, published: seq<Message>, x: nat)
    requires x < |published|
    ensures Decodable(u, published, [x]) == if u.decode(published[x].payload).Some? then [x] else []
    ensures Decodable(u, published, []) == []
  {
  }

  /** If nothing failed and the channel always had room, the sink ends up with the record of every
      message published to the topic after the session attached, and before its channel was closed if
      it was: all of them, once, in order. */
  lemma {:induction false} EveryPublishArrives(u: Setup, run: seq<System>, actions: seq<Action>,
                                               a: nat, d: nat, i: nat)
    requires Run(u, run, actions) && a < d <= i < |run| && i <= |actions| && actions[a] == Attaches(0)
    requires Lasts(actions, |run[a].store.channels|, a, d)
    requires d == i || ClosedAt(actions, |run[a].store.channels|, d)
    requires forall j :: a < j < d && PublishesTo(actions[j], u.topic) ==> Room(run[j].store, |run[a].store.channels|)
    requires run[i].faults == 0
    ensures run[i].sessions != [] && |run[a].store.channels| < |run[i].store.channels|
    ensures run[i].sessions[0].wire == [] && run[i].store.channels[|run[a].store.channels|].buffer == [] ==>
              run[i].sink == Recorded(u, Published(actions[a + 1..d]))
  {
    var ch := |run[a].store.channels|;
    hide Possible, Act, Attached, Recorded, Good;
    StaysAttached(u, run, actions, a, 0, d, i);
    ExactlyOnceWithoutFaults(u, run, actions, i, ch);
    FromTheStart(u, run, actions, i);
    PublishedByActions(u, run, actions, a + 1, d);
    PublishedByActions(u, run, actions, d, i);
    NothingPublished(u, run, actions, a);
    var c, published := run[i].store.channels[ch], run[i].store.published;
    AttachedSpan(c, u, run, a, d, i);
    if run[i].sessions[0].wire == [] && c.buffer == [] {
      RecordedIs(u, published, c.born, End(c, |published|), run[i].sink);
      assert published[c.born..|run[d].store.published|] == Published(actions[a + 1..d]);
    }
  }

  lemma NothingPublished(u: Setup, run: seq<System>, actions: seq<Action>, a: nat)
    requires Run(u, run, actions) && a < |actions| && actions[a].Attaches?
    ensures run[a + 1].store.published == run[a].store.published
  {
    RunStep(u, run, actions, a);
  }

  lemma AttachedSpan(c: Channel, u: Setup, run: seq<System>, a: nat, d: nat, i: nat)
    requires Attached(c, u, run, a, d, i) && d <= i
    ensures c.topic == u.topic && c.born == |run[a].store.published| && Sent(c.offers, false) == []
    ensures End(c, |run[i].store.published|) == |run[d].store.published|
  {
  }

  /** An acknowledgment that arrives gives the consumer the claim on a message that is still stored. */
  lemma AcksClaim(u: Setup, sys: System)
    requires Possible(sys, Acks(true))
    ensures var id, d := sys.store.published[sys.unacked.value].id, Act(u, sys, Acks(true));
            && d.acked == sys.acked + [sys.unacked.value]
            && (id in sys.store.messages ==> id in d.store.acks && d.store.acks[id] == u.consumer)
  {
  }

  // ----- what a failure costs -----

  /** The session delivers only publishes from position n on. */
  ghost predicate Late(s: Session, store: State, n: nat) {
    && (forall i :: 0 <= i < |s.wire| && s.wire[i].Carries? ==> n <= s.wire[i].index)
    && (s.channel.Some? ==> s.channel.value < |store.channels| && n <= store.channels[s.channel.value].born)
  }

  /** The collector has only sessions from number first on, which are late, and stored only late
      publishes since there were count records. */
  ghost predicate StartedOver(sys: System, n: nat, first: nat, count: nat) {
    && n <= |sys.store.published| && first <= |sys.sessions| && count <= |sys.sources|
    && (forall j :: count <= j < |sys.sources| ==> n <= sys.sources[j])
    && (sys.current.Some? ==> first <= sys.current.value)
    && (forall k :: first <= k < |sys.sessions| ==> Late(sys.sessions[k], sys.store, n))
  }

  lemma StartedOverNext(u: Setup, sys: System, a: Action, n: nat, first: nat, count: nat)
    requires Good(u, sys) && Possible(sys, a) && StartedOver(sys, n, first, count)
    ensures StartedOver(Act(u, sys, a), n, first, count)
    ensures sys.sources <= Act(u, sys, a).sources
  {
    hide Good, Enabled, Step, Received, Late;
    var d := Act(u, sys, a);
    ActPublishes(u, sys, a);
    forall k | first <= k < |d.sessions|
      ensures Late(d.sessions[k], d.store, n)
    {
      if k < |sys.sessions| { LateNext(u, sys, a, n, k); } else { FreshIsLate(d.sessions[k], d.store, n); }
    }
    if a.Handles? { WireIsLate(sys.sessions[sys.current.value], sys.store, n); }
  }

  lemma FreshIsLate(s: Session, store: State, n: nat)
    requires s == Session(None, [])
    ensures Late(s, store, n)
  {
  }

  lemma WireIsLate(s: Session, store: State, n: nat)
    requires Late(s, store, n) && s.wire != []
    ensures s.wire[0].Carries? ==> n <= s.wire[0].index
    ensures Late(s.(wire := s.wire[1..]), store, n)
  {
  }

  lemma LateNext(u: Setup, sys: System, a: Action, n: nat, k: nat)
    requires Good(u, sys) && Possible(sys, a) && k < |sys.sessions|
    requires n <= |sys.store.published| && Late(sys.sessions[k], sys.store, n)
    ensures k < |Act(u, sys, a).sessions| && Late(Act(u, sys, a).sessions[k], Act(u, sys, a).store, n)
  {
    hide Good, Act, Possible, Enabled, Step, Received, Late;
    var s, store := sys.sessions[k], Act(u, sys, a).store;
    SessionNext(u, sys, a, k);
    StoreKeepsLate(u, sys, a, n, k);
    match a
    case Attaches(l) => if l == k { AttachedIsLate(u, sys, k, n); }
    case Forwards(l, sent) => if l == k && sent { ForwardedIsLate(u, sys, k, n); }
    case Handles(_) => if s.wire != [] { WireIsLate(s, store, n); }
    case _ =>
  }

  /** What an action does to a session that exists already. */
  lemma SessionNext(u: Setup, sys: System, a: Action, k: nat)
    requires Possible(sys, a) && k < |sys.sessions|
    ensures k < |Act(u, sys, a).sessions|
    ensures var s, later := sys.sessions[k], Act(u, sys, a).sessions[k];
            match a
            case Attaches(l) => later == if l == k then s.(channel := Some(|sys.store.channels|)) else s
            case Forwards(l, sent) =>
              if l == k && sent
              then
                && s.channel.Some? && s.channel.value < |sys.store.channels|
                && later == s.(wire := s.wire + [Received(sys.store.channels[s.channel.value])])
              else later == s
            case Handles(_) =>
              if sys.current == Some(k) then s.wire != [] && later == s.(wire := s.wire[1..]) else later == s
            case _ => later == s
  {
    hide Step, Received;
  }

  lemma AttachedIsLate(u: Setup, sys: System, k: nat, n: nat)
    requires Possible(sys, Attaches(k)) && n <= |sys.store.published| && Late(sys.sessions[k], sys.store, n)
    ensures Late(sys.sessions[k].(channel := Some(|sys.store.channels|)), Act(u, sys, Attaches(k)).store, n)
  {
  }

  lemma ForwardedIsLate(u: Setup, sys: System, k: nat, n: nat)
    requires Good(u, sys) && Possible(sys, Forwards(k, true)) && Late(sys.sessions[k], sys.store, n)
    ensures var s, p := sys.sessions[k], Received(sys.store.channels[sys.sessions[k].channel.value]);
            Late(s.(wire := s.wire + [p]), Act(u, sys, Forwards(k, true)).store, n)
  {
    hide Good, Received, Act, Enabled, Step;
    ReceivedIsLate(u, sys, k, n);
    StoreKeepsLate(u, sys, Forwards(k, true), n, k);
  }

  lemma StoreKeepsLate(u: Setup, sys: System, a: Action, n: nat, k: nat)
    requires Good(u, sys) && Possible(sys, a) && k < |sys.sessions| && Late(sys.sessions[k], sys.store, n)
    ensures Late(sys.sessions[k], Act(u, sys, a).store, n)
  {
    hide Good, Act, Step, Enabled;
    ActCalls(u, sys, a);
    GoodIsSound(u, sys);
    var e, s := CallOf(u, sys, a), sys.sessions[k];
    if e.Some? && s.channel.Some? { BornStays(sys.store, e.value, s.channel.value); }
  }

  lemma BornStays(s: State, e: Event, ch: nat)
    requires Sound(s) && Enabled(s, e) && ch < |s.channels|
    ensures ch < |Step(s, e).channels| && Step(s, e).channels[ch].born == s.channels[ch].born
  {
    ChannelStep(s, e, ch);
  }

  lemma ReceivedIsLate(u: Setup, sys: System, k: nat, n: nat)
    requires Good(u, sys) && Possible(sys, Forwards(k, true)) && Late(sys.sessions[k], sys.store, n)
    ensures var p := Received(sys.store.channels[sys.sessions[k].channel.value]); p.Carries? ==> n <= p.index
  {
    var c, published := sys.store.channels[sys.sessions[k].channel.value], sys.store.published;
    SoundAccounts(sys.store, sys.sessions[k].channel.value);
    if Waiting(c) != [] {
      WaitingIsBuffer(c, published);
      PublishesAreAll(published, c.topic, c.born, End(c, |published|));
      SentOrdered(c.offers, true);
      assert Waiting(c)[0] == Sent(c.offers, true)[|c.consumed|];
      assert Waiting(c)[0] in Indices(c.offers);
    }
    hide Good, Sound, Accounted;
  }

  /** Whatever is on its way when a receive fails never reaches the sink: everything stored later was
      published after the failure. */
  lemma {:induction false} FailureLosesTheLine(u: Setup, run: seq<System>, actions: seq<Action>, i: nat, j: nat)
    requires Run(u, run, actions) && i < |actions| && actions[i] == Fails && i < j < |run|
    ensures |run| == |actions| + 1
    ensures run[i].sources <= run[j].sources
    ensures forall l :: |run[i].sources| <= l < |run[j].sources| ==> |run[i].store.published| <= run[j].sources[l]
    ensures forall x <- Line(run[i]) :: x < |run[i].store.published| && x !in run[j].sources
  {
    hide Run, Act, Possible, Good, StartedOver, Line;
    RunStarts(u, run, actions);
    AfterFailure(u, run, actions, i, j);
    AlwaysGood(u, run, actions, i);
    LineIsApart(u, run[i]);
    StartedOverIs(run[j], |run[i].store.published|, |run[i].sessions|, |run[i].sources|);
  }

  lemma StartedOverIs(sys: System, n: nat, first: nat, count: nat)
    requires StartedOver(sys, n, first, count)
    ensures forall l :: count <= l < |sys.sources| ==> n <= sys.sources[l]
  {
  }

  /** What is on its way is not stored yet. */
  lemma LineIsApart(u: Setup, sys: System)
    requires Good(u, sys)
    ensures forall x <- Line(sys) :: x < |sys.store.published| && x !in sys.sources
  {
    hide Line, Sound, SessionsOk, SinkOk, AcksOk;
    var q := sys.sources + Line(sys);
    forall x | x in Line(sys)
      ensures x < |sys.store.published| && x !in sys.sources
    {
      var l :| 0 <= l < |Line(sys)| && Line(sys)[l] == x;
      assert q[|sys.sources| + l] == x;
      assert forall k :: 0 <= k < |sys.sources| ==> q[k] == sys.sources[k];
    }
  }

  lemma {:induction false} AfterFailure(u: Setup, run: seq<System>, actions: seq<Action>, i: nat, j: nat)
    requires Run(u, run, actions) && i < |actions| && actions[i] == Fails && i < j < |run|
    ensures |run| == |actions| + 1 && run[i].sources <= run[j].sources
    ensures StartedOver(run[j], |run[i].store.published|, |run[i].sessions|, |run[i].sources|)
  {
    hide Run, Act, Possible, Good, StartedOver;
    RunStarts(u, run, actions);
    RunStep(u, run, actions, j - 1);
    if j == i + 1 {
      FailsStartsOver(u, run[i]);
    } else {
      AfterFailure(u, run, actions, i, j - 1);
      AlwaysGood(u, run, actions, j - 1);
      StartedOverNext(u, run[j - 1], actions[j - 1],
                      |run[i].store.published|, |run[i].sessions|, |run[i].sources|);
    }
  }

  lemma FailsStartsOver(u: Setup, sys: System)
    requires Possible(sys, Fails)
    ensures StartedOver(Act(u, sys, Fails), |sys.store.published|, |sys.sessions|, |sys.sources|)
    ensures Act(u, sys, Fails).sources == sys.sources
  {
  }

  // ----- nothing gets stuck -----

  /** What is still on its way to a session's collector. */
  function Coming(sys: System, k: nat, ch: nat): nat {
    (if k < |sys.sessions| then 2 * |sys.sessions[k].wire| else 0)
    + (if ch < |sys.store.channels| then 3 * |sys.store.channels[ch].buffer| else 0)
    + (if sys.unacked.Some? then 1 else 0)
  }

  /** Session k is the collector's and has channel ch. */
  predicate Serves(sys: System, k: nat, ch: nat) {
    sys.current == Some(k) && k < |sys.sessions| && sys.sessions[k].channel == Some(ch) && ch < |sys.store.channels|
  }

  /** The run goes on with deliveries, storing and acknowledging that succeed, until nothing is left. */
  ghost predicate Drains(u: Setup, run: seq<System>, actions: seq<Action>, k: nat, ch: nat,
                         run': seq<System>, actions': seq<Action>)
  {
    && Run(u, run', actions') && |run| == |actions| + 1 && run <= run' && actions <= actions'
    && (forall j :: |actions| <= j < |actions'| ==>
          actions'[j] == Forwards(k, true) || actions'[j] == Handles(true) || actions'[j] == Acks(true))
    && var d := run'[|actions'|];
       && Serves(d, k, ch) && d.faults == run[|actions|].faults && d.unacked == None
       && d.sessions[k].wire == [] && d.store.channels[ch].buffer == []
  }

  /** From every state of every run, what is on its way to the collector can still arrive: whatever
      failed before, nothing blocks. */
  lemma {:induction false} CanDrain(u: Setup, run: seq<System>, actions: seq<Action>, k: nat, ch: nat)
    requires Run(u, run, actions) && Serves(run[|actions|], k, ch)
    ensures exists run': seq<System>, actions': seq<Action> :: Drains(u, run, actions, k, ch, run', actions')
    decreases Coming(run[|actions|], k, ch)
  {
    hide Run, Act, Possible, Drains, Good;
    RunStarts(u, run, actions);
    var sys := run[|actions|];
    AlwaysGood(u, run, actions, |actions|);
    if Coming(sys, k, ch) == 0 {
      Drained(u, run, actions, k, ch);
    } else {
      var a := NextAction(sys, k, ch);
      NextIsPossible(u, sys, k, ch);
      NextServes(u, sys, k, ch);
      var longer, more := run + [Act(u, sys, a)], actions + [a];
      RunOn(u, run, actions, a);
      CanDrain(u, longer, more, k, ch);
      var run': seq<System>, actions': seq<Action> :| Drains(u, longer, more, k, ch, run', actions');
      DrainsEarlier(u, run, actions, k, ch, a, run', actions');
    }
  }

  function NextAction(sys: System, k: nat, ch: nat): Action
    requires Serves(sys, k, ch)
  {
    if sys.unacked.Some? then Acks(true) else if sys.sessions[k].wire != [] then Handles(true) else Forwards(k, true)
  }

  lemma NextIsPossible(u: Setup, sys: System, k: nat, ch: nat)
    requires Good(u, sys) && Serves(sys, k, ch) && Coming(sys, k, ch) > 0
    ensures Possible(sys, NextAction(sys, k, ch))
  {
    hide Sound, SinkOk, SessionsOk;
    if sys.unacked.Some? { assert sys.sources == (sys.sources + Line(sys))[..|sys.sources|]; }
  }

  lemma NextServes(u: Setup, sys: System, k: nat, ch: nat)
    requires Good(u, sys) && Serves(sys, k, ch) && Coming(sys, k, ch) > 0
    requires Possible(sys, NextAction(sys, k, ch))
    ensures var d := Act(u, sys, NextAction(sys, k, ch));
            Serves(d, k, ch) && d.faults == sys.faults && Coming(d, k, ch) < Coming(sys, k, ch)
  {
    hide Good;
  }

  lemma RunOn(u: Setup, run: seq<System>, actions: seq<Action>, a: Action)
    requires Run(u, run, actions) && Possible(run[|actions|], a)
    ensures Run(u, run + [Act(u, run[|actions|], a)], actions + [a])
  {
    hide Act, Possible;
    var longer, more := run + [Act(u, run[|actions|], a)], actions + [a];
    forall i | 0 <= i < |more|
      ensures Possible(longer[i], more[i]) && longer[i + 1] == Act(u, longer[i], more[i])
    {
      if i < |actions| { RunStep(u, run, actions, i); }
    }
  }

  lemma Drained(u: Setup, run: seq<System>, actions: seq<Action>, k: nat, ch: nat)
    requires Run(u, run, actions) && Serves(run[|actions|], k, ch) && Coming(run[|actions|], k, ch) == 0
    ensures Drains(u, run, actions, k, ch, run, actions)
  {
    hide Act, Possible;
  }

  lemma DrainsEarlier(u: Setup, run: seq<System>, actions: seq<Action>, k: nat, ch: nat, a: Action,
                      run': seq<System>, actions': seq<Action>)
    requires |run| == |actions| + 1 && Possible(run[|actions|], a)
    requires a == Forwards(k, true) || a == Handles(true) || a == Acks(true)
    requires Act(u, run[|actions|], a).faults == run[|actions|].faults
    requires Drains(u, run + [Act(u, run[|actions|], a)], actions + [a], k, ch, run', actions')
    ensures Drains(u, run, actions, k, ch, run', actions')
  {
    hide Run, Act, Possible;
    assert actions'[|actions|] == a;
  }

  /** The actions can happen, and lead to this state. */
  ghost predicate LeadTo(u: Setup, actions: seq<Action>, sys: System) {
    exists run: seq<System> :: Run(u, run, actions) && run[|actions|] == sys
  }

  lemma LeadOn(u: Setup, actions: seq<Action>, sys: System, a: Action)
    requires LeadTo(u, actions, sys) && Possible(sys, a)
    ensures LeadTo(u, actions + [a], Act(u, sys, a))
  {
    hide Act, Possible;
    var run: seq<System> :| Run(u, run, actions) && run[|actions|] == sys;
    RunOn(u, run, actions, a);
    assert (run + [Act(u, sys, a)])[|actions + [a]|] == Act(u, sys, a);
  }

  /** One message on its way: published to an attached session, delivered, stored and acknowledged. */
  lemma OneMessageArrives(u: Setup, m: Message, freshId: string, now: int, record: Telemetry)
    requires m.id != "" && m.topic == u.topic && u.decode(m.payload) == Some(record)
    ensures exists sys: System ::
              && LeadTo(u, [Opens, Attaches(0), Elsewhere(Stores(m, freshId, now)),
                            Forwards(0, true), Handles(true), Acks(true)], sys)
              && sys.sink == [record] && sys.acked == [0] && sys.faults == 0
              && m.id in sys.store.acks && sys.store.acks[m.id] == u.consumer
  {
    hide LeadTo, Act, Possible, Single;
    var publish := Elsewhere(Stores(m, freshId, now));
    OneOpens(u);
    var s1 := Act(u, START, Opens);
    OneAttaches(u, s1);
    LeadOn(u, [Opens], s1, Attaches(0));
    var s2 := Act(u, s1, Attaches(0));
    OneStores(u, s2, m, freshId, now);
    LeadOn(u, [Opens] + [Attaches(0)], s2, publish);
    var s3 := Act(u, s2, publish);
    OneForwards(u, s3, Stamped(m, freshId, now));
    LeadOn(u, [Opens] + [Attaches(0)] + [publish], s3, Forwards(0, true));
    var s4 := Act(u, s3, Forwards(0, true));
    OneHandled(u, s4, Stamped(m, freshId, now), record);
    LeadOn(u, [Opens] + [Attaches(0)] + [publish] + [Forwards(0, true)], s4, Handles(true));
    var s5 := Act(u, s4, Handles(true));
    OneAcked(u, s5);
    LeadOn(u, [Opens] + [Attaches(0)] + [publish] + [Forwards(0, true)] + [Handles(true)], s5, Acks(true));
    assert [Opens] + [Attaches(0)] + [publish] + [Forwards(0, true)] + [Handles(true)] + [Acks(true)]
        == [Opens, Attaches(0), publish, Forwards(0, true), Handles(true), Acks(true)];
  }

  lemma OneOpens(u: Setup)
    ensures Possible(START, Opens) && LeadTo(u, [Opens], Act(u, START, Opens))
    ensures Act(u, START, Opens) == START.(sessions := [Session(None, [])], current := Some(0))
  {
    assert Run(u, [START], []) && [START][0] == START;
    LeadOn(u, [], START, Opens);
    assert [] + [Opens] == [Opens];
  }

  lemma OneAcked(u: Setup, sys: System)
    requires sys.unacked == Some(0) && |sys.store.published| > 0 && sys.acked == []
    requires sys.store.published[0].id in sys.store.messages
    ensures Possible(sys, Acks(true))
    ensures var d, id := Act(u, sys, Acks(true)), sys.store.published[0].id;
            && d.sink == sys.sink && d.acked == [0] && d.faults == sys.faults
            && id in d.store.acks && d.store.acks[id] == u.consumer
  {
  }

  /** The collector's only session has the store's only channel, with the messages waiting there and
      those on the wire. */
  predicate Single(u: Setup, sys: System, waiting: seq<Message>, wire: seq<Packet>) {
    && sys.current == Some(0) && sys.sessions == [Session(Some(0), wire)]
    && sys.unacked == None && sys.sink == [] && sys.acked == [] && sys.faults == 0
    && |sys.store.channels| == 1
    && var c := sys.store.channels[0];
       && c.open && c.topic == u.topic && c.buffer == waiting
       && u.topic in sys.store.subscribers && sys.store.subscribers[u.topic] == {0}
       && Sent(c.offers, true) == (if waiting == [] && wire == [] then [] else [0])
       && |c.consumed| == |wire|
  }

  lemma OneAttaches(u: Setup, sys: System)
    requires sys == START.(sessions := [Session(None, [])], current := Some(0))
    ensures Possible(sys, Attaches(0))
    ensures var d := Act(u, sys, Attaches(0)); Single(u, d, [], []) && d.store.published == []
  {
  }

  lemma OneStores(u: Setup, sys: System, m: Message, freshId: string, now: int)
    requires Single(u, sys, [], []) && sys.store.published == [] && m.id != "" && m.topic == u.topic
    ensures Possible(sys, Elsewhere(Stores(m, freshId, now)))
    ensures var msg, d := Stamped(m, freshId, now), Act(u, sys, Elsewhere(Stores(m, freshId, now)));
            Single(u, d, [msg], []) && d.store.published == [msg] && msg.id in d.store.messages
  {
    SentSnoc(sys.store.channels[0].offers, Offer(0, true, 0), true);
  }

  lemma OneForwards(u: Setup, sys: System, m: Message)
    requires Single(u, sys, [m], []) && sys.store.published == [m] && m.id in sys.store.messages
    ensures Possible(sys, Forwards(0, true))
    ensures var d := Act(u, sys, Forwards(0, true));
            Single(u, d, [], [Carries(m, 0)]) && d.store.published == [m] && m.id in d.store.messages
  {
    assert Waiting(sys.store.channels[0]) == [0];
    assert [] + [Carries(m, 0)] == [Carries(m, 0)];
  }

  lemma OneHandled(u: Setup, sys: System, m: Message, record: Telemetry)
    requires Single(u, sys, [], [Carries(m, 0)]) && sys.store.published == [m] && m.id in sys.store.messages
    requires u.decode(m.payload) == Some(record)
    ensures Possible(sys, Handles(true))
    ensures var d := Act(u, sys, Handles(true));
            && d.sink == [record] && d.unacked == Some(0) && d.acked == [] && d.faults == 0
            && d.store.published == [m] && m.id in d.store.messages
  {
  }
}
