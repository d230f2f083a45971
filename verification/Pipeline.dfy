/** One collector, its subscription sessions and the message store as one machine: publishers and
    other subscribers act on the store in between, streams fail, and the collector resubscribes. */
module Pipeline {
  import opened Wrappers
  import opened Models
  import opened MessageStore
  import Collectors
  import SubscriberService

  /** A response on the wire.  The message received from a closed channel is nil and arrives as an
      empty message.  index is the message's position in the publish history. */
  datatype Packet = Nil | Carries(message: Message, index: nat)

  /** One Subscribe call: the channel once the server has registered it, and the responses the
      collector has not received yet. */
  datatype Session = Session(channel: Option<nat>, wire: seq<Packet>)

  /** sink is what the collector stored and sources where each record was published; acked are the
      positions whose acknowledgment reached the store; faults counts failed streams, lost
      responses and rejected batches. */
  datatype System = System(store: State, sessions: seq<Session>, current: Option<nat>,
                           unacked: Option<nat>, sink: seq<Telemetry>, sources: seq<nat>,
                           acked: seq<nat>, faults: nat)

  const START: System := System(INIT, [], None, None, [], [], [], 0)

  /** What the system is configured with. */
  datatype Setup = Setup(decode: Decoder, topic: string, consumer: string)

  datatype Action =
    | Elsewhere(event: Event)                // publishers, other subscribers, cleanups, Close
    | Opens                                  // the collector starts a subscription
    | Attaches(session: nat)                 // the server registers the session's channel
    | Forwards(session: nat, sent: bool)     // the server's delivery loop passes one message on
    | Handles(stored: bool)                  // the collector receives, decodes and stores
    | Acks(arrives: bool)                    // the collector acknowledges what it stored
    | Fails                                  // the collector's receive fails

  predicate OwnsChannel(sys: System, ch: nat) {
    exists k :: 0 <= k < |sys.sessions| && sys.sessions[k].channel == Some(ch)
  }

  ghost predicate Possible(sys: System, a: Action) {
    match a
    case Elsewhere(e) => Enabled(sys.store, e) && (e.Receives? ==> !OwnsChannel(sys, e.channel))
    case Opens => sys.current.None?
    case Attaches(k) => k < |sys.sessions| && sys.sessions[k].channel.None?
    case Forwards(k, _) =>
      && k < |sys.sessions| && sys.sessions[k].channel.Some?
      && Enabled(sys.store, Receives(sys.sessions[k].channel.value))
    case Handles(_) =>
      && sys.current.Some? && sys.unacked.None?
      && sys.current.value < |sys.sessions| && sys.sessions[sys.current.value].wire != []
    case Acks(_) => sys.unacked.Some? && sys.unacked.value < |sys.store.published|
    case Fails => sys.current.Some? && sys.unacked.None?
  }

  /** The positions of the messages in a channel's buffer. */
  function Waiting(c: Channel): seq<nat> {
    var sent := Sent(c.offers, true);
    if |c.consumed| <= |sent| then sent[|c.consumed|..] else []
  }

  /** What the delivery loop receives from a channel. */
  function Received(c: Channel): Packet {
    if c.buffer == [] || Waiting(c) == [] then Nil else Carries(c.buffer[0], Waiting(c)[0])
  }

  function Payload(p: Packet): seq<Byte> {
    match p case Nil => [] case Carries(m, _) => m.payload
  }

  ghost function Act(u: Setup, sys: System, a: Action): System
    requires Possible(sys, a)
  {
    match a
    case Elsewhere(e) => sys.(store := Step(sys.store, e))
    case Opens => sys.(sessions := sys.sessions + [Session(None, [])], current := Some(|sys.sessions|))
    case Attaches(k) =>
      sys.(store := Subscribe(sys.store, u.topic),
           sessions := sys.sessions[k := sys.sessions[k].(channel := Some(|sys.store.channels|))])
    case Forwards(k, sent) =>
      var s := sys.sessions[k];
      var e := Receives(s.channel.value);
      var packet := Received(sys.store.channels[s.channel.value]);
      sys.(store := Step(sys.store, e),
           sessions := if sent then sys.sessions[k := s.(wire := s.wire + [packet])] else sys.sessions,
           faults := sys.faults + if sent then 0 else 1)
    case Handles(stored) =>
      var k := sys.current.value;
      var s := sys.sessions[k];
      var packet := s.wire[0];
      var rest := sys.(sessions := sys.sessions[k := s.(wire := s.wire[1..])]);
      var decoded := u.decode(Payload(packet));
      if decoded.None? then rest
      else if !stored then rest.(faults := sys.faults + 1)
      else
        rest.(sink := sys.sink + [decoded.value], sources := sys.sources + [packet.index],
              unacked := Some(packet.index))
    case Acks(arrives) =>
      var i := sys.unacked.value;
      if !arrives then sys.(unacked := None)
      else
        sys.(store := Acknowledge(sys.store, sys.store.published[i].id, u.consumer),
             acked := sys.acked + [i], unacked := None)
    case Fails => sys.(current := None, faults := sys.faults + 1)
  }

  ghost predicate Run(u: Setup, run: seq<System>, actions: seq<Action>) {
    && |run| == |actions| + 1
    && run[0] == START
    && forall i :: 0 <= i < |actions| ==> Possible(run[i], actions[i]) && run[i + 1] == Act(u, run[i], actions[i])
  }

  // ----- positions on their way to the sink -----

  function Positions(wire: seq<Packet>): seq<nat> {
    if wire == [] then []
    else (if wire[0].Nil? then [] else [wire[0].index]) + Positions(wire[1..])
  }

  /** The publishes on their way to the collector, in the order they will arrive. */
  function Line(sys: System): seq<nat> {
    if sys.current.Some? && sys.current.value < |sys.sessions| then
      var s := sys.sessions[sys.current.value];
      Positions(s.wire) + Behind(s, sys.store)
    else []
  }

  /** What waits in a session's channel. */
  function Behind(s: Session, store: State): seq<nat> {
    if s.channel.Some? && s.channel.value < |store.channels| then Waiting(store.channels[s.channel.value]) else []
  }

  ghost predicate Ascending(q: seq<nat>, bound: nat) {
    Increasing(q) && Within(q, bound)
  }

  /** The packet carries the message published at its position, and to this topic. */
  predicate Genuine(p: Packet, topic: string, published: seq<Message>) {
    p.Carries? ==> p.index < |published| && published[p.index] == p.message && p.message.topic == topic
  }

  ghost predicate SessionsOk(u: Setup, sys: System) {
    && (forall k :: 0 <= k < |sys.sessions| ==> SessionOk(sys.sessions[k], u, sys))
    && (forall k, l :: 0 <= k < l < |sys.sessions| && sys.sessions[k].channel.Some? ==>
          sys.sessions[k].channel != sys.sessions[l].channel)
    && (sys.current.Some? ==> sys.current.value < |sys.sessions|)
  }

  ghost predicate SessionOk(s: Session, u: Setup, sys: System) {
    && (s.channel.None? ==> s.wire == [])
    && (s.channel.Some? ==>
          s.channel.value < |sys.store.channels| && sys.store.channels[s.channel.value].topic == u.topic)
    && (forall i :: 0 <= i < |s.wire| ==> Genuine(s.wire[i], u.topic, sys.store.published))
  }

  /** Every record is what its publish decodes to. */
  ghost predicate SinkOk(u: Setup, sys: System) {
    && |sys.sink| == |sys.sources|
    && forall i :: 0 <= i < |sys.sink| ==> Decodes(u, sys.store.published, sys.sources[i], sys.sink[i])
  }

  predicate Decodes(u: Setup, published: seq<Message>, i: nat, record: Telemetry) {
    i < |published| && published[i].topic == u.topic && u.decode(published[i].payload) == Some(record)
  }

  /** An id is acknowledged only after its record is in the sink. */
  ghost predicate AcksOk(sys: System) {
    && Increasing(sys.acked)
    && (forall i :: 0 <= i < |sys.acked| ==> sys.acked[i] in sys.sources)
    && (sys.unacked.Some? ==>
          && sys.sources != [] && sys.unacked.value == sys.sources[|sys.sources| - 1]
          && (sys.acked != [] ==> sys.acked[|sys.acked| - 1] < sys.unacked.value))
  }

  ghost predicate Good(u: Setup, sys: System) {
    && Sound(sys.store)
    && SessionsOk(u, sys)
    && SinkOk(u, sys)
    && AcksOk(sys)
    && Ascending(sys.sources + Line(sys), |sys.store.published|)
  }

  // ----- channels and sessions through a step -----

  lemma WaitingIsBuffer(c: Channel, published: seq<Message>)
    requires Accounted(c, published)
    ensures |Waiting(c)| == |c.buffer| && Within(Waiting(c), |published|)
    ensures forall i :: 0 <= i < |c.buffer| ==> c.buffer[i] == published[Waiting(c)[i]]
    ensures |c.consumed| <= |Sent(c.offers, true)|
  {
    var sent := Sent(c.offers, true);
    assert |c.consumed + c.buffer| == |sent|;
    forall i | 0 <= i < |c.buffer|
      ensures c.buffer[i] == published[Waiting(c)[i]]
    {
      assert (c.consumed + c.buffer)[|c.consumed| + i] == c.buffer[i];
    }
  }

  lemma WaitingSend(c: Channel, published: seq<Message>, m: Message)
    requires Accounted(c, published)
    ensures var d := Send(c, m, |published|);
            Waiting(d) == if |c.buffer| < CAPACITY then Waiting(c) + [|published|] else Waiting(c)
  {
    hide Accounted, Sent;
    WaitingIsBuffer(c, published);
    SentSnoc(c.offers, Send(c, m, |published|).offers[|c.offers|], true);
  }

  lemma WaitingTake(c: Channel, published: seq<Message>)
    requires Accounted(c, published) && c.buffer != []
    ensures Waiting(c) != [] && Waiting(Take(c)) == Waiting(c)[1..]
  {
    hide Accounted, Sent;
    WaitingIsBuffer(c, published);
    SliceNext(Sent(c.offers, true), |c.consumed|);
  }

  lemma SliceNext(a: seq<nat>, k: nat)
    requires k < |a|
    ensures a[k..][1..] == a[k + 1..] && a[..k + 1] == a[..k] + [a[k]]
  {
  }

  /** What a store event does to the messages waiting in a channel. */
  lemma WaitingStep(s: State, e: Event, ch: nat)
    requires Sound(s) && Enabled(s, e) && ch < |s.channels|
    ensures ch < |Step(s, e).channels|
    ensures var c, d := s.channels[ch], Step(s, e).channels[ch];
            && d.topic == c.topic
            && (e.Stores? ==> Waiting(d) == Waiting(c) || Waiting(d) == Waiting(c) + [|s.published|])
            && (!e.Stores? && e != Receives(ch) ==> Waiting(d) == Waiting(c))
            && (e == Receives(ch) ==>
                  if c.buffer == [] then d == c else Waiting(c) != [] && Waiting(d) == Waiting(c)[1..])
  {
    ChannelStep(s, e, ch);
    HistoryStep(s, e);
    var c := s.channels[ch];
    assert Accounted(c, s.published);
    if e.Stores? { WaitingSend(c, s.published, Stamped(e.message, e.freshId, e.now)); }
    if c.buffer != [] { WaitingTake(c, s.published); }
    hide Step, Sound, Accounted;
  }

  lemma StoreStepKeeps(u: Setup, sys: System, e: Event)
    requires Sound(sys.store) && SessionsOk(u, sys) && SinkOk(u, sys) && Enabled(sys.store, e)
    ensures Sound(Step(sys.store, e))
    ensures var d := sys.(store := Step(sys.store, e)); SessionsOk(u, d) && SinkOk(u, d)
  {
    SoundStep(sys.store, e);
    HistoryStep(sys.store, e);
    var d := sys.(store := Step(sys.store, e));
    forall k | 0 <= k < |sys.sessions|
      ensures SessionOk(d.sessions[k], u, d)
    {
      var s := sys.sessions[k];
      assert SessionOk(s, u, sys);
      if s.channel.Some? { WaitingStep(sys.store, e, s.channel.value); }
      forall i | 0 <= i < |s.wire|
        ensures Genuine(s.wire[i], u.topic, d.store.published)
      {
        assert Genuine(s.wire[i], u.topic, sys.store.published);
      }
    }
    forall i | 0 <= i < |sys.sink|
      ensures Decodes(u, d.store.published, sys.sources[i], sys.sink[i])
    {
      assert Decodes(u, sys.store.published, sys.sources[i], sys.sink[i]);
    }
  }

  /** Unless the store's event takes from the session's channel, the line stays or grows at its end
      by the newest publish. */
  lemma BehindElsewhere(u: Setup, sys: System, e: Event, k: nat)
    requires Sound(sys.store) && SessionsOk(u, sys) && Enabled(sys.store, e) && k < |sys.sessions|
    requires e.Receives? ==> sys.sessions[k].channel != Some(e.channel)
    ensures var s, d := sys.sessions[k], Step(sys.store, e);
            Behind(s, d) == Behind(s, sys.store)
            || (e.Stores? && Behind(s, d) == Behind(s, sys.store) + [|sys.store.published|])
  {
    hide Step, Enabled, Waiting, Sound;
    var s := sys.sessions[k];
    assert SessionOk(s, u, sys);
    if s.channel.Some? { WaitingStep(sys.store, e, s.channel.value); }
  }

  lemma LineElsewhere(u: Setup, sys: System, e: Event)
    requires Sound(sys.store) && SessionsOk(u, sys) && Enabled(sys.store, e)
    requires e.Receives? && sys.current.Some? ==> sys.sessions[sys.current.value].channel != Some(e.channel)
    ensures var d := sys.(store := Step(sys.store, e));
            Line(d) == Line(sys) || (e.Stores? && Line(d) == Line(sys) + [|sys.store.published|])
  {
    hide Step, Enabled, Behind, Positions, Sound;
    if sys.current.Some? {
      var s := sys.sessions[sys.current.value];
      BehindElsewhere(u, sys, e, sys.current.value);
      Assoc(Positions(s.wire), Behind(s, sys.store), [|sys.store.published|]);
    }
  }

  lemma AscendingGrows(q: seq<nat>, n: nat)
    requires Ascending(q, n)
    ensures Ascending(q + [n], n + 1) && Ascending(q, n + 1)
  {
  }

  lemma ElsewhereGood(u: Setup, sys: System, e: Event)
    requires Good(u, sys) && Possible(sys, Elsewhere(e))
    ensures Good(u, Act(u, sys, Elsewhere(e)))
  {
    hide Step, Enabled, Line, SessionsOk, SinkOk, AcksOk, Sound, Ascending;
    StoreStepKeeps(u, sys, e);
    LineElsewhere(u, sys, e);
    HistoryStep(sys.store, e);
    var n := |sys.store.published|;
    AscendingGrows(sys.sources + Line(sys), n);
    Assoc(sys.sources, Line(sys), [n]);
    AcksKeep(sys, Step(sys.store, e));
  }

  lemma AcksKeep(sys: System, store: State)
    requires AcksOk(sys)
    ensures AcksOk(sys.(store := store))
  {
  }

  lemma OpensGood(u: Setup, sys: System)
    requires Good(u, sys) && sys.current.None?
    ensures Good(u, Act(u, sys, Opens))
  {
    hide Sound, SinkOk, AcksOk, Ascending, SessionsOk;
    var d := sys.(sessions := sys.sessions + [Session(None, [])], current := Some(|sys.sessions|));
    OpensSessions(u, sys, d);
    SinkKeeps(u, sys, d);
    assert Line(d) == [] == Line(sys);
  }

  lemma OpensSessions(u: Setup, sys: System, d: System)
    requires SessionsOk(u, sys)
    requires d == sys.(sessions := sys.sessions + [Session(None, [])], current := Some(|sys.sessions|))
    ensures SessionsOk(u, d)
  {
    forall k | 0 <= k < |d.sessions|
      ensures SessionOk(d.sessions[k], u, d)
    {
      assert k < |sys.sessions| ==> SessionOk(sys.sessions[k], u, sys);
    }
  }

  /** What the sink holds does not depend on the sessions. */
  lemma SinkKeeps(u: Setup, sys: System, d: System)
    requires d.store.published == sys.store.published && d.sink == sys.sink && d.sources == sys.sources
    requires d.acked == sys.acked && d.unacked == sys.unacked
    ensures SinkOk(u, sys) ==> SinkOk(u, d)
    ensures AcksOk(sys) ==> AcksOk(d)
  {
  }

  lemma AttachesGood(u: Setup, sys: System, k: nat)
    requires Good(u, sys) && Possible(sys, Attaches(k))
    ensures Good(u, Act(u, sys, Attaches(k)))
  {
    var e := Subscribes(u.topic);
    var m, d := sys.(store := Step(sys.store, e)), Act(u, sys, Attaches(k));
    hide Sound, SessionsOk, SinkOk, AcksOk, Ascending, Line;
    StoreStepKeeps(u, sys, e);
    LineElsewhere(u, sys, e);
    HistoryStep(sys.store, e);
    AttachesSessions(u, sys, m, d, k);
    SinkKeeps(u, m, d);
    AcksKeep(sys, m.store);
  }

  lemma AttachesSessions(u: Setup, sys: System, m: System, d: System, k: nat)
    requires SessionsOk(u, sys) && SessionsOk(u, m) && Possible(sys, Attaches(k))
    requires m == sys.(store := Step(sys.store, Subscribes(u.topic)))
    requires d == Act(u, sys, Attaches(k))
    ensures SessionsOk(u, d) && Line(d) == Line(m)
  {
    var n := |sys.store.channels|;
    assert d == m.(sessions := sys.sessions[k := sys.sessions[k].(channel := Some(n))]);
    assert m.store.channels[n] == Fresh(u.topic, |sys.store.published|);
    forall l | 0 <= l < |d.sessions|
      ensures SessionOk(d.sessions[l], u, d)
    {
      assert SessionOk(sys.sessions[l], u, sys) && SessionOk(m.sessions[l], u, m);
    }
  }

  lemma {:induction false} PositionsSnoc(wire: seq<Packet>, p: Packet)
    ensures Positions(wire + [p]) == Positions(wire) + if p.Nil? then [] else [p.index]
  {
    if wire == [] {
    } else {
      PositionsSnoc(wire[1..], p);
      assert (wire + [p])[1..] == wire[1..] + [p];
    }
  }

  lemma AscendingDrops(a: seq<nat>, x: nat, b: seq<nat>, n: nat)
    requires Ascending(a + ([x] + b), n)
    ensures Ascending(a + b, n)
  {
    var q := a + ([x] + b);
    forall i | 0 <= i < |a + b|
      ensures (a + b)[i] == q[if i < |a| then i else i + 1]
    {
    }
  }

  lemma ReceivedIsGenuine(u: Setup, sys: System, k: nat)
    requires Good(u, sys) && Possible(sys, Forwards(k, true))
    ensures var c := sys.store.channels[sys.sessions[k].channel.value];
            Genuine(Received(c), u.topic, sys.store.published)
            && (Received(c).Nil? <==> c.buffer == []) && (c.buffer == [] <==> Waiting(c) == [])
  {
    var ch := sys.sessions[k].channel.value;
    assert SessionOk(sys.sessions[k], u, sys);
    var c := sys.store.channels[ch];
    assert Accounted(c, sys.store.published);
    WaitingIsBuffer(c, sys.store.published);
    if Waiting(c) != [] { WaitingOfTopic(c, sys.store.published); }
  }

  lemma WaitingOfTopic(c: Channel, published: seq<Message>)
    requires Accounted(c, published) && Waiting(c) != []
    ensures Waiting(c)[0] < |published| && published[Waiting(c)[0]].topic == c.topic
  {
    PublishesAreAll(published, c.topic, c.born, End(c, |published|));
    assert Increasing(Indices(c.offers));
    SentOrdered(c.offers, true);
    assert Waiting(c)[0] == Sent(c.offers, true)[|c.consumed|];
    assert Waiting(c)[0] in Indices(c.offers);
  }

  lemma ForwardsSessions(u: Setup, sys: System, k: nat, sent: bool)
    requires Good(u, sys) && Possible(sys, Forwards(k, sent))
    ensures SessionsOk(u, Act(u, sys, Forwards(k, sent)))
  {
    var e := Receives(sys.sessions[k].channel.value);
    StoreStepKeeps(u, sys, e);
    HistoryStep(sys.store, e);
    ReceivedIsGenuine(u, sys, k);
    hide Sound, Received, Step, SessionsOk, SinkOk, AcksOk;
    var m, d := sys.(store := Step(sys.store, e)), Act(u, sys, Forwards(k, sent));
    var packet := Received(sys.store.channels[sys.sessions[k].channel.value]);
    WireGrows(u, m, d, k, packet, sent);
  }

  lemma WireGrows(u: Setup, m: System, d: System, k: nat, packet: Packet, sent: bool)
    requires SessionsOk(u, m) && k < |m.sessions| && m.sessions[k].channel.Some?
    requires Genuine(packet, u.topic, m.store.published)
    requires var s := m.sessions[k];
             d == m.(sessions := if sent then m.sessions[k := s.(wire := s.wire + [packet])] else m.sessions,
                     faults := d.faults)
    ensures SessionsOk(u, d)
  {
    forall l | 0 <= l < |d.sessions|
      ensures SessionOk(d.sessions[l], u, d)
    {
      assert SessionOk(m.sessions[l], u, m);
    }
  }

  lemma ForwardsLine(u: Setup, sys: System, k: nat, sent: bool)
    requires Good(u, sys) && Possible(sys, Forwards(k, sent))
    ensures var d := Act(u, sys, Forwards(k, sent));
            Ascending(d.sources + Line(d), |d.store.published|)
  {
    var d, e := Act(u, sys, Forwards(k, sent)), Receives(sys.sessions[k].channel.value);
    HistoryStep(sys.store, e);
    if sys.current == Some(k) {
      ForwardsOwn(u, sys, k, sent);
    } else {
      LineElsewhere(u, sys, e);
      assert Line(d) == Line(sys.(store := Step(sys.store, e)));
    }
  }

  lemma ForwardsOwn(u: Setup, sys: System, k: nat, sent: bool)
    requires Good(u, sys) && Possible(sys, Forwards(k, sent)) && sys.current == Some(k)
    ensures var d := Act(u, sys, Forwards(k, sent));
            Ascending(d.sources + Line(d), |sys.store.published|)
  {
    ForwardsOwnLine(u, sys, k, sent);
    var s := sys.sessions[k];
    var w := Waiting(sys.store.channels[s.channel.value]);
    if w != [] && !sent { LosesHead(sys.sources, Positions(s.wire), w, |sys.store.published|); }
    hide Ascending, Waiting, Positions, Line, Sound, Step;
  }

  lemma LosesHead(a: seq<nat>, p: seq<nat>, w: seq<nat>, n: nat)
    requires Ascending(a + (p + w), n) && w != []
    ensures Ascending(a + (p + w[1..]), n)
  {
    assert a + (p + w) == (a + p) + ([w[0]] + w[1..]);
    AscendingDrops(a + p, w[0], w[1..], n);
    assert (a + p) + w[1..] == a + (p + w[1..]);
  }

  /** The head of the channel's waiting messages moves to the end of the wire, or is lost. */
  lemma ForwardsOwnLine(u: Setup, sys: System, k: nat, sent: bool)
    requires Good(u, sys) && Possible(sys, Forwards(k, sent)) && sys.current == Some(k)
    ensures var s := sys.sessions[k];
            s.channel.value < |sys.store.channels|
            && var w := Waiting(sys.store.channels[s.channel.value]);
            && Line(sys) == Positions(s.wire) + w
            && Line(Act(u, sys, Forwards(k, sent))) == Positions(s.wire) + if sent || w == [] then w else w[1..]
  {
    var s, d := sys.sessions[k], Act(u, sys, Forwards(k, sent));
    var ch := s.channel.value;
    ReceivedIsGenuine(u, sys, k);
    WaitingStep(sys.store, Receives(ch), ch);
    ForwardsOne(s, sys.store.channels[ch], sys.store, d.store, sent);
    hide Good, Sound, Step, Received, Waiting, Positions;
  }

  lemma HeadJoins(p: seq<nat>, w: seq<nat>)
    requires w != []
    ensures (p + [w[0]]) + w[1..] == p + w
  {
  }

  lemma ForwardsOne(s: Session, c: Channel, store: State, later: State, sent: bool)
    requires s.channel.Some? && s.channel.value < |store.channels| && s.channel.value < |later.channels|
    requires c == store.channels[s.channel.value]
    requires Received(c).Nil? <==> c.buffer == []
    requires c.buffer == [] <==> Waiting(c) == []
    requires var w := Waiting(later.channels[s.channel.value]);
             w == if c.buffer == [] then Waiting(c) else Waiting(c)[1..]
    ensures var wire := if sent then s.wire + [Received(c)] else s.wire;
            Positions(wire) + Behind(s, later) == Positions(s.wire)
              + if sent || c.buffer == [] then Waiting(c) else Waiting(c)[1..]
  {
    PositionsSnoc(s.wire, Received(c));
    if c.buffer != [] { HeadJoins(Positions(s.wire), Waiting(c)); }
    assert Positions(s.wire) + [] == Positions(s.wire);
    hide Positions, Waiting;
  }

  lemma ForwardsGood(u: Setup, sys: System, k: nat, sent: bool)
    requires Good(u, sys) && Possible(sys, Forwards(k, sent))
    ensures Good(u, Act(u, sys, Forwards(k, sent)))
  {
    var e := Receives(sys.sessions[k].channel.value);
    StoreStepKeeps(u, sys, e);
    ForwardsSessions(u, sys, k, sent);
    ForwardsLine(u, sys, k, sent);
    ForwardsRest(u, sys, k, sent);
    hide Act, SinkOk, SessionsOk, AcksOk, Sound, Ascending;
  }

  lemma ForwardsRest(u: Setup, sys: System, k: nat, sent: bool)
    requires Good(u, sys) && Possible(sys, Forwards(k, sent))
    ensures var d := Act(u, sys, Forwards(k, sent)); Sound(d.store) && SinkOk(u, d) && AcksOk(d)
  {
    var e := Receives(sys.sessions[k].channel.value);
    StoreStepKeeps(u, sys, e);
    hide Step, Sound, SessionsOk, Ascending;
  }

  lemma HandlesSessions(u: Setup, sys: System, stored: bool)
    requires SessionsOk(u, sys) && Possible(sys, Handles(stored))
    ensures SessionsOk(u, Act(u, sys, Handles(stored)))
  {
    var d := Act(u, sys, Handles(stored));
    forall l | 0 <= l < |d.sessions|
      ensures SessionOk(d.sessions[l], u, d)
    {
      assert SessionOk(sys.sessions[l], u, sys);
    }
  }

  lemma HandlesSink(u: Setup, sys: System, stored: bool)
    requires SessionsOk(u, sys) && SinkOk(u, sys) && Possible(sys, Handles(stored))
    ensures SinkOk(u, Act(u, sys, Handles(stored)))
  {
    var s, d := sys.sessions[sys.current.value], Act(u, sys, Handles(stored));
    assert SessionOk(s, u, sys) && Genuine(s.wire[0], u.topic, sys.store.published);
    forall i | 0 <= i < |d.sink|
      ensures Decodes(u, d.store.published, d.sources[i], d.sink[i])
    {
      assert i < |sys.sink| ==> Decodes(u, sys.store.published, sys.sources[i], sys.sink[i]);
    }
  }

  lemma HandlesGood(u: Setup, sys: System, stored: bool)
    requires Good(u, sys) && Possible(sys, Handles(stored))
    ensures Good(u, Act(u, sys, Handles(stored)))
  {
    HandlesSessions(u, sys, stored);
    HandlesSink(u, sys, stored);
    HandlesLine(u, sys, stored);
    HandlesAcks(u, sys, stored);
    assert Act(u, sys, Handles(stored)).store == sys.store;
    hide Act, SinkOk, SessionsOk, AcksOk, Sound, Ascending;
  }

  lemma HandlesLine(u: Setup, sys: System, stored: bool)
    requires Good(u, sys) && Possible(sys, Handles(stored))
    ensures var d := Act(u, sys, Handles(stored));
            Ascending(d.sources + Line(d), |d.store.published|)
  {
    hide Sound, SessionsOk, SinkOk, AcksOk, Ascending;
    var s, d := sys.sessions[sys.current.value], Act(u, sys, Handles(stored));
    LineHead(s, sys.store);
    hide Positions, Behind;
    var rest := Positions(s.wire[1..]) + Behind(s, sys.store);
    assert Line(d) == rest;
    if s.wire[0].Carries? {
      assert Line(sys) == [s.wire[0].index] + rest;
      HeadMoves(sys.sources, s.wire[0].index, rest, |sys.store.published|);
    }
    hide Line;
  }

  lemma LineHead(s: Session, store: State)
    requires s.wire != []
    ensures var rest := Positions(s.wire[1..]) + Behind(s, store);
            Positions(s.wire) + Behind(s, store) == if s.wire[0].Nil? then rest else [s.wire[0].index] + rest
  {
    hide Behind;
    var later := Positions(s.wire[1..]);
    if s.wire[0].Nil? {
      assert Positions(s.wire) == later;
    } else {
      assert Positions(s.wire) == [s.wire[0].index] + later;
      Assoc([s.wire[0].index], later, Behind(s, store));
    }
  }

  lemma HeadMoves(a: seq<nat>, x: nat, rest: seq<nat>, n: nat)
    requires Ascending(a + ([x] + rest), n)
    ensures Ascending((a + [x]) + rest, n) && Ascending(a + rest, n)
  {
    AscendingDrops(a, x, rest, n);
    assert a + ([x] + rest) == (a + [x]) + rest;
  }

  lemma HandlesAcks(u: Setup, sys: System, stored: bool)
    requires Good(u, sys) && Possible(sys, Handles(stored))
    ensures AcksOk(Act(u, sys, Handles(stored)))
  {
    var d := Act(u, sys, Handles(stored));
    HandlesLine(u, sys, stored);
    forall i | 0 <= i < |sys.acked|
      ensures sys.acked[i] in d.sources && (d.unacked.Some? ==> sys.acked[i] < d.unacked.value)
    {
      var j :| 0 <= j < |sys.sources| && sys.sources[j] == sys.acked[i];
      assert d.sources[j] == sys.sources[j] == (d.sources + Line(d))[j];
      if d.unacked.Some? {
        assert (d.sources + Line(d))[|sys.sources|] == d.unacked.value;
      }
    }
  }

  lemma AcksGood(u: Setup, sys: System, arrives: bool)
    requires Good(u, sys) && Possible(sys, Acks(arrives))
    ensures Good(u, Act(u, sys, Acks(arrives)))
  {
    var i := sys.unacked.value;
    var e := Acknowledges(sys.store.published[i].id, u.consumer);
    StoreStepKeeps(u, sys, e);
    LineElsewhere(u, sys, e);
    HistoryStep(sys.store, e);
    var m, d := sys.(store := Step(sys.store, e)), Act(u, sys, Acks(arrives));
    assert if arrives then Step(sys.store, e) == d.store else d.store == sys.store;
    AcksLast(sys, d);
    hide Sound, Ascending, Step, AcksOk;
    assert SessionsOk(u, d) && SinkOk(u, d) && Line(d) == Line(sys);
    hide SessionsOk, SinkOk, Line;
  }

  lemma AcksLast(sys: System, d: System)
    requires AcksOk(sys) && sys.unacked.Some? && d.unacked.None? && d.sources == sys.sources
    requires d.acked == sys.acked || d.acked == sys.acked + [sys.unacked.value]
    ensures AcksOk(d)
  {
    var i := sys.unacked.value;
    forall j | 0 <= j < |d.acked|
      ensures d.acked[j] in d.sources && (j < |sys.acked| ==> d.acked[j] < i)
    {
      assert j < |sys.acked| ==> sys.acked[j] <= sys.acked[|sys.acked| - 1];
    }
  }

  lemma FailsGood(u: Setup, sys: System)
    requires Good(u, sys) && Possible(sys, Fails)
    ensures Good(u, Act(u, sys, Fails))
  {
    var d := Act(u, sys, Fails);
    forall k | 0 <= k < |d.sessions|
      ensures SessionOk(d.sessions[k], u, d)
    {
      assert SessionOk(sys.sessions[k], u, sys);
    }
    var q := sys.sources + Line(sys);
    assert forall i :: 0 <= i < |sys.sources| ==> q[i] == sys.sources[i];
    assert d.sources + Line(d) == sys.sources;
  }

  lemma ActGood(u: Setup, sys: System, a: Action)
    requires Good(u, sys) && Possible(sys, a)
    ensures Good(u, Act(u, sys, a))
  {
    hide Good, Act, Enabled, OwnsChannel;
    match a
    case Elsewhere(e) => ElsewhereGood(u, sys, e);
    case Opens => OpensGood(u, sys);
    case Attaches(k) => AttachesGood(u, sys, k);
    case Forwards(k, sent) => ForwardsGood(u, sys, k, sent);
    case Handles(stored) => HandlesGood(u, sys, stored);
    case Acks(arrives) => AcksGood(u, sys, arrives);
    case Fails => FailsGood(u, sys);
  }

  lemma StartGood(u: Setup)
    ensures Good(u, START)
  {
    assert Line(START) == [];
  }

  lemma {:induction false} AlwaysGood(u: Setup, run: seq<System>, actions: seq<Action>, i: nat)
    requires Run(u, run, actions) && i < |run|
    ensures Good(u, run[i])
  {
    hide Act, Good, Possible;
    if i == 0 {
      StartGood(u);
    } else {
      AlwaysGood(u, run, actions, i - 1);
      ActGood(u, run[i - 1], actions[i - 1]);
    }
  }

  // ----- the main results -----

  /** The records are decoded publishes to the topic, in publish order, each publish at most once. */
  ghost predicate InOrderAtMostOnce(u: Setup, sink: seq<Telemetry>, published: seq<Message>) {
    exists at: seq<nat> :: Increasing(at) && DecodesAll(u, published, at, sink)
  }

  ghost predicate DecodesAll(u: Setup, published: seq<Message>, at: seq<nat>, sink: seq<Telemetry>) {
    |at| == |sink| && forall i :: 0 <= i < |sink| ==> Decodes(u, published, at[i], sink[i])
  }

  /** Over every run, whatever streams fail and whenever the collector resubscribes. */
  lemma SinkInOrderAtMostOnce(u: Setup, run: seq<System>, actions: seq<Action>, i: nat)
    requires Run(u, run, actions) && i < |run|
    ensures InOrderAtMostOnce(u, run[i].sink, run[i].store.published)
  {
    AlwaysGood(u, run, actions, i);
    var sys := run[i];
    var q := sys.sources + Line(sys);
    assert forall k :: 0 <= k < |sys.sources| ==> q[k] == sys.sources[k];
    assert DecodesAll(u, sys.store.published, sys.sources, sys.sink);
  }

  /** The sink holds the record of the message published at position x. */
  ghost predicate Stored(u: Setup, sys: System, x: nat) {
    exists j :: 0 <= j < |sys.sink| && j < |sys.sources| && sys.sources[j] == x
                && Decodes(u, sys.store.published, x, sys.sink[j])
  }

  /** What is acknowledged has its record in the sink, and is acknowledged once. */
  lemma AckedIsStored(u: Setup, run: seq<System>, actions: seq<Action>, i: nat)
    requires Run(u, run, actions) && i < |run|
    ensures Increasing(run[i].acked) && forall k :: 0 <= k < |run[i].acked| ==> Stored(u, run[i], run[i].acked[k])
  {
    AlwaysGood(u, run, actions, i);
    var sys := run[i];
    forall k | 0 <= k < |sys.acked|
      ensures Stored(u, sys, sys.acked[k])
    {
      assert sys.acked[k] in sys.sources;
      var j :| 0 <= j < |sys.sources| && sys.sources[j] == sys.acked[k];
      assert Decodes(u, sys.store.published, sys.sources[j], sys.sink[j]);
    }
  }

  // ----- nothing is lost without faults -----

  /** The positions whose messages decode. */
  function Decodable(u: Setup, published: seq<Message>, at: seq<nat>): seq<nat> {
    if at == [] then []
    else
      var rest := Decodable(u, published, at[1..]);
      if at[0] < |published| && u.decode(published[at[0]].payload).Some? then [at[0]] + rest else rest
  }

  lemma {:induction false} DecodableConcat(u: Setup, published: seq<Message>, a: seq<nat>, b: seq<nat>)
    ensures Decodable(u, published, a + b) == Decodable(u, published, a) + Decodable(u, published, b)
  {
    if a == [] {
      assert a + b == b;
    } else {
      assert (a + b)[1..] == a[1..] + b;
      DecodableConcat(u, published, a[1..], b);
    }
  }

  lemma {:induction false} DecodablePrefix(u: Setup, published: seq<Message>, more: seq<Message>, at: seq<nat>)
    requires Within(at, |published|)
    ensures Decodable(u, published + more, at) == Decodable(u, published, at)
  {
    if at == [] {
    } else {
      DecodablePrefix(u, published, more, at[1..]);
    }
  }

  /** The positions the delivery loop has taken from a channel. */
  function Passed(c: Channel): seq<nat> {
    var sent := Sent(c.offers, true);
    if |c.consumed| <= |sent| then sent[..|c.consumed|] else sent
  }

  /** Without faults there is one session, and what its channel passed on is stored or on the wire,
      except for what does not decode. */
  ghost predicate Lossless(u: Setup, sys: System) {
    sys.faults == 0 ==>
      if sys.sessions == [] then sys.current.None? && sys.sources == []
      else
        var s := sys.sessions[0];
        && |sys.sessions| == 1 && sys.current == Some(0)
        && (s.channel.None? ==> sys.sources == [])
        && (s.channel.Some? && s.channel.value < |sys.store.channels| ==>
              StoredOrComing(u, sys, s.wire, sys.store.channels[s.channel.value]))
  }

  ghost predicate StoredOrComing(u: Setup, sys: System, wire: seq<Packet>, c: Channel) {
    Decodable(u, sys.store.published, Passed(c)) == sys.sources + Decodable(u, sys.store.published, Positions(wire))
  }

  lemma PassedStep(s: State, e: Event, ch: nat)
    requires Sound(s) && Enabled(s, e) && ch < |s.channels|
    ensures ch < |Step(s, e).channels|
    ensures var c, d := s.channels[ch], Step(s, e).channels[ch];
            if e == Receives(ch) && c.buffer != []
            then Waiting(c) != [] && Passed(d) == Passed(c) + [Waiting(c)[0]]
            else Passed(d) == Passed(c)
  {
    ChannelStep(s, e, ch);
    HistoryStep(s, e);
    var c := s.channels[ch];
    assert Accounted(c, s.published);
    if e.Stores? { PassedSend(c, s.published, Stamped(e.message, e.freshId, e.now)); }
    if c.buffer != [] { PassedTake(c, s.published); }
    hide Step, Sound, Accounted;
  }

  lemma PassedSend(c: Channel, published: seq<Message>, m: Message)
    requires Accounted(c, published)
    ensures Passed(Send(c, m, |published|)) == Passed(c)
  {
    hide Accounted, Sent;
    WaitingIsBuffer(c, published);
    SentSnoc(c.offers, Send(c, m, |published|).offers[|c.offers|], true);
  }

  lemma PassedTake(c: Channel, published: seq<Message>)
    requires Accounted(c, published) && c.buffer != []
    ensures Waiting(c) != [] && Passed(Take(c)) == Passed(c) + [Waiting(c)[0]]
  {
    hide Accounted, Sent;
    WaitingIsBuffer(c, published);
    SliceNext(Sent(c.offers, true), |c.consumed|);
  }

  lemma {:induction false} PositionsWithin(wire: seq<Packet>, topic: string, published: seq<Message>)
    requires forall i :: 0 <= i < |wire| ==> Genuine(wire[i], topic, published)
    ensures Within(Positions(wire), |published|)
  {
    if wire == [] {
    } else {
      PositionsWithin(wire[1..], topic, published);
    }
  }

  lemma StoredOrComingLater(u: Setup, sys: System, d: System, wire: seq<Packet>, c: Channel, d': Channel)
    requires StoredOrComing(u, sys, wire, c) && Passed(d') == Passed(c) && d.sources == sys.sources
    requires sys.store.published <= d.store.published
    requires Accounted(c, sys.store.published)
    requires forall i :: 0 <= i < |wire| ==> Genuine(wire[i], u.topic, sys.store.published)
    ensures StoredOrComing(u, d, wire, d')
  {
    var n := |sys.store.published|;
    var more := d.store.published[n..];
    assert d.store.published == sys.store.published + more;
    PositionsWithin(wire, u.topic, sys.store.published);
    DecodablePrefix(u, sys.store.published, more, Positions(wire));
    assert Within(Passed(c), n);
    DecodablePrefix(u, sys.store.published, more, Passed(c));
  }

  lemma LosslessStoreStep(u: Setup, sys: System, e: Event)
    requires Good(u, sys) && Lossless(u, sys) && Enabled(sys.store, e)
    requires e.Receives? ==> !OwnsChannel(sys, e.channel)
    ensures Lossless(u, sys.(store := Step(sys.store, e)))
  {
    var d := sys.(store := Step(sys.store, e));
    HistoryStep(sys.store, e);
    if sys.faults == 0 && sys.sessions != [] && sys.sessions[0].channel.Some? {
      var s := sys.sessions[0];
      var ch := s.channel.value;
      assert SessionOk(s, u, sys);
      PassedStep(sys.store, e, ch);
      assert Accounted(sys.store.channels[ch], sys.store.published);
      hide Sound, Accounted, Step, SessionsOk, SinkOk, AcksOk, Ascending;
      StoredOrComingLater(u, sys, d, s.wire, sys.store.channels[ch], d.store.channels[ch]);
    }
  }

  lemma WireTail(u: Setup, published: seq<Message>, passed: seq<nat>, sources: seq<nat>, wire: seq<Packet>, p: Packet)
    requires Decodable(u, published, passed) == sources + Decodable(u, published, Positions(wire))
    ensures Decodable(u, published, if p.Nil? then passed else passed + [p.index])
         == sources + Decodable(u, published, Positions(wire + [p]))
  {
    PositionsSnoc(wire, p);
    if p.Nil? {
      assert Positions(wire) + [] == Positions(wire);
    } else {
      DecodableConcat(u, published, passed, [p.index]);
      DecodableConcat(u, published, Positions(wire), [p.index]);
    }
  }

  predicate Arrives(u: Setup, published: seq<Message>, p: Packet) {
    p.Carries? && p.index < |published| && u.decode(published[p.index].payload).Some?
  }

  lemma {:induction false} WireHead(u: Setup, published: seq<Message>, total: seq<nat>, sources: seq<nat>,
                                    wire: seq<Packet>)
    requires wire != [] && total == sources + Decodable(u, published, Positions(wire))
    ensures var now := if Arrives(u, published, wire[0]) then sources + [wire[0].index] else sources;
            total == now + Decodable(u, published, Positions(wire[1..]))
  {
    var at, later := Positions(wire), Decodable(u, published, Positions(wire[1..]));
    if wire[0].Carries? {
      var x := wire[0].index;
      assert at[0] == x && at[1..] == Positions(wire[1..]);
      if Arrives(u, published, wire[0]) {
        assert Decodable(u, published, at) == [x] + later;
        hide Decodable, Positions, Arrives;
        assert sources + ([x] + later) == (sources + [x]) + later;
      } else {
        assert Decodable(u, published, at) == later;
      }
    } else {
      assert at == Positions(wire[1..]);
    }
  }

  lemma LosslessForwards(u: Setup, sys: System, k: nat, sent: bool)
    requires Good(u, sys) && Lossless(u, sys) && Possible(sys, Forwards(k, sent))
    ensures Lossless(u, Act(u, sys, Forwards(k, sent)))
  {
    if sys.faults == 0 && sent {
      var s, d := sys.sessions[0], Act(u, sys, Forwards(k, sent));
      var ch := s.channel.value;
      var e := Receives(ch);
      assert SessionOk(s, u, sys);
      ReceivedIsGenuine(u, sys, 0);
      PassedStep(sys.store, e, ch);
      HistoryStep(sys.store, e);
      var c := sys.store.channels[ch];
      WireTail(u, sys.store.published, Passed(c), sys.sources, s.wire, Received(c));
      hide Sound, Step, SessionsOk, SinkOk, AcksOk, Ascending, Passed, Decodable, Positions;
    }
  }

  lemma LosslessHandles(u: Setup, sys: System, stored: bool)
    requires SessionsOk(u, sys) && Lossless(u, sys) && Possible(sys, Handles(stored))
    ensures Lossless(u, Act(u, sys, Handles(stored)))
  {
    if sys.faults == 0 {
      var s, d := sys.sessions[0], Act(u, sys, Handles(stored));
      var published := sys.store.published;
      assert SessionOk(s, u, sys) && Genuine(s.wire[0], u.topic, published);
      var c := sys.store.channels[s.channel.value];
      WireHead(u, published, Decodable(u, published, Passed(c)), sys.sources, s.wire);
      hide SessionsOk, Passed, Decodable, Positions;
      assert d.faults == 0 ==> StoredOrComing(u, d, s.wire[1..], c);
    }
  }

  lemma ActLossless(u: Setup, sys: System, a: Action)
    requires Good(u, sys) && Lossless(u, sys) && Possible(sys, a)
    ensures Lossless(u, Act(u, sys, a))
  {
    hide Good, Lossless, Enabled, OwnsChannel, Step;
    match a
    case Elsewhere(e) => LosslessStoreStep(u, sys, e);
    case Acks(arrives) => LosslessAcks(u, sys, arrives);
    case Attaches(k) => LosslessAttaches(u, sys, k);
    case Forwards(k, sent) => LosslessForwards(u, sys, k, sent);
    case Handles(stored) => GoodSessions(u, sys); LosslessHandles(u, sys, stored);
    case Opens => LosslessOpens(u, sys);
    case Fails => LosslessFails(u, sys);
  }

  lemma GoodSessions(u: Setup, sys: System)
    requires Good(u, sys)
    ensures SessionsOk(u, sys)
  {
  }

  lemma LosslessAcks(u: Setup, sys: System, arrives: bool)
    requires Good(u, sys) && Lossless(u, sys) && Possible(sys, Acks(arrives))
    ensures Lossless(u, Act(u, sys, Acks(arrives)))
  {
    hide Good, Acknowledge, Decodable, Positions, Passed;
    LosslessStoreStep(u, sys, Acknowledges(sys.store.published[sys.unacked.value].id, u.consumer));
  }

  lemma LosslessAttaches(u: Setup, sys: System, k: nat)
    requires Good(u, sys) && Lossless(u, sys) && Possible(sys, Attaches(k))
    ensures Lossless(u, Act(u, sys, Attaches(k)))
  {
    hide Sound, SinkOk, AcksOk, Ascending;
    if sys.faults == 0 {
      assert SessionOk(sys.sessions[k], u, sys);
      assert Passed(Fresh(u.topic, |sys.store.published|)) == [];
    }
  }

  lemma LosslessOpens(u: Setup, sys: System)
    requires Lossless(u, sys) && Possible(sys, Opens)
    ensures Lossless(u, Act(u, sys, Opens))
  {
  }

  lemma LosslessFails(u: Setup, sys: System)
    requires Lossless(u, sys) && Possible(sys, Fails)
    ensures Lossless(u, Act(u, sys, Fails))
  {
  }

  lemma {:induction false} AlwaysLossless(u: Setup, run: seq<System>, actions: seq<Action>, i: nat)
    requires Run(u, run, actions) && i < |run|
    ensures Lossless(u, run[i])
  {
    assert Lossless(u, START);
    hide Act, Good, Lossless, Possible;
    if i == 0 {
    } else {
      AlwaysGood(u, run, actions, i - 1);
      AlwaysLossless(u, run, actions, i - 1);
      ActLossless(u, run[i - 1], actions[i - 1]);
    }
  }

  /** If no stream failed, no response was lost and no batch rejected, then at every moment the sink
      and what is still on its way make up what the channel was sent, in order, except for what does
      not decode. */
  lemma {:induction false} NothingLostWithoutFaults(u: Setup, run: seq<System>, actions: seq<Action>, i: nat, ch: nat)
    requires Run(u, run, actions) && i < |run|
    requires run[i].faults == 0 && run[i].sessions != [] && run[i].sessions[0].channel == Some(ch)
    ensures ch < |run[i].store.channels|
    ensures var published, c, wire := run[i].store.published, run[i].store.channels[ch], run[i].sessions[0].wire;
            var coming := Decodable(u, published, Positions(wire) + Waiting(c));
            && run[i].sources + coming == Decodable(u, published, Sent(c.offers, true))
            && DecodesAll(u, published, run[i].sources, run[i].sink)
  {
    hide Decodable, Positions, Sound, Accounted;
    AlwaysGood(u, run, actions, i);
    AlwaysLossless(u, run, actions, i);
    var sys := run[i];
    assert SessionOk(sys.sessions[0], u, sys);
    var published, c, wire := sys.store.published, sys.store.channels[ch], sys.sessions[0].wire;
    SoundAccounts(sys.store, ch);
    SentIsPassedAndWaiting(c, published);
    assert StoredOrComing(u, sys, wire, c);
    DecodableConcat(u, published, Passed(c), Waiting(c));
    DecodableConcat(u, published, Positions(wire), Waiting(c));
    Assoc(sys.sources, Decodable(u, published, Positions(wire)), Decodable(u, published, Waiting(c)));
  }

  lemma SentIsPassedAndWaiting(c: Channel, published: seq<Message>)
    requires Accounted(c, published)
    ensures Sent(c.offers, true) == Passed(c) + Waiting(c)
  {
    WaitingIsBuffer(c, published);
  }

  /** So if moreover the channel dropped nothing, the sink holds every decodable publish since the
      subscription exactly once as soon as nothing is on its way. */
  lemma {:induction false} ExactlyOnceWithoutFaults(u: Setup, run: seq<System>, actions: seq<Action>, i: nat, ch: nat)
    requires Run(u, run, actions) && i < |run|
    requires run[i].faults == 0 && run[i].sessions != [] && run[i].sessions[0].channel == Some(ch)
    ensures ch < |run[i].store.channels|
    ensures var published, c := run[i].store.published, run[i].store.channels[ch];
            && End(c, |published|) <= |published|
            && (Sent(c.offers, false) == [] && c.buffer == [] && run[i].sessions[0].wire == [] ==>
                  DecodesAll(u, published, Decodable(u, published, Due(c, published)), run[i].sink))
  {
    hide Decodable, Sound, Waiting, Positions;
    NothingLostWithoutFaults(u, run, actions, i, ch);
    AlwaysGood(u, run, actions, i);
    var sys := run[i];
    var published, c := sys.store.published, sys.store.channels[ch];
    SoundAccounts(sys.store, ch);
    if Sent(c.offers, false) == [] && c.buffer == [] && sys.sessions[0].wire == [] {
      PassedAll(c, published);
      NothingComing(u, published, c);
    }
  }

  lemma {:induction false} NothingComing(u: Setup, published: seq<Message>, c: Channel)
    requires Accounted(c, published) && c.buffer == []
    ensures Decodable(u, published, Positions([]) + Waiting(c)) == [] && Waiting(c) == []
    ensures Passed(c) == Sent(c.offers, true)
  {
    WaitingIsBuffer(c, published);
  }

  lemma PassedAll(c: Channel, published: seq<Message>)
    requires Accounted(c, published) && Sent(c.offers, false) == [] && c.buffer == []
    ensures Passed(c) == Due(c, published)
  {
    hide Sent, Publishes, Delivered;
    WaitingIsBuffer(c, published);
    SentCounts(c.offers);
    var f := SentEmbeds(c.offers);
    AllSent(f, Sent(c.offers, true), Indices(c.offers));
  }

  // ----- the loops of the services and the collector, step by step -----

  /** The message the collector receives: nil arrives as an empty one. */
  function Content(p: Packet): Message {
    match p case Nil => Message("", "", [], None) case Carries(m, _) => m
  }

  /** Receiving one response is what the collector's loop does with it: the same record is stored, and
      the same id is to be acknowledged. */
  lemma HandlesOneResponse(u: Setup, sys: System, stored: bool, budget: Option<nat>)
    requires Good(u, sys) && Possible(sys, Handles(stored))
    ensures var packet := sys.sessions[sys.current.value].wire[0];
            var responses := [Collectors.Response([Content(packet)], false, stored, budget)];
            var d := Act(u, sys, Handles(stored));
            && d.sink == sys.sink + Collectors.KeptRecords(u.decode, responses)
            && (d.unacked.None? <==> Collectors.KeptIds(u.decode, responses) == [])
            && (d.unacked.Some? ==>
                  d.unacked.value < |d.store.published|
                  && Collectors.KeptIds(u.decode, responses) == [d.store.published[d.unacked.value].id])
  {
    var s := sys.sessions[sys.current.value];
    var packet := s.wire[0];
    assert SessionOk(s, u, sys) && Genuine(packet, u.topic, sys.store.published);
    hide Sound, SinkOk, AcksOk, Ascending;
    OneResponse(u.decode, Content(packet), stored, budget);
  }

  lemma OneResponse(decode: Decoder, m: Message, accepts: bool, budget: Option<nat>)
    ensures var responses := [Collectors.Response([m], false, accepts, budget)];
            var decoded := decode(m.payload);
            if decoded.Some? && accepts
            then Collectors.KeptRecords(decode, responses) == [decoded.value]
                 && Collectors.KeptIds(decode, responses) == [m.id]
            else Collectors.KeptRecords(decode, responses) == [] && Collectors.KeptIds(decode, responses) == []
  {
    var r := Collectors.Response([m], false, accepts, budget);
    assert [m][..0] == [] && [r][..0] == [];
    assert Collectors.Records(decode, []) == [] && Collectors.Ids(decode, []) == [];
    assert Collectors.KeptRecords(decode, []) == [] && Collectors.KeptIds(decode, []) == [];
  }

  function Contents(wire: seq<Packet>): (r: seq<Option<Message>>)
    ensures |r| == |wire|
  {
    seq(|wire|, i requires 0 <= i < |wire| => match wire[i] case Nil => None case Carries(m, _) => Some(m))
  }

  /** From the i-th action on, the session's delivery loop takes these steps, one after the other. */
  ghost predicate Delivering(actions: seq<Action>, i: nat, k: nat, sends: seq<bool>) {
    i + |sends| <= |actions| && forall j :: 0 <= j < |sends| ==> actions[i + j] == Forwards(k, sends[j])
  }

  lemma DeliveringBefore(actions: seq<Action>, i: nat, k: nat, sends: seq<bool>)
    requires Delivering(actions, i, k, sends) && sends != []
    ensures var n := |sends| - 1;
            Delivering(actions, i, k, sends[..n]) && i + n < |actions| && actions[i + n] == Forwards(k, sends[n])
  {
  }

  /** Consecutive steps of a session's delivery loop put on the wire what the loop sends. */
  lemma {:induction false} ForwardsDeliver(u: Setup, run: seq<System>, actions: seq<Action>, i: nat, k: nat, ch: nat,
                                           sends: seq<bool>)
    requires Run(u, run, actions) && i + |sends| < |run| && Delivering(actions, i, k, sends)
    requires k < |run[i].sessions| && run[i].sessions[k].channel == Some(ch) && ch < |run[i].store.channels|
    ensures var c, later := run[i].store.channels[ch], run[i + |sends|];
            && k < |later.sessions| && later.sessions[k].channel == Some(ch) && ch < |later.store.channels|
            && later.store.channels[ch] == SubscriberService.Drained(c, |sends|)
            && Contents(later.sessions[k].wire)
               == Contents(run[i].sessions[k].wire)
                  + SubscriberService.Responses(SubscriberService.FirstReceives(c.buffer, |sends|), sends)
    decreases |sends|
  {
    hide Run, Delivering, Act, Good, Possible, Contents;
    hide SubscriberService.Drained, SubscriberService.Responses, SubscriberService.FirstReceives;
    var c := run[i].store.channels[ch];
    if sends == [] {
      NothingForwarded(c, run[i].sessions[k].wire);
    } else {
      var n := |sends| - 1;
      DeliveringBefore(actions, i, k, sends);
      ForwardsDeliver(u, run, actions, i, k, ch, sends[..n]);
      RunStep(u, run, actions, i + n);
      AlwaysGood(u, run, actions, i + n);
      ForwardNext(u, run[i + n], run[i + n + 1], k, ch, c, run[i].sessions[k].wire, sends);
    }
  }

  lemma {:induction false} ForwardNext(u: Setup, sys: System, d: System, k: nat, ch: nat, c: Channel, wire: seq<Packet>,
                                       sends: seq<bool>)
    requires sends != []
    requires var n := |sends| - 1;
             && Good(u, sys) && Possible(sys, Forwards(k, sends[n])) && d == Act(u, sys, Forwards(k, sends[n]))
             && sys.sessions[k].channel == Some(ch) && ch < |sys.store.channels|
             && sys.store.channels[ch] == SubscriberService.Drained(c, n)
             && Contents(sys.sessions[k].wire)
                == Contents(wire)
                   + SubscriberService.Responses(SubscriberService.FirstReceives(c.buffer, n), sends[..n])
    ensures k < |d.sessions| && d.sessions[k].channel == Some(ch) && ch < |d.store.channels|
    ensures d.store.channels[ch] == SubscriberService.Drained(c, |sends|)
    ensures Contents(d.sessions[k].wire)
         == Contents(wire)
            + SubscriberService.Responses(SubscriberService.FirstReceives(c.buffer, |sends|), sends)
  {
    hide Act, Good, SubscriberService.Drained, SubscriberService.Responses, SubscriberService.FirstReceives;
    hide Contents, Enabled;
    var n := |sends| - 1;
    ForwardOnce(u, sys, k, ch, sends[n]);
    DeliverOnce(c, sends);
    Extend(Contents(wire),
           SubscriberService.Responses(SubscriberService.FirstReceives(c.buffer, n), sends[..n]),
           SubscriberService.Head(SubscriberService.Drained(c, n)), sends[n],
           Contents(d.sessions[k].wire),
           SubscriberService.Responses(SubscriberService.FirstReceives(c.buffer, |sends|), sends));
  }

  lemma Extend<T>(before: seq<T>, first: seq<T>, x: T, taken: bool, now: seq<T>, all: seq<T>)
    requires now == if taken then before + first + [x] else before + first
    requires all == if taken then first + [x] else first
    ensures now == before + all
  {
    Assoc(before, first, [x]);
  }

  lemma RunStep(u: Setup, run: seq<System>, actions: seq<Action>, i: nat)
    requires Run(u, run, actions) && i < |actions|
    ensures i + 1 < |run| && Possible(run[i], actions[i]) && run[i + 1] == Act(u, run[i], actions[i])
  {
  }

  lemma NothingForwarded(c: Channel, wire: seq<Packet>)
    ensures SubscriberService.Drained(c, 0) == c
    ensures Contents(wire) + SubscriberService.Responses(SubscriberService.FirstReceives(c.buffer, 0), [])
         == Contents(wire)
  {
    hide Contents;
    assert SubscriberService.FirstReceives(c.buffer, 0) == [];
    assert SubscriberService.Responses([], []) == [];
    assert c.buffer[0..] == c.buffer && c.consumed + c.buffer[..0] == c.consumed;
  }

  lemma ForwardOnce(u: Setup, sys: System, k: nat, ch: nat, sent: bool)
    requires Good(u, sys) && Possible(sys, Forwards(k, sent)) && sys.sessions[k].channel == Some(ch)
    requires ch < |sys.store.channels|
    ensures var c, d := sys.store.channels[ch], Act(u, sys, Forwards(k, sent));
            && k < |d.sessions| && d.sessions[k].channel == Some(ch) && ch < |d.store.channels|
            && d.store.channels[ch] == (if c.buffer == [] then c else Take(c))
            && Contents(d.sessions[k].wire)
               == if sent then Contents(sys.sessions[k].wire) + [SubscriberService.Head(c)]
                  else Contents(sys.sessions[k].wire)
  {
    hide Step, Sound, SessionsOk, SinkOk, AcksOk, Ascending, Waiting, Take, Contents, Received;
    var s, c := sys.sessions[k], sys.store.channels[ch];
    GoodConnected(u, sys);
    ChannelStep(sys.store, Receives(ch), ch);
    HistoryStep(sys.store, Receives(ch));
    ReceivedIsGenuine(u, sys, k);
    ContentsNext(s.wire, Received(c));
    ReceivedContent(c);
  }

  lemma GoodConnected(u: Setup, sys: System)
    requires Good(u, sys)
    ensures Connected(sys.store)
  {
  }

  lemma ContentsNext(wire: seq<Packet>, p: Packet)
    ensures Contents(wire + [p]) == Contents(wire) + [match p case Nil => None case Carries(m, _) => Some(m)]
  {
  }

  lemma ReceivedContent(c: Channel)
    requires c.buffer == [] <==> Waiting(c) == []
    ensures SubscriberService.Head(c) == match Received(c) case Nil => None case Carries(m, _) => Some(m)
  {
  }

  lemma {:induction false} DeliverOnce(c: Channel, sends: seq<bool>)
    requires sends != []
    ensures var n, d := |sends| - 1, SubscriberService.Drained(c, |sends| - 1);
            && SubscriberService.Drained(c, n + 1) == (if d.buffer == [] then d else Take(d))
            && var first := SubscriberService.Responses(SubscriberService.FirstReceives(c.buffer, n), sends[..n]);
               SubscriberService.Responses(SubscriberService.FirstReceives(c.buffer, n + 1), sends)
               == if sends[n] then first + [SubscriberService.Head(d)] else first
  {
    var n := |sends| - 1;
    var received := SubscriberService.FirstReceives(c.buffer, n + 1);
    SubscriberService.DrainedNext(c, n);
    assert received[..n] == SubscriberService.FirstReceives(c.buffer, n);
    SubscriberService.ResponsesPrefix(received[..n], sends[..n], sends);
  }
}
